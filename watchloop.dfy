/**
 * One iteration of the endless loop in `main` (src/main.rs:182-231): classify a
 * batch of events, watch every directory it discovered, then synchronize if the
 * transfer queue is non-empty and sleep otherwise.
 *
 * The batch, the current directory tree and what happens to each rsync attempt
 * are inputs. A panic (`unwrap` on a failed `add_watch` or on `do_sync`'s error)
 * ends the process and is the outcome `Panicked`.
 */
module WatchLoop {
  import opened Wrappers
  import opened Paths
  import opened Registry
  import opened Events
  import opened Sync

  /** The state carried from one iteration to the next: `watchlist` and `transfer_queue`. */
  datatype LoopState = LoopState(registry: Registry, queue: seq<Path>)

  datatype StepOutcome =
    | Synced(state: LoopState, calls: seq<Call>)
    | Slept(state: LoopState)
    | Panicked

  /** Every directory a batch discovers still exists when it is watched. */
  predicate AllExist(fs: Tree, dirs: seq<Path>) {
    forall k :: 0 <= k < |dirs| ==> dirs[k] in fs.listing
  }

  /**
   * One iteration. With `queue` the old queue followed by the batch's file paths
   * and `reg` the registry with the batch's directories watched: the step panics
   * exactly when a discovered directory is gone or a write to rsync fails; it
   * sleeps exactly when the queue is empty (and then starts no rsync at all);
   * otherwise it synchronizes every destination and leaves the queue empty.
   */
  method Step(st: LoopState, wdOf: Path -> Wd, ignore: Option<Matcher>, opts: Options,
              events: seq<Event>, fs: Tree, world: seq<Spawn>)
    returns (out: StepOutcome)
    requires Resolvable(events, st.registry, ignore)
    requires |world| == |opts.dests|
    ensures var queue := st.queue + Transfers(events, st.registry, ignore);
            var subdirs := NewDirs(events, st.registry, ignore);
            var reg := RegisterAll(st.registry, wdOf, subdirs);
            var dispatch := Dispatched(opts, FileList(queue), world, |opts.dests|);
            && (out.Panicked? <==> !AllExist(fs, subdirs) || (queue != [] && dispatch.Aborted?))
            && (out.Slept? <==> AllExist(fs, subdirs) && queue == [])
            && (out.Slept? ==> out.state == LoopState(reg, []))
            && (out.Synced? ==> queue != [] && out.state == LoopState(reg, []) && out.calls == dispatch.calls)
  {
    var queue, subdirs := ClassifyBatch(events, st.registry, ignore, st.queue);
    var ok, reg := RegisterSubdirs(st.registry, wdOf, fs, subdirs);
    if !ok {
      return Panicked;
    }
    if queue != [] {
      var result, queue' := DoSync(opts, queue, world);
      if result.Aborted? {
        return Panicked;
      }
      return Synced(LoopState(reg, queue'), result.calls);
    } else {
      return Slept(LoopState(reg, queue));
    }
  }

  /**
   * An iteration never removes a watch: every descriptor keeps its directory, the
   * batch's directories become registered, and the registry stays consistent.
   */
  lemma StepKeepsRegistry(st: LoopState, wdOf: Path -> Wd, ignore: Option<Matcher>, events: seq<Event>)
    requires Injective(wdOf) && Consistent(st.registry, wdOf)
    requires Resolvable(events, st.registry, ignore)
    ensures var subdirs := NewDirs(events, st.registry, ignore);
            var reg := RegisterAll(st.registry, wdOf, subdirs);
            && Consistent(reg, wdOf)
            && Extends(reg, st.registry)
            && forall k :: 0 <= k < |subdirs| ==> Registered(reg, wdOf, subdirs[k])
  {
    RegisterAllGrows(st.registry, wdOf, NewDirs(events, st.registry, ignore));
  }

  /**
   * A new sub-directory `photos` created in the root is watched after the batch, and
   * a file `a.jpg` then finished in it is queued as `./photos/a.jpg`.
   */
  lemma NewDirectoryThenFile(reg: Registry, wdOf: Path -> Wd, ignore: Option<Matcher>)
    requires Injective(wdOf) && Consistent(reg, wdOf) && Registered(reg, wdOf, Root)
    requires !Ignored(ignore, "photos") && !Ignored(ignore, "a.jpg")
    ensures var mkdir := Event(wdOf(Root), "photos", true, true, false, false);
            var photos := [FromName("photos")];
            var reg' := RegisterAll(reg, wdOf, NewDirs([mkdir], reg, ignore));
            var write := Event(wdOf(photos), "a.jpg", false, false, false, true);
            && NewDirs([mkdir], reg, ignore) == [photos]
            && Resolvable([write], reg', ignore)
            && Transfers([write], reg', ignore) == [photos + [FromName("a.jpg")]]
  {
    var mkdir := Event(wdOf(Root), "photos", true, true, false, false);
    var photos := [FromName("photos")];
    assert Classify(mkdir, reg, ignore) == NewDirectory(Root + [FromName("photos")]);
    assert Root + [FromName("photos")] == photos;
    assert [mkdir][..0] == [];
    assert NewDirs([mkdir], reg, ignore) == NewDirs([], reg, ignore) + [photos];
    var reg' := RegisterAll(reg, wdOf, [photos]);
    assert [photos][..0] == [];
    assert reg' == RegisterAll(reg[wdOf(photos) := photos], wdOf, []);
    var write := Event(wdOf(photos), "a.jpg", false, false, false, true);
    assert Classify(write, reg', ignore) == PendingTransfer(photos + [FromName("a.jpg")]);
    assert [write][..0] == [];
    assert Transfers([write], reg', ignore) == Transfers([], reg', ignore) + [photos + [FromName("a.jpg")]];
  }

  /** A finished file whose name the ignore patterns match leaves the queue as it was. */
  lemma IgnoredFileNotQueued(st: LoopState, e: Event, ignore: Option<Matcher>)
    requires Ignored(ignore, e.name)
    ensures Resolvable([e], st.registry, ignore)
    ensures st.queue + Transfers([e], st.registry, ignore) == st.queue
  {
    IgnoredBatch([e], st.registry, ignore);
  }
}
