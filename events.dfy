/**
 * The event classifier: the body of the loop over one batch of inotify events in
 * `main` (src/main.rs:189-216). Each event carries the descriptor of the watched
 * directory, the bare name of the entry, and its flags. An event whose name the
 * ignore patterns match is dropped; a directory creation yields a new directory
 * to watch; a file closed after writing or moved in yields a path to transfer;
 * anything else yields nothing.
 */
module Events {
  import opened Wrappers
  import opened Paths
  import opened Registry

  /** A decoded inotify event: `IN_ISDIR`, `IN_CREATE`, `IN_MOVED_TO`, `IN_CLOSE_WRITE`. */
  datatype Event = Event(wd: Wd, name: string, isDir: bool, create: bool, movedTo: bool, closeWrite: bool)

  /** The compiled ignore patterns (`RegexSet::is_match`), applied to a bare name. */
  type Matcher = string -> bool

  datatype Outcome = Dropped | NewDirectory(path: Path) | PendingTransfer(path: Path)

  /** The ignore file is configured and one of its patterns matches `name`. */
  predicate Ignored(ignore: Option<Matcher>, name: string) {
    ignore.Some? && ignore.value(name)
  }

  /** The directory branch (src/main.rs:195-203) only tests creation: a directory moved in is not one. */
  predicate IsDirCreate(e: Event) {
    e.isDir && e.create
  }

  /** The file branch (src/main.rs:204-215): closed after writing, or moved in. */
  predicate IsFileReady(e: Event) {
    !e.isDir && (e.closeWrite || e.movedTo)
  }

  /** The event reaches `watchlist.get(&event.wd).unwrap()`. */
  predicate Resolves(e: Event, ignore: Option<Matcher>) {
    !Ignored(ignore, e.name) && (IsDirCreate(e) || IsFileReady(e))
  }

  /** Every event that reaches the lookup names a registered descriptor; otherwise `unwrap` panics. */
  predicate Resolvable(events: seq<Event>, reg: Registry, ignore: Option<Matcher>) {
    forall i :: 0 <= i < |events| && Resolves(events[i], ignore) ==> events[i].wd in reg
  }

  /** The directory the event happened in, with the entry's name pushed onto it. */
  function EntryPath(e: Event, reg: Registry): Path
    requires e.wd in reg
  {
    reg[e.wd] + [FromName(e.name)]
  }

  /**
   * One event. The ignore test comes first and wins over every flag; the two
   * outcomes exclude each other (one needs `IN_ISDIR`, the other its absence);
   * a directory that is moved in, and a file that is only created, yield nothing.
   */
  function Classify(e: Event, reg: Registry, ignore: Option<Matcher>): (r: Outcome)
    requires Resolves(e, ignore) ==> e.wd in reg
    ensures Ignored(ignore, e.name) ==> r == Dropped
    ensures r.NewDirectory? <==> !Ignored(ignore, e.name) && e.isDir && e.create
    ensures r.PendingTransfer? <==> !Ignored(ignore, e.name) && !e.isDir && (e.closeWrite || e.movedTo)
    ensures !r.Dropped? ==> e.wd in reg && r.path == EntryPath(e, reg)
    ensures !r.Dropped? ==> r.path[..|r.path| - 1] == reg[e.wd] && ComponentText(r.path[|r.path| - 1]) == Some(e.name)
  {
    if Ignored(ignore, e.name) then Dropped
    else if e.isDir then
      (if e.create then (NameRoundTrip(e.name); NewDirectory(EntryPath(e, reg))) else Dropped)
    else if e.closeWrite || e.movedTo then
      NameRoundTrip(e.name); PendingTransfer(EntryPath(e, reg))
    else Dropped
  }

  lemma ResolvablePrefix(events: seq<Event>, reg: Registry, ignore: Option<Matcher>, n: nat)
    requires Resolvable(events, reg, ignore) && n <= |events|
    ensures Resolvable(events[..n], reg, ignore)
  {
    forall i | 0 <= i < n && Resolves(events[..n][i], ignore) ensures events[..n][i].wd in reg {
      assert events[..n][i] == events[i];
    }
  }

  /** The paths a batch appends to `subdirs`, in event order. */
  function NewDirs(events: seq<Event>, reg: Registry, ignore: Option<Matcher>): seq<Path>
    requires Resolvable(events, reg, ignore)
    decreases |events|
  {
    if events == [] then []
    else
      var n := |events| - 1;
      ResolvablePrefix(events, reg, ignore, n);
      var prev := NewDirs(events[..n], reg, ignore);
      match Classify(events[n], reg, ignore)
      case NewDirectory(p) => prev + [p]
      case _ => prev
  }

  /** The paths a batch appends to the transfer queue, in event order. */
  function Transfers(events: seq<Event>, reg: Registry, ignore: Option<Matcher>): seq<Path>
    requires Resolvable(events, reg, ignore)
    decreases |events|
  {
    if events == [] then []
    else
      var n := |events| - 1;
      ResolvablePrefix(events, reg, ignore, n);
      var prev := Transfers(events[..n], reg, ignore);
      match Classify(events[n], reg, ignore)
      case PendingTransfer(p) => prev + [p]
      case _ => prev
  }

  /**
   * The loop over one batch (src/main.rs:189-216). It reads the registry and never
   * changes it; the queue keeps its old entries and gains the batch's file paths
   * at its end, and `subdirs` collects the batch's new directories.
   */
  method ClassifyBatch(events: seq<Event>, reg: Registry, ignore: Option<Matcher>, queue: seq<Path>)
    returns (queue': seq<Path>, subdirs: seq<Path>)
    requires Resolvable(events, reg, ignore)
    ensures queue' == queue + Transfers(events, reg, ignore)
    ensures subdirs == NewDirs(events, reg, ignore)
  {
    queue' := queue;
    subdirs := [];
    var i := 0;
    while i < |events|
      invariant 0 <= i <= |events|
      invariant Resolvable(events[..i], reg, ignore)
      invariant queue' == queue + Transfers(events[..i], reg, ignore)
      invariant subdirs == NewDirs(events[..i], reg, ignore)
    {
      var event := events[i];
      assert events[..i + 1][..i] == events[..i];
      assert events[..i + 1][i] == event;
      ResolvablePrefix(events, reg, ignore, i + 1);
      if Ignored(ignore, event.name) {
        i := i + 1;
        continue;
      }
      if event.isDir {
        if event.create {
          var dirname := reg[event.wd] + [FromName(event.name)];
          subdirs := subdirs + [dirname];
        }
      } else {
        if event.closeWrite || event.movedTo {
          var dirname := reg[event.wd] + [FromName(event.name)];
          queue' := queue' + [dirname];
        }
      }
      i := i + 1;
    }
    assert events[..i] == events;
  }

  // ---------------------------------------------------------------------------
  // An independent description of the queue's growth: the file events that
  // qualify, filtered out of the batch in order, each mapped to its path.

  predicate Qualifies(e: Event, ignore: Option<Matcher>) {
    !Ignored(ignore, e.name) && IsFileReady(e)
  }

  function Qualifying(events: seq<Event>, ignore: Option<Matcher>): (r: seq<Event>)
    ensures forall k :: 0 <= k < |r| ==> r[k] in events && Qualifies(r[k], ignore)
    decreases |events|
  {
    if events == [] then []
    else if Qualifies(events[0], ignore) then [events[0]] + Qualifying(events[1..], ignore)
    else Qualifying(events[1..], ignore)
  }

  lemma {:induction false} QualifyingAppend(events: seq<Event>, e: Event, ignore: Option<Matcher>)
    ensures Qualifying(events + [e], ignore) ==
            Qualifying(events, ignore) + (if Qualifies(e, ignore) then [e] else [])
    decreases |events|
  {
    if events == [] {
      assert events + [e] == [e];
    } else {
      assert (events + [e])[1..] == events[1..] + [e];
      QualifyingAppend(events[1..], e, ignore);
    }
  }

  /**
   * The queue grows by exactly one entry per qualifying file event, in event order,
   * with no deduplication: entry `k` is the path of the `k`-th qualifying event.
   */
  lemma {:induction false} TransfersAreQualifyingPaths(events: seq<Event>, reg: Registry, ignore: Option<Matcher>)
    requires Resolvable(events, reg, ignore)
    ensures var t, q := Transfers(events, reg, ignore), Qualifying(events, ignore);
            |t| == |q| && forall k :: 0 <= k < |t| ==> q[k].wd in reg && t[k] == EntryPath(q[k], reg)
    decreases |events|
  {
    if events != [] {
      var n := |events| - 1;
      ResolvablePrefix(events, reg, ignore, n);
      TransfersAreQualifyingPaths(events[..n], reg, ignore);
      assert events == events[..n] + [events[n]];
      QualifyingAppend(events[..n], events[n], ignore);
    }
  }

  /** The last event of a batch contributes its own transfer, if any, after the rest. */
  lemma TransfersLast(events: seq<Event>, reg: Registry, ignore: Option<Matcher>)
    requires events != [] && Resolvable(events, reg, ignore)
    ensures var n := |events| - 1;
            && Resolvable(events[..n], reg, ignore)
            && Transfers(events, reg, ignore) ==
               Transfers(events[..n], reg, ignore) +
               (match Classify(events[n], reg, ignore) case PendingTransfer(p) => [p] case _ => [])
  {
    ResolvablePrefix(events, reg, ignore, |events| - 1);
  }

  lemma ResolvableSplit(a: seq<Event>, b: seq<Event>, reg: Registry, ignore: Option<Matcher>)
    requires Resolvable(a + b, reg, ignore)
    ensures Resolvable(a, reg, ignore) && Resolvable(b, reg, ignore)
  {
    forall i | 0 <= i < |a| && Resolves(a[i], ignore) ensures a[i].wd in reg {
      assert (a + b)[i] == a[i];
    }
    forall i | 0 <= i < |b| && Resolves(b[i], ignore) ensures b[i].wd in reg {
      assert (a + b)[|a| + i] == b[i];
    }
  }

  /** Splitting one batch in two: the whole appends what each part appends, in order. */
  lemma {:induction false} TransfersAppend(a: seq<Event>, b: seq<Event>, reg: Registry, ignore: Option<Matcher>)
    requires Resolvable(a + b, reg, ignore)
    ensures Resolvable(a, reg, ignore) && Resolvable(b, reg, ignore)
    ensures Transfers(a + b, reg, ignore) == Transfers(a, reg, ignore) + Transfers(b, reg, ignore)
    decreases |b|
  {
    ResolvableSplit(a, b, reg, ignore);
    if b == [] {
      assert a + b == a;
    } else {
      var n := |b| - 1;
      var ab := a + b;
      assert ab[..|ab| - 1] == a + b[..n];
      assert ab[|ab| - 1] == b[n];
      TransfersLast(ab, reg, ignore);
      TransfersLast(b, reg, ignore);
      TransfersAppend(a, b[..n], reg, ignore);
    }
  }

  /**
   * Event `i` of a batch adds its path to `subdirs` iff it is a directory creation
   * whose name is not ignored, adds its path to the transfer queue iff it qualifies,
   * and never adds to both.
   */
  lemma OutputsExclusive(events: seq<Event>, reg: Registry, ignore: Option<Matcher>, i: nat)
    requires Resolvable(events, reg, ignore) && i < |events|
    ensures Resolvable(events[..i], reg, ignore) && Resolvable(events[..i + 1], reg, ignore)
    ensures var e := events[i];
            var dir := !Ignored(ignore, e.name) && IsDirCreate(e);
            && (dir || Qualifies(e, ignore) ==> e.wd in reg)
            && NewDirs(events[..i + 1], reg, ignore) ==
               NewDirs(events[..i], reg, ignore) + (if dir then [EntryPath(e, reg)] else [])
            && Transfers(events[..i + 1], reg, ignore) ==
               Transfers(events[..i], reg, ignore) + (if Qualifies(e, ignore) then [EntryPath(e, reg)] else [])
            && !(dir && Qualifies(e, ignore))
  {
    ResolvablePrefix(events, reg, ignore, i + 1);
    ResolvablePrefix(events, reg, ignore, i);
    assert events[..i + 1][..i] == events[..i];
    assert events[..i + 1][i] == events[i];
  }

  /** Each event feeds at most one output, so together they are no longer than the batch. */
  lemma {:induction false} OutputsCount(events: seq<Event>, reg: Registry, ignore: Option<Matcher>)
    requires Resolvable(events, reg, ignore)
    ensures |NewDirs(events, reg, ignore)| + |Transfers(events, reg, ignore)| <= |events|
    decreases |events|
  {
    if events != [] {
      ResolvablePrefix(events, reg, ignore, |events| - 1);
      OutputsCount(events[..|events| - 1], reg, ignore);
    }
  }

  /** A batch of ignored events leaves both outputs empty. */
  lemma {:induction false} IgnoredBatch(events: seq<Event>, reg: Registry, ignore: Option<Matcher>)
    requires forall i :: 0 <= i < |events| ==> Ignored(ignore, events[i].name)
    ensures Resolvable(events, reg, ignore)
    ensures NewDirs(events, reg, ignore) == [] && Transfers(events, reg, ignore) == []
    decreases |events|
  {
    if events != [] {
      var n := |events| - 1;
      IgnoredBatch(events[..n], reg, ignore);
    }
  }

  /**
   * Every new directory of a batch is one level below a registered directory, and
   * so is every path it queues.
   */
  lemma {:induction false} OutputsBelowRegistered(events: seq<Event>, reg: Registry, ignore: Option<Matcher>)
    requires Resolvable(events, reg, ignore)
    ensures forall p :: p in NewDirs(events, reg, ignore) ==> |p| > 0 && p[..|p| - 1] in reg.Values
    ensures forall p :: p in Transfers(events, reg, ignore) ==> |p| > 0 && p[..|p| - 1] in reg.Values
    decreases |events|
  {
    if events != [] {
      var n := |events| - 1;
      ResolvablePrefix(events, reg, ignore, n);
      OutputsBelowRegistered(events[..n], reg, ignore);
    }
  }
}
