/**
 * `do_sync` (src/main.rs:73-124): build the file list from the transfer queue,
 * run rsync once per destination with that list on its standard input, and clear
 * the queue.
 *
 * What the operating system does with each attempt (the spawn fails, the child
 * has no stdin, writing the list fails or succeeds) is given as `world`, one
 * outcome per destination. Every started process is recorded as a `Call`.
 */
module Sync {
  import opened Wrappers
  import opened Paths
  import Text

  /** The options `do_sync` reads: `--rsync`, `--rsync-params` and the destinations. */
  datatype Options = Options(rsync: string, rsyncParams: string, dests: seq<string>)

  /** What happens when rsync is started for one destination. */
  datatype Spawn = SpawnFailed | NoStdin | Spawned(writeOk: bool)

  /** What a started rsync process received on its standard input. */
  datatype Stdin = Unavailable | Delivered(data: string) | WriteFailed(data: string)

  /** A started rsync process: program, arguments, and its input. */
  datatype Call = Call(program: string, args: seq<string>, stdin: Stdin)

  /** The destinations' processes in order; `Aborted` when a write failed and `try!` returned early. */
  datatype Dispatch = Completed(calls: seq<Call>) | Aborted(calls: seq<Call>)

  /** The queue entries that convert to UTF-8, in queue order (src/main.rs:75-80). */
  function TextPaths(queue: seq<Path>): (r: seq<string>)
    ensures |r| <= |queue|
    decreases |queue|
  {
    if queue == [] then []
    else
      var prev := TextPaths(queue[..|queue| - 1]);
      match Render(queue[|queue| - 1])
      case Some(s) => prev + [s]
      case None => prev
  }

  /**
   * The file list written to every rsync: the UTF-8 entries joined with newlines
   * (src/main.rs:75-81). It is empty exactly when no entry converts to UTF-8.
   */
  function FileList(queue: seq<Path>): (list: string)
    ensures list == [] <==> TextPaths(queue) == []
  {
    TextPathsNonEmpty(queue);
    Text.Join('\n', TextPaths(queue))
  }

  /**
   * The rsync arguments for one destination (src/main.rs:84-92): the fixed options,
   * then the extra parameters, each a non-empty word without whitespace that
   * together hold every non-blank character of `--rsync-params` in order, then `.`,
   * and the destination last.
   */
  function RsyncArgs(params: string, dest: string): (args: seq<string>)
    ensures |args| >= 5
    ensures args[..3] == ["-a", "--relative", "--files-from=-"]
    ensures forall k :: 3 <= k < |args| - 2 ==> args[k] != [] && Text.NoWhitespace(args[k])
    ensures Text.Concat(args[3..|args| - 2]) == Text.NonWhitespace(params)
    ensures args[|args| - 2] == "." && args[|args| - 1] == dest
  {
    Text.SplitWhitespaceKeepsText(params);
    var args := ["-a", "--relative", "--files-from=-"] + Text.SplitWhitespace(params) + [".", dest];
    assert args[3..|args| - 2] == Text.SplitWhitespace(params);
    args
  }

  /** The call made for one destination, given what happened when it was started. */
  function CallFor(opts: Options, list: string, dest: string, s: Spawn): Call
    requires !s.SpawnFailed?
  {
    var stdin := match s
      case NoStdin => Unavailable
      case Spawned(ok) => if ok then Delivered(list) else WriteFailed(list);
    Call(opts.rsync, RsyncArgs(opts.rsyncParams, dest), stdin)
  }

  /**
   * The first `n` destinations, in order: a failed spawn or a missing stdin is
   * skipped (`continue`); a failed write ends the loop (`try!`).
   */
  function Dispatched(opts: Options, list: string, world: seq<Spawn>, n: nat): Dispatch
    requires n <= |opts.dests| == |world|
    decreases n
  {
    if n == 0 then Completed([])
    else
      match Dispatched(opts, list, world, n - 1)
      case Aborted(cs) => Aborted(cs)
      case Completed(cs) =>
        match world[n - 1]
        case SpawnFailed => Completed(cs)
        case NoStdin => Completed(cs + [CallFor(opts, list, opts.dests[n - 1], world[n - 1])])
        case Spawned(ok) =>
          var c := CallFor(opts, list, opts.dests[n - 1], world[n - 1]);
          if ok then Completed(cs + [c]) else Aborted(cs + [c])
  }

  /**
   * `do_sync`. On `Ok` (`Completed`) the queue is empty, however many
   * destinations failed to start or had no stdin; on `Err` (`Aborted`, a failed
   * write) the queue is returned untouched.
   */
  method DoSync(opts: Options, queue: seq<Path>, world: seq<Spawn>) returns (result: Dispatch, queue': seq<Path>)
    requires |world| == |opts.dests|
    ensures result == Dispatched(opts, FileList(queue), world, |opts.dests|)
    ensures result.Completed? ==> queue' == []
    ensures result.Aborted? ==> queue' == queue
  {
    var filelist := FileList(queue);
    var calls: seq<Call> := [];
    var i := 0;
    while i < |opts.dests|
      invariant 0 <= i <= |opts.dests|
      invariant Dispatched(opts, filelist, world, i) == Completed(calls)
    {
      var dest := opts.dests[i];
      var args := RsyncArgs(opts.rsyncParams, dest);
      DispatchedNext(opts, filelist, world, i, calls);
      match world[i] {
        case SpawnFailed =>
          i := i + 1;
          continue;
        case NoStdin =>
          calls := calls + [Call(opts.rsync, args, Unavailable)];
          i := i + 1;
          continue;
        case Spawned(ok) =>
          if !ok {
            calls := calls + [Call(opts.rsync, args, WriteFailed(filelist))];
            SyncAbortStays(opts, filelist, world, i + 1, |opts.dests|);
            return Aborted(calls), queue;
          }
          calls := calls + [Call(opts.rsync, args, Delivered(filelist))];
      }
      i := i + 1;
    }
    queue' := [];
    result := Completed(calls);
  }

  /** One more destination, after the first `n` completed with calls `cs`. */
  lemma DispatchedNext(opts: Options, list: string, world: seq<Spawn>, n: nat, cs: seq<Call>)
    requires n < |opts.dests| == |world|
    requires Dispatched(opts, list, world, n) == Completed(cs)
    ensures var args := RsyncArgs(opts.rsyncParams, opts.dests[n]);
            Dispatched(opts, list, world, n + 1) ==
              match world[n]
              case SpawnFailed => Completed(cs)
              case NoStdin => Completed(cs + [Call(opts.rsync, args, Unavailable)])
              case Spawned(ok) =>
                if ok then Completed(cs + [Call(opts.rsync, args, Delivered(list))])
                else Aborted(cs + [Call(opts.rsync, args, WriteFailed(list))])
  {
  }

  // ---------------------------------------------------------------------------
  // The dispatch loop

  /** Once a write has failed, no later destination is attempted. */
  lemma {:induction false} SyncAbortStays(opts: Options, list: string, world: seq<Spawn>, n: nat, m: nat)
    requires n <= m <= |opts.dests| == |world|
    requires Dispatched(opts, list, world, n).Aborted?
    ensures Dispatched(opts, list, world, m) == Dispatched(opts, list, world, n)
    decreases m
  {
    if m > n {
      SyncAbortStays(opts, list, world, n, m - 1);
    }
  }

  /** `do_sync` returns `Ok` exactly when no write to an rsync stdin failed. */
  lemma {:induction false} CompletedIffNoWriteFailure(opts: Options, list: string, world: seq<Spawn>, n: nat)
    requires n <= |opts.dests| == |world|
    ensures Dispatched(opts, list, world, n).Completed? <==>
            forall i :: 0 <= i < n ==> world[i] != Spawned(false)
    decreases n
  {
    if n > 0 {
      CompletedIffNoWriteFailure(opts, list, world, n - 1);
      if Dispatched(opts, list, world, n - 1).Aborted? {
        var i :| 0 <= i < n - 1 && world[i] == Spawned(false);
      }
    }
  }

  /**
   * A destination that fails to start or has no stdin does not stop the others:
   * on `Ok`, every destination whose rsync started got its call, and the calls
   * are exactly those.
   */
  lemma {:induction false} CompletedCallsEveryStarted(opts: Options, list: string, world: seq<Spawn>, n: nat)
    requires n <= |opts.dests| == |world|
    requires Dispatched(opts, list, world, n).Completed?
    ensures var calls := Dispatched(opts, list, world, n).calls;
            && (forall i :: 0 <= i < n && !world[i].SpawnFailed? ==> CallFor(opts, list, opts.dests[i], world[i]) in calls)
            && (forall c :: c in calls ==> exists i :: 0 <= i < n && !world[i].SpawnFailed? && c == CallFor(opts, list, opts.dests[i], world[i]))
    decreases n
  {
    if n > 0 {
      CompletedCallsEveryStarted(opts, list, world, n - 1);
    }
  }

  /**
   * The calls of the first `n` destinations that started, one per destination, in
   * configured order, regardless of whether a write failed.
   */
  function Started(opts: Options, list: string, world: seq<Spawn>, n: nat): seq<Call>
    requires n <= |opts.dests| == |world|
    decreases n
  {
    if n == 0 then []
    else if world[n - 1].SpawnFailed? then Started(opts, list, world, n - 1)
    else Started(opts, list, world, n - 1) + [CallFor(opts, list, opts.dests[n - 1], world[n - 1])]
  }

  /**
   * On `Ok`, the calls are exactly one per destination whose rsync started, in the
   * configured order of the destinations: none is merged, repeated or reordered.
   */
  lemma {:induction false} CompletedCallsInOrder(opts: Options, list: string, world: seq<Spawn>, n: nat)
    requires n <= |opts.dests| == |world|
    requires Dispatched(opts, list, world, n).Completed?
    ensures Dispatched(opts, list, world, n).calls == Started(opts, list, world, n)
    decreases n
  {
    if n > 0 {
      CompletedCallsInOrder(opts, list, world, n - 1);
    }
  }

  /** Every process that was given input was given the same file list. */
  lemma {:induction false} CallsCarryFileList(opts: Options, list: string, world: seq<Spawn>, n: nat)
    requires n <= |opts.dests| == |world|
    ensures forall c :: c in Dispatched(opts, list, world, n).calls ==>
              c.program == opts.rsync && (c.stdin.Delivered? || c.stdin.WriteFailed? ==> c.stdin.data == list)
    decreases n
  {
    if n > 0 {
      CallsCarryFileList(opts, list, world, n - 1);
    }
  }

  // ---------------------------------------------------------------------------
  // The file list

  /** No component of any queue entry contains a newline. */
  predicate NewlineFree(queue: seq<Path>) {
    forall k :: 0 <= k < |queue| ==> Avoids(queue[k], '\n')
  }

  /** Every line of the file list is the UTF-8 text of a queue entry, and they appear in queue order. */
  lemma {:induction false} TextPathsAreRendered(queue: seq<Path>)
    ensures forall s :: s in TextPaths(queue) ==> exists k :: 0 <= k < |queue| && Render(queue[k]) == Some(s)
    decreases |queue|
  {
    if queue != [] {
      var n := |queue| - 1;
      TextPathsAreRendered(queue[..n]);
      forall s | s in TextPaths(queue) ensures exists k :: 0 <= k < |queue| && Render(queue[k]) == Some(s) {
        if s in TextPaths(queue[..n]) {
          var k :| 0 <= k < n && Render(queue[..n][k]) == Some(s);
          assert queue[..n][k] == queue[k];
        } else {
          assert Render(queue[n]) == Some(s);
        }
      }
    }
  }

  /** When every entry is UTF-8, nothing is dropped: line `k` is entry `k`. */
  lemma {:induction false} TextPathsKeepAll(queue: seq<Path>)
    requires forall k :: 0 <= k < |queue| ==> Render(queue[k]).Some?
    ensures |TextPaths(queue)| == |queue|
    ensures forall k :: 0 <= k < |queue| ==> Render(queue[k]) == Some(TextPaths(queue)[k])
    decreases |queue|
  {
    if queue != [] {
      var n := |queue| - 1;
      TextPathsKeepAll(queue[..n]);
    }
  }

  /**
   * The filter keeps the UTF-8 entries of both halves, in order: with the
   * one-entry case below, this characterizes `TextPaths` completely.
   */
  lemma {:induction false} TextPathsAppend(a: seq<Path>, b: seq<Path>)
    ensures TextPaths(a + b) == TextPaths(a) + TextPaths(b)
    decreases |b|
  {
    if b == [] {
      assert a + b == a;
    } else {
      var n := |b| - 1;
      var ab := a + b;
      assert ab[..|ab| - 1] == a + b[..n];
      assert ab[|ab| - 1] == b[n];
      TextPathsLast(ab);
      TextPathsLast(b);
      TextPathsAppend(a, b[..n]);
    }
  }

  /** The last entry contributes its text, if any, after the others. */
  lemma TextPathsLast(queue: seq<Path>)
    requires queue != []
    ensures TextPaths(queue) == TextPaths(queue[..|queue| - 1]) + TextPaths([queue[|queue| - 1]])
  {
    assert [queue[|queue| - 1]][..0] == [];
  }

  /** One entry is kept, as its text, exactly when it converts to UTF-8. */
  lemma TextPathsOne(p: Path)
    ensures TextPaths([p]) == match Render(p) case Some(s) => [s] case None => []
  {
    assert [p][..0] == [];
  }

  /** Every line of the file list is non-empty: a rendered path starts with `.`. */
  lemma {:induction false} TextPathsNonEmpty(queue: seq<Path>)
    ensures forall k :: 0 <= k < |TextPaths(queue)| ==> TextPaths(queue)[k] != []
    decreases |queue|
  {
    if queue != [] {
      var n := |queue| - 1;
      TextPathsNonEmpty(queue[..n]);
      if Render(queue[n]).Some? {
        RenderNonEmpty(queue[n]);
      }
    }
  }

  lemma {:induction false} TextPathsNewlineFree(queue: seq<Path>)
    requires NewlineFree(queue)
    ensures Text.Free('\n', TextPaths(queue))
    decreases |queue|
  {
    if queue != [] {
      var n := |queue| - 1;
      TextPathsNewlineFree(queue[..n]);
      if Render(queue[n]).Some? {
        RenderAvoids(queue[n], '\n');
      }
    }
  }

  /**
   * The file list reads back, line by line, as the UTF-8 queue entries in queue
   * order, and it holds one newline fewer than it has entries: the separator goes
   * between entries only, so there is no trailing newline.
   */
  lemma FileListLines(queue: seq<Path>)
    requires NewlineFree(queue) && TextPaths(queue) != []
    ensures Text.SplitOn('\n', FileList(queue)) == TextPaths(queue)
    ensures Text.Count('\n', FileList(queue)) == |TextPaths(queue)| - 1
    ensures var list := FileList(queue); list != [] && list[|list| - 1] != '\n'
  {
    var lines := TextPaths(queue);
    TextPathsNewlineFree(queue);
    Text.SplitOnJoin('\n', lines);
    Text.CountInJoin('\n', lines);
    Text.JoinEndsWithLast('\n', lines);
    var last := lines[|lines| - 1];
    TextPathsAreRendered(queue);
    var k :| 0 <= k < |queue| && Render(queue[k]) == Some(last);
    RenderNonEmpty(queue[k]);
    var list := FileList(queue);
    assert list[|list| - 1] == last[|last| - 1];
    assert '\n' !in last;
  }

  /** A rendered path is never empty: it starts with `.`. */
  lemma RenderNonEmpty(p: Path)
    requires Render(p).Some?
    ensures Render(p).value != []
  {
    var ts := Texts(p).value;
    Text.JoinEndsWithLast('/', ["."] + ts);
    if ts == [] {
      assert ["."] + ts == ["."];
    } else {
      assert |Text.Join('/', ["."] + ts)| >= 1 by {
        assert Text.Join('/', ["."] + ts) == "." + ['/'] + Text.Join('/', ts);
      }
    }
  }

  /**
   * Round trip: words written into `--rsync-params` separated by blanks reach
   * rsync as separate arguments, exactly those words in that order, between the
   * fixed options and `.`.
   */
  lemma RsyncArgsParams(words: seq<string>, dest: string)
    requires forall k :: 0 <= k < |words| ==> words[k] != [] && Text.NoWhitespace(words[k])
    ensures var args := RsyncArgs(Text.Join(' ', words), dest);
            |args| == |words| + 5 && args[3..|args| - 2] == words
  {
    Text.SplitWhitespaceOfJoin(words);
    var args := RsyncArgs(Text.Join(' ', words), dest);
    assert args[3..|args| - 2] == Text.SplitWhitespace(Text.Join(' ', words));
  }
}
