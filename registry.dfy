/**
 * The watch registry (`watchlist` in `main`): a map from an inotify watch
 * descriptor to the directory it watches. It is filled by a worklist walk of the
 * tree at start-up and grows whenever a new directory is discovered; entries are
 * only ever inserted.
 *
 * `inotify_add_watch` is the parameter `wdOf`: the descriptor the kernel hands out
 * for a directory. Watching the same directory again returns the same descriptor
 * (the root is watched twice), and distinct directories get distinct descriptors.
 */
module Registry {
  import opened Paths

  type Wd = int

  type Registry = map<Wd, Path>

  /** Distinct directories get distinct watch descriptors. */
  ghost predicate Injective(wdOf: Path -> Wd) {
    forall p, q :: wdOf(p) == wdOf(q) ==> p == q
  }

  /** Every entry is filed under the descriptor of its own directory. */
  ghost predicate Consistent(reg: Registry, wdOf: Path -> Wd) {
    forall wd :: wd in reg ==> wdOf(reg[wd]) == wd
  }

  /** `p` is watched: its descriptor resolves to it. */
  predicate Registered(reg: Registry, wdOf: Path -> Wd, p: Path) {
    wdOf(p) in reg && reg[wdOf(p)] == p
  }

  /** Every entry of `reg` is still in `reg'` with the same directory. */
  ghost predicate Extends(reg': Registry, reg: Registry) {
    forall wd :: wd in reg ==> wd in reg' && reg'[wd] == reg[wd]
  }

  /**
   * The registry after watching each of `dirs`, taken from the back as
   * `subdirs.pop()` does (src/main.rs:219-224).
   */
  function RegisterAll(reg: Registry, wdOf: Path -> Wd, dirs: seq<Path>): Registry
    decreases |dirs|
  {
    if dirs == [] then reg
    else
      var d := dirs[|dirs| - 1];
      RegisterAll(reg[wdOf(d) := d], wdOf, dirs[..|dirs| - 1])
  }

  /**
   * Registration only adds: what was registered stays registered under the same
   * descriptor, every new directory is registered, every entry is old or new, and
   * the registry stays consistent.
   */
  lemma {:induction false} RegisterAllGrows(reg: Registry, wdOf: Path -> Wd, dirs: seq<Path>)
    requires Injective(wdOf) && Consistent(reg, wdOf)
    ensures var reg' := RegisterAll(reg, wdOf, dirs);
            && Consistent(reg', wdOf)
            && Extends(reg', reg)
            && (forall k :: 0 <= k < |dirs| ==> Registered(reg', wdOf, dirs[k]))
            && (forall wd :: wd in reg' ==> wd in reg || reg'[wd] in dirs)
    decreases |dirs|
  {
    if dirs != [] {
      var d := dirs[|dirs| - 1];
      var mid := reg[wdOf(d) := d];
      var init := dirs[..|dirs| - 1];
      assert Extends(mid, reg) by {
        forall wd | wd in reg ensures wd in mid && mid[wd] == reg[wd] {
          if wd == wdOf(d) {
            assert wdOf(reg[wd]) == wdOf(d);
          }
        }
      }
      RegisterAllGrows(mid, wdOf, init);
      var reg' := RegisterAll(mid, wdOf, init);
      forall k | 0 <= k < |dirs| ensures Registered(reg', wdOf, dirs[k]) {
        if k < |dirs| - 1 {
          assert dirs[k] == init[k];
        } else {
          assert Registered(mid, wdOf, d);
        }
      }
      forall wd | wd in reg' ensures wd in reg || reg'[wd] in dirs {
        if wd !in mid {
          assert reg'[wd] in init;
        } else if wd == wdOf(d) && wd !in reg {
          assert reg'[wd] == d;
        }
      }
    }
  }

  /**
   * The growth step after a batch (src/main.rs:219-224): pop each discovered
   * directory and insert its descriptor. `add_watch(..).unwrap()` panics when the
   * directory no longer exists; that is `ok == false`, after which nothing else
   * happens.
   */
  method RegisterSubdirs(reg: Registry, wdOf: Path -> Wd, fs: Tree, subdirs: seq<Path>)
    returns (ok: bool, reg': Registry)
    ensures ok <==> forall k :: 0 <= k < |subdirs| ==> subdirs[k] in fs.listing
    ensures ok ==> reg' == RegisterAll(reg, wdOf, subdirs)
  {
    reg' := reg;
    var pending := subdirs;
    while pending != []
      invariant pending == subdirs[..|pending|]
      invariant forall k :: |pending| <= k < |subdirs| ==> subdirs[k] in fs.listing
      invariant RegisterAll(reg', wdOf, pending) == RegisterAll(reg, wdOf, subdirs)
      decreases |pending|
    {
      var dirname := pending[|pending| - 1];
      pending := pending[..|pending| - 1];
      if dirname !in fs.listing {
        return false, reg';
      }
      reg' := reg'[wdOf(dirname) := dirname];
    }
    ok := true;
  }

  /** The sub-directories of `cwd` in listing order: `cwd` joined with each directory entry's name. */
  function DirChildren(cwd: Path, entries: seq<Entry>): seq<Path>
    decreases |entries|
  {
    if entries == [] then []
    else
      var prev := DirChildren(cwd, entries[..|entries| - 1]);
      var e := entries[|entries| - 1];
      if e.isDir then prev + [cwd + [e.name]] else prev
  }

  /** A path is collected exactly when it is `cwd` joined with the name of a directory entry. */
  lemma {:induction false} DirChildrenMembers(cwd: Path, entries: seq<Entry>, c: Path)
    ensures c in DirChildren(cwd, entries) <==>
            exists j :: 0 <= j < |entries| && entries[j].isDir && c == cwd + [entries[j].name]
    decreases |entries|
  {
    if entries != [] {
      var init := entries[..|entries| - 1];
      DirChildrenMembers(cwd, init, c);
      if exists j :: 0 <= j < |init| && init[j].isDir && c == cwd + [init[j].name] {
        var j :| 0 <= j < |init| && init[j].isDir && c == cwd + [init[j].name];
        assert entries[j] == init[j];
      }
      if exists j :: 0 <= j < |entries| && entries[j].isDir && c == cwd + [entries[j].name] {
        var j :| 0 <= j < |entries| && entries[j].isDir && c == cwd + [entries[j].name];
        if j < |init| { assert entries[j] == init[j]; }
      }
    }
  }

  /**
   * One directory's listing (src/main.rs:168-173): every entry that is a directory
   * is pushed, in listing order, onto the next level.
   */
  method ListSubdirs(fs: Tree, cwd: Path) returns (children: seq<Path>)
    requires cwd in fs.listing
    ensures children == DirChildren(cwd, fs.listing[cwd])
  {
    var entries := fs.listing[cwd];
    children := [];
    for i := 0 to |entries|
      invariant children == DirChildren(cwd, entries[..i])
    {
      assert entries[..i + 1][..i] == entries[..i];
      if entries[i].isDir {
        children := children + [cwd + [entries[i].name]];
      }
    }
    assert entries[..|entries|] == entries;
  }

  /** The children of a reachable directory are reachable and one level deeper. */
  lemma ChildrenReachable(fs: Tree, cwd: Path, c: Path)
    requires Reachable(fs, cwd) && cwd in fs.listing
    requires c in DirChildren(cwd, fs.listing[cwd])
    ensures Reachable(fs, c) && |c| == |cwd| + 1
  {
    DirChildrenMembers(cwd, fs.listing[cwd], c);
    var j :| 0 <= j < |fs.listing[cwd]| && fs.listing[cwd][j].isDir && c == cwd + [fs.listing[cwd][j].name];
    ReachableChild(fs, cwd, j);
  }

  /** A reachable directory other than the root is a child of its parent. */
  lemma ChildOfParent(fs: Tree, p: Path)
    requires Reachable(fs, p) && p != Root
    ensures var parent := p[..|p| - 1];
            Reachable(fs, parent) && parent in fs.listing && p in DirChildren(parent, fs.listing[parent])
  {
    var parent := p[..|p| - 1];
    var j :| 0 <= j < |fs.listing[parent]| && fs.listing[parent][j] == Entry(p[|p| - 1], true);
    assert parent + [p[|p| - 1]] == p;
    DirChildrenMembers(parent, fs.listing[parent], p);
  }

  /** Watching one directory keeps every registration and adds that directory's. */
  lemma InsertExtends(reg: Registry, wdOf: Path -> Wd, d: Path)
    requires Injective(wdOf) && Consistent(reg, wdOf)
    ensures var reg' := reg[wdOf(d) := d];
            Consistent(reg', wdOf) && Extends(reg', reg) && Registered(reg', wdOf, d)
  {
    var reg' := reg[wdOf(d) := d];
    forall wd | wd in reg ensures wd in reg' && reg'[wd] == reg[wd] {
      if wd == wdOf(d) {
        assert wdOf(reg[wd]) == wdOf(d);
      }
    }
  }

  lemma {:induction false} SubsetCardinality<T>(a: set<T>, b: set<T>)
    requires a <= b
    ensures |a| <= |b|
    decreases |a|
  {
    if a != {} {
      var x :| x in a;
      SubsetCardinality(a - {x}, b - {x});
    }
  }

  /** The listed directories at depth `d` or deeper: what the walk may still visit. */
  function DirsFrom(fs: Tree, d: nat): set<Path> {
    set p | p in fs.listing && |p| >= d
  }

  lemma DirsFromShrinks(fs: Tree, d: nat, p: Path)
    requires p in fs.listing && |p| == d
    ensures |DirsFrom(fs, d + 1)| < |DirsFrom(fs, d)|
  {
    var a, b := DirsFrom(fs, d + 1), DirsFrom(fs, d);
    SubsetCardinality(a, b - {p});
  }

  /** Every sub-directory of `cwd` is in `next`. */
  ghost predicate Collected(fs: Tree, cwd: Path, next: seq<Path>) {
    cwd in fs.listing && forall c :: c in DirChildren(cwd, fs.listing[cwd]) ==> c in next
  }

  /**
   * One level of the walk (src/main.rs:165-176): pop every directory of `level`,
   * collect its sub-directories for the next level, and watch it.
   */
  method WalkLevel(fs: Tree, wdOf: Path -> Wd, reg: Registry, level: seq<Path>, ghost depth: nat)
    returns (reg': Registry, next: seq<Path>)
    requires WellFormed(fs) && Injective(wdOf) && Consistent(reg, wdOf)
    requires forall k :: 0 <= k < |level| ==> |level[k]| == depth && Reachable(fs, level[k])
    ensures Consistent(reg', wdOf) && Extends(reg', reg)
    ensures forall k :: 0 <= k < |level| ==> Registered(reg', wdOf, level[k])
    ensures forall wd :: wd in reg' ==> wd in reg || reg'[wd] in level
    ensures forall k :: 0 <= k < |next| ==> |next[k]| == depth + 1 && Reachable(fs, next[k])
    ensures forall k :: 0 <= k < |level| ==> Collected(fs, level[k], next)
  {
    reg' := reg;
    var working := level;
    next := [];
    while working != []
      invariant working == level[..|working|]
      invariant Consistent(reg', wdOf) && Extends(reg', reg)
      invariant forall k :: |working| <= k < |level| ==> Registered(reg', wdOf, level[k])
      invariant forall wd :: wd in reg' ==> wd in reg || reg'[wd] in level
      invariant forall k :: 0 <= k < |next| ==> |next[k]| == depth + 1 && Reachable(fs, next[k])
      invariant forall k :: |working| <= k < |level| ==> Collected(fs, level[k], next)
      decreases |working|
    {
      var cwd := working[|working| - 1];
      working := working[..|working| - 1];
      ReachableListed(fs, cwd);
      var children := ListSubdirs(fs, cwd);
      forall c | c in children ensures Reachable(fs, c) && |c| == depth + 1 {
        ChildrenReachable(fs, cwd, c);
      }
      ghost var prev := next;
      next := next + children;
      forall k | |working| <= k < |level| ensures Collected(fs, level[k], next) {
        if k == |working| {
          assert level[k] == cwd;
        } else {
          assert Collected(fs, level[k], prev);
        }
      }
      ghost var prevReg := reg';
      InsertExtends(reg', wdOf, cwd);
      reg' := reg'[wdOf(cwd) := cwd];
      forall k | |working| <= k < |level| ensures Registered(reg', wdOf, level[k]) {
        if k > |working| {
          assert Registered(prevReg, wdOf, level[k]);
        }
      }
    }
  }

  /** The next level holds every reachable directory one level deeper than the current one. */
  lemma NextLevelComplete(fs: Tree, level: seq<Path>, next: seq<Path>, depth: nat)
    requires forall p :: Reachable(fs, p) && |p| == depth ==> p in level
    requires forall k :: 0 <= k < |level| ==> Collected(fs, level[k], next)
    ensures forall p :: Reachable(fs, p) && |p| == depth + 1 ==> p in next
  {
    forall p | Reachable(fs, p) && |p| == depth + 1 ensures p in next {
      ChildOfParent(fs, p);
      var parent := p[..|p| - 1];
      var k :| 0 <= k < |level| && level[k] == parent;
      assert Collected(fs, level[k], next);
    }
  }

  /** When a level is empty, no reachable directory is that deep or deeper. */
  lemma WalkExhausted(fs: Tree, depth: nat)
    requires forall p :: Reachable(fs, p) ==> |p| != depth
    ensures forall p :: Reachable(fs, p) ==> |p| < depth
  {
    forall p | Reachable(fs, p) ensures |p| < depth {
      if |p| >= depth {
        ReachablePrefix(fs, p, depth);
      }
    }
  }

  /**
   * The start-up walk (src/main.rs:156-177): watch `.`, then visit the tree level
   * by level. On a well-formed (finite) tree the walk terminates, and the registry
   * then holds exactly the directories reachable from the root, each under its own
   * descriptor.
   */
  method Bootstrap(fs: Tree, wdOf: Path -> Wd) returns (reg: Registry)
    requires WellFormed(fs) && Injective(wdOf)
    ensures Consistent(reg, wdOf)
    ensures forall p :: Reachable(fs, p) ==> Registered(reg, wdOf, p)
    ensures forall wd :: wd in reg ==> Reachable(fs, reg[wd])
  {
    var root: Path := Root;
    reg := map[wdOf(root) := root];
    var ready := [root];
    ghost var depth: nat := 0;
    while ready != []
      invariant forall k :: 0 <= k < |ready| ==> |ready[k]| == depth && Reachable(fs, ready[k])
      invariant forall p :: Reachable(fs, p) && |p| == depth ==> p in ready
      invariant forall p :: Reachable(fs, p) && |p| < depth ==> Registered(reg, wdOf, p)
      invariant Consistent(reg, wdOf)
      invariant forall wd :: wd in reg ==> Reachable(fs, reg[wd])
      decreases |DirsFrom(fs, depth)|
    {
      ReachableListed(fs, ready[0]);
      DirsFromShrinks(fs, depth, ready[0]);
      ghost var level := ready;
      reg, ready := WalkLevel(fs, wdOf, reg, ready, depth);
      NextLevelComplete(fs, level, ready, depth);
      forall p | Reachable(fs, p) && |p| < depth + 1 ensures Registered(reg, wdOf, p) {
        if |p| == depth {
          var k :| 0 <= k < |level| && level[k] == p;
        }
      }
      depth := depth + 1;
    }
    WalkExhausted(fs, depth);
  }
}
