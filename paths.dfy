/**
 * Paths as the synchronizer builds them. The working directory is the watched
 * root, the root is the path `.`, and every other path is `.` followed by the
 * names pushed onto it (`PathBuf::push` of a bare name, or `DirEntry::path`).
 * A path is therefore modelled as the sequence of its components after `.`.
 *
 * A component is an OS string: a run of decoded characters and, possibly, bytes
 * that are not valid UTF-8, in which case `Path::to_str` has no answer.
 */
module Paths {
  import opened Wrappers
  import Text

  /**
   * A decoded character, or a byte that stands for input that is not valid UTF-8.
   * The type does not restrict which byte value a `RawByte` holds: a component
   * is taken to be non-UTF-8 as soon as it holds any `RawByte`, so a well-formed
   * byte such as `RawByte(0x41)` is never meant to appear.
   */
  datatype Unit = Scalar(c: char) | RawByte(b: bv8)

  type Component = seq<Unit>

  type Path = seq<Component>

  /** The root path `.`. */
  const Root: Path := []

  /** The component that a `String` name becomes when it is pushed onto a path. */
  function FromName(name: string): Component {
    seq(|name|, i requires 0 <= i < |name| => Scalar(name[i]))
  }

  /** `OsStr::to_str` of one component: its text when every unit is a decoded character. */
  function ComponentText(c: Component): (r: Option<string>)
    ensures r.Some? <==> forall i :: 0 <= i < |c| ==> c[i].Scalar?
    ensures r.Some? ==> |r.value| == |c| && forall i :: 0 <= i < |c| ==> c[i] == Scalar(r.value[i])
    decreases |c|
  {
    if c == [] then Some([])
    else match c[0]
      case RawByte(_) => None
      case Scalar(ch) =>
        match ComponentText(c[1..])
        case None => None
        case Some(rest) => Some([ch] + rest)
  }

  /** The texts of all components, when each has one. */
  function Texts(p: Path): (r: Option<seq<string>>)
    ensures r.Some? <==> forall i :: 0 <= i < |p| ==> ComponentText(p[i]).Some?
    ensures r.Some? ==> |r.value| == |p| && forall i :: 0 <= i < |p| ==> ComponentText(p[i]) == Some(r.value[i])
    decreases |p|
  {
    if p == [] then Some([])
    else match ComponentText(p[0])
      case None => None
      case Some(t) =>
        match Texts(p[1..])
        case None => None
        case Some(ts) => Some([t] + ts)
  }

  /** `Path::to_str` of `./c1/c2/...`: `None` exactly when some component is not valid UTF-8. */
  function Render(p: Path): (r: Option<string>)
    ensures r.Some? <==> forall i :: 0 <= i < |p| ==> ComponentText(p[i]).Some?
  {
    match Texts(p)
    case None => None
    case Some(ts) => Some(Text.Join('/', ["."] + ts))
  }

  /** No unit of any component is the character `c`. */
  predicate Avoids(p: Path, c: char) {
    forall i, j :: 0 <= i < |p| && 0 <= j < |p[i]| ==> p[i][j] != Scalar(c)
  }

  /** A name pushed onto a path reads back as itself. */
  lemma {:induction false} NameRoundTrip(name: string)
    ensures ComponentText(FromName(name)) == Some(name)
  {
    var r := ComponentText(FromName(name));
    assert r.Some?;
    assert r.value == name;
  }

  lemma {:induction false} ComponentTextInjective(a: Component, b: Component)
    requires ComponentText(a).Some? && ComponentText(a) == ComponentText(b)
    ensures a == b
  {
    var t := ComponentText(a).value;
    assert |a| == |t| == |b|;
    forall i | 0 <= i < |a| ensures a[i] == b[i] {
      assert a[i] == Scalar(t[i]) == b[i];
    }
  }

  lemma {:induction false} TextsAvoid(p: Path, c: char)
    requires Avoids(p, c) && Texts(p).Some?
    ensures Text.Free(c, Texts(p).value)
  {
    var ts := Texts(p).value;
    forall k | 0 <= k < |ts| ensures c !in ts[k] {
      var t := ComponentText(p[k]).value;
      assert t == ts[k];
      forall j | 0 <= j < |t| ensures t[j] != c {
        assert p[k][j] == Scalar(t[j]);
      }
    }
  }

  /**
   * A rendered path splits at `/` into `.` followed by the component texts, when
   * no component contains `/`.
   */
  lemma {:induction false} RenderSplits(p: Path)
    requires Render(p).Some? && Avoids(p, '/')
    ensures Text.SplitOn('/', Render(p).value) == ["."] + Texts(p).value
  {
    var ts := Texts(p).value;
    TextsAvoid(p, '/');
    assert Text.Free('/', ["."] + ts) by {
      forall k | 0 <= k < |["."] + ts| ensures '/' !in (["."] + ts)[k] {
        if k > 0 { assert (["."] + ts)[k] == ts[k - 1]; }
      }
    }
    Text.SplitOnJoin('/', ["."] + ts);
  }

  /**
   * `to_str` loses nothing: two slash-free paths with the same text are the same
   * path, so distinct transfer-queue entries give distinct lines of the file list.
   */
  lemma {:induction false} RenderInjective(p: Path, q: Path)
    requires Avoids(p, '/') && Avoids(q, '/')
    requires Render(p).Some? && Render(p) == Render(q)
    ensures p == q
  {
    RenderSplits(p);
    RenderSplits(q);
    var tp, tq := Texts(p).value, Texts(q).value;
    assert ["."] + tp == ["."] + tq;
    assert tp == (["."] + tp)[1..] == (["."] + tq)[1..] == tq;
    forall i | 0 <= i < |p| ensures p[i] == q[i] {
      ComponentTextInjective(p[i], q[i]);
    }
  }

  /** A rendered path never contains a character that no component contains, other than `.` and `/`. */
  lemma {:induction false} RenderAvoids(p: Path, c: char)
    requires Render(p).Some? && Avoids(p, c) && c != '/' && c != '.'
    ensures c !in Render(p).value
  {
    var ts := Texts(p).value;
    TextsAvoid(p, c);
    assert Text.Free(c, ["."] + ts) by {
      forall k | 0 <= k < |["."] + ts| ensures c !in (["."] + ts)[k] {
        if k > 0 { assert (["."] + ts)[k] == ts[k - 1]; }
      }
    }
    Text.JoinFree('/', c, ["."] + ts);
  }

  // ---------------------------------------------------------------------------
  // The directory tree, as `fs::read_dir` and `fs::metadata(..).is_dir()` see it.

  /** One entry of a directory listing: its name and whether it is a directory. */
  datatype Entry = Entry(name: Component, isDir: bool)

  /** A snapshot of the tree: the listing of every existing directory, keyed by its path. */
  datatype Tree = Tree(listing: map<Path, seq<Entry>>)

  /**
   * The root exists, and every entry a listing marks as a directory is itself a
   * listed directory. (A finite map rules out symlink cycles.)
   */
  predicate WellFormed(t: Tree) {
    && Root in t.listing
    && forall p, i :: p in t.listing && 0 <= i < |t.listing[p]| && t.listing[p][i].isDir ==>
         p + [t.listing[p][i].name] in t.listing
  }

  /** `p` is reached from the root by descending through directory entries. */
  ghost predicate Reachable(t: Tree, p: Path)
    decreases |p|
  {
    p == Root ||
    (var parent := p[..|p| - 1];
     && Reachable(t, parent)
     && parent in t.listing
     && Entry(p[|p| - 1], true) in t.listing[parent])
  }

  /** In a well-formed tree every reachable path is a listed directory. */
  lemma {:induction false} ReachableListed(t: Tree, p: Path)
    requires WellFormed(t) && Reachable(t, p)
    ensures p in t.listing
  {
    if p != Root {
      var parent := p[..|p| - 1];
      var i :| 0 <= i < |t.listing[parent]| && t.listing[parent][i] == Entry(p[|p| - 1], true);
      assert parent + [p[|p| - 1]] == p;
    }
  }

  /** Every prefix of a reachable path is reachable. */
  lemma {:induction false} ReachablePrefix(t: Tree, p: Path, k: nat)
    requires Reachable(t, p) && k <= |p|
    ensures Reachable(t, p[..k])
    decreases |p|
  {
    if k < |p| {
      var parent := p[..|p| - 1];
      ReachablePrefix(t, parent, k);
      assert parent[..k] == p[..k];
    } else {
      assert p[..k] == p;
    }
  }

  /** A directory entry of a reachable directory is reachable. */
  lemma ReachableChild(t: Tree, p: Path, i: int)
    requires Reachable(t, p) && p in t.listing
    requires 0 <= i < |t.listing[p]| && t.listing[p][i].isDir
    ensures Reachable(t, p + [t.listing[p][i].name])
  {
    var c := p + [t.listing[p][i].name];
    assert c[..|c| - 1] == p;
    assert t.listing[p][i] == Entry(c[|c| - 1], true);
  }
}
