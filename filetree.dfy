/** The file system as an abstract directory tree, and `os.walk` over it.
    `os.walk(top)` (used at migrate.py:62 and migrate.py:71) yields, top-down,
    one `(dirpath, dirnames, filenames)` triple for `top` and then, for each
    name in `dirnames` in order, the triples of that subdirectory. A path that
    does not name a directory yields nothing. */
module FileTree {
  import opened Events

  datatype Tree = Dir(files: seq<string>, subdirs: seq<Sub>)
  datatype Sub = Sub(name: string, tree: Tree)

  /** One triple yielded by the walk. */
  datatype Entry = Entry(dirpath: Path, dirnames: seq<string>, filenames: seq<string>)

  /** The names of the subdirectories, in listing order. */
  function Names(subs: seq<Sub>): seq<string>
  {
    if subs == [] then [] else Names(subs[..|subs| - 1]) + [subs[|subs| - 1].name]
  }

  predicate DistinctNames(subs: seq<Sub>)
  {
    forall i, j :: 0 <= i < j < |subs| ==> subs[i].name != subs[j].name
  }

  predicate DistinctFiles(files: seq<string>)
  {
    forall i, j :: 0 <= i < j < |files| ==> files[i] != files[j]
  }

  /** A real directory never lists the same name twice. */
  predicate WellFormed(t: Tree)
    decreases t
  {
    && DistinctNames(t.subdirs)
    && DistinctFiles(t.files)
    && forall i :: 0 <= i < |t.subdirs| ==> WellFormed(t.subdirs[i].tree)
  }

  /** The subdirectory called `name` among `subs`. */
  function ChildIn(subs: seq<Sub>, name: string): Option<Tree>
  {
    if subs == [] then None
    else if subs[|subs| - 1].name == name then Some(subs[|subs| - 1].tree)
    else ChildIn(subs[..|subs| - 1], name)
  }

  datatype Option<T> = None | Some(value: T)

  /** The directory that `p` names, relative to `t`. */
  function Lookup(t: Tree, p: Path): Option<Tree>
    decreases |p|
  {
    if p == [] then Some(t)
    else match ChildIn(t.subdirs, p[0])
      case None => None
      case Some(c) => Lookup(c, p[1..])
  }

  /** The top-down walk of the directory `t`, found at path `p`. */
  function Walk(p: Path, t: Tree): seq<Entry>
    decreases t, |t.subdirs| + 1
  {
    [Entry(p, Names(t.subdirs), t.files)] + WalkSubs(p, t, |t.subdirs|)
  }

  /** The walks of the first `k` subdirectories of `t`, one after the other. */
  function WalkSubs(p: Path, t: Tree, k: nat): seq<Entry>
    requires k <= |t.subdirs|
    decreases t, k
  {
    if k == 0 then []
    else WalkSubs(p, t, k - 1) + Walk(p + [t.subdirs[k - 1].name], t.subdirs[k - 1].tree)
  }

  /** `os.walk(p)` on the file system `fs`. */
  function OsWalk(fs: Tree, p: Path): seq<Entry>
  {
    match Lookup(fs, p)
    case None => []
    case Some(t) => Walk(p, t)
  }

  /** With distinct names, the child at position `i` is the one found by name. */
  lemma {:induction false} ChildInAt(subs: seq<Sub>, i: nat)
    requires DistinctNames(subs) && i < |subs|
    ensures ChildIn(subs, subs[i].name) == Some(subs[i].tree)
  {
    var n := |subs|;
    if i < n - 1 {
      assert subs[n - 1].name != subs[i].name;
      ChildInAt(subs[..n - 1], i);
    }
  }

  /** Descending one more name from a directory found by path. */
  lemma {:induction false} LookupAppend(fs: Tree, p: Path, name: string)
    ensures Lookup(fs, p + [name]) ==
      match Lookup(fs, p)
      case None => None
      case Some(t) => ChildIn(t.subdirs, name)
    decreases |p|
  {
    if p == [] {
      assert [name][1..] == [];
    } else {
      assert (p + [name])[0] == p[0] && (p + [name])[1..] == p[1..] + [name];
      match ChildIn(fs.subdirs, p[0])
      case None =>
      case Some(c) => LookupAppend(c, p[1..], name);
    }
  }

  /** A path through a directory found by path splits into its two halves. */
  lemma {:induction false} LookupSplit(fs: Tree, p: Path, d: Path)
    ensures Lookup(fs, p + d) ==
      match Lookup(fs, p)
      case None => None
      case Some(t) => Lookup(t, d)
    decreases |p|
  {
    if p == [] {
      assert p + d == d;
    } else {
      assert (p + d)[0] == p[0] && (p + d)[1..] == p[1..] + d;
      match ChildIn(fs.subdirs, p[0])
      case None =>
      case Some(c) => LookupSplit(c, p[1..], d);
    }
  }

  /** A directory found by name is one of the listed subdirectories. */
  lemma {:induction false} ChildInFound(subs: seq<Sub>, name: string) returns (i: nat)
    requires ChildIn(subs, name).Some?
    ensures i < |subs| && subs[i].name == name && subs[i].tree == ChildIn(subs, name).value
  {
    if subs[|subs| - 1].name == name {
      i := |subs| - 1;
    } else {
      i := ChildInFound(subs[..|subs| - 1], name);
    }
  }

  /** Every directory of a well-formed tree is well-formed. */
  lemma {:induction false} LookupWellFormed(t: Tree, p: Path)
    requires WellFormed(t)
    ensures Lookup(t, p).Some? ==> WellFormed(Lookup(t, p).value)
    decreases |p|
  {
    if p != [] {
      match ChildIn(t.subdirs, p[0])
      case None =>
      case Some(c) =>
        var i := ChildInFound(t.subdirs, p[0]);
        LookupWellFormed(c, p[1..]);
    }
  }

  /** Every triple of the walk of `p` lies at or below `p`. */
  lemma {:induction false} WalkBelow(p: Path, t: Tree)
    ensures forall e :: e in Walk(p, t) ==> p <= e.dirpath
    decreases t, |t.subdirs| + 1
  {
    WalkSubsBelow(p, t, |t.subdirs|);
  }

  /** Every triple of the walk of a subdirectory lies strictly below `p`. */
  lemma {:induction false} WalkSubsBelow(p: Path, t: Tree, k: nat)
    requires k <= |t.subdirs|
    ensures forall e :: e in WalkSubs(p, t, k) ==> p <= e.dirpath && |p| < |e.dirpath|
    decreases t, k
  {
    if k > 0 {
      var q := p + [t.subdirs[k - 1].name];
      WalkSubsBelow(p, t, k - 1);
      WalkBelow(q, t.subdirs[k - 1].tree);
      forall e | e in Walk(q, t.subdirs[k - 1].tree)
        ensures p <= e.dirpath && |p| < |e.dirpath|
      {
        assert q <= e.dirpath;
        assert e.dirpath[..|p|] == q[..|p|] == p;
      }
    }
  }
}
