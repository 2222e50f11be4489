/** Which files `main` hands to `process_dicom_files`, and how often.
    Because `find_subdirectories` lists every directory below a root, at any
    depth, and `find_dicom_files` walks each of them to the bottom again, a
    candidate file `root/d1/.../dn/f` is collected once for each of
    `root/d1`, `root/d1/d2`, ..., `root/d1/.../dn`: n times. A file directly
    in a root is collected by none of them. */
module Scheduling {
  import opened Events
  import opened Candidate
  import opened FileTree
  import opened Discovery
  import opened Driver

  /** The file paths of the groups, in the order they are uploaded. */
  function Scheduled(groups: seq<Group>): seq<Path>
  {
    if groups == [] then [] else Scheduled(groups[..|groups| - 1]) + groups[|groups| - 1].files
  }

  /** The lists, one after the other. */
  function Concat(xss: seq<seq<Path>>): seq<Path>
  {
    if xss == [] then [] else Concat(xss[..|xss| - 1]) + xss[|xss| - 1]
  }

  /** The candidates of every listed subdirectory, one list after the other. */
  function FlatFiles(fs: Tree, subs: seq<Path>): seq<Path>
  {
    Concat(CandidateLists(fs, subs))
  }

  /** The candidates in and below the directory `u` found at `q`, read off
      the tree directly: its own, then those of each subdirectory in turn. */
  function TreeFiles(q: Path, u: Tree): seq<Path>
    decreases u, |u.subdirs| + 1
  {
    JoinCandidates(q, u.files) + SubFiles(q, u, |u.subdirs|)
  }

  /** The candidates below the first `k` subdirectories of `u`. */
  function SubFiles(q: Path, u: Tree, k: nat): seq<Path>
    requires k <= |u.subdirs|
    decreases u, k
  {
    if k == 0 then []
    else SubFiles(q, u, k - 1) + TreeFiles(q + [u.subdirs[k - 1].name], u.subdirs[k - 1].tree)
  }

  /** The candidates below each subdirectory of `u`, one list per subdirectory. */
  function ChildLists(q: Path, u: Tree): (r: seq<seq<Path>>)
    ensures |r| == |u.subdirs|
  {
    seq(|u.subdirs|, i requires 0 <= i < |u.subdirs| => TreeFiles(q + [u.subdirs[i].name], u.subdirs[i].tree))
  }

  /** What the directories strictly below `t` upload between them, read off
      the tree directly: the candidates below each child of `t`, then, child
      by child, what the directories below that child upload. */
  function Nested(p: Path, t: Tree): seq<Path>
    decreases t, |t.subdirs| + 1
  {
    SubFiles(p, t, |t.subdirs|) + NestedSubs(p, t, |t.subdirs|)
  }

  function NestedSubs(p: Path, t: Tree, k: nat): seq<Path>
    requires k <= |t.subdirs|
    decreases t, k
  {
    if k == 0 then []
    else NestedSubs(p, t, k - 1) + Nested(p + [t.subdirs[k - 1].name], t.subdirs[k - 1].tree)
  }

  /** Below `t`, the directory at relative path `d` exists and lists the
      candidate file `f`. */
  predicate Holds(t: Tree, d: Path, f: string)
  {
    Lookup(t, d).Some? && f in Lookup(t, d).value.files && IsDicomFile(f)
  }

  /** The relative path `e` starts with the name of one of `subs`, and the
      rest of it leads, below that subdirectory, to the candidate `f`. */
  predicate Through(subs: seq<Sub>, e: Path, f: string)
  {
    e != [] && ChildIn(subs, e[0]).Some? && Holds(ChildIn(subs, e[0]).value, e[1..], f)
  }

  /** The same for one subdirectory. */
  predicate Passes(s: Sub, e: Path, f: string)
  {
    e != [] && e[0] == s.name && Holds(s.tree, e[1..], f)
  }

  // ---------------------------------------------------------------------
  // Concatenation

  lemma {:induction false} ScheduledAppend(a: seq<Group>, b: seq<Group>)
    ensures Scheduled(a + b) == Scheduled(a) + Scheduled(b)
    decreases |b|
  {
    if b == [] {
      assert a + b == a;
    } else {
      var n := |b| - 1;
      var ab := a + b;
      assert ab[..|ab| - 1] == a + b[..n] && ab[|ab| - 1] == b[n];
      ScheduledAppend(a, b[..n]);
      var x, y := Scheduled(a), Scheduled(b[..n]);
      assert (x + y) + b[n].files == x + (y + b[n].files);
    }
  }

  lemma {:induction false} ConcatAppend(a: seq<seq<Path>>, b: seq<seq<Path>>)
    ensures Concat(a + b) == Concat(a) + Concat(b)
    decreases |b|
  {
    if b == [] {
      assert a + b == a;
    } else {
      var n := |b| - 1;
      var ab := a + b;
      assert ab[..|ab| - 1] == a + b[..n] && ab[|ab| - 1] == b[n];
      ConcatAppend(a, b[..n]);
      var x, y := Concat(a), Concat(b[..n]);
      assert (x + y) + b[n] == x + (y + b[n]);
    }
  }

  /** The files of the groups handed over are the candidate lists one after
      the other: a subdirectory without candidates adds nothing. */
  lemma {:induction false} ScheduledGroupsOf(subs: seq<Path>, lists: seq<seq<Path>>)
    requires |lists| == |subs|
    ensures Scheduled(GroupsOf(subs, lists)) == Concat(lists)
    decreases |subs|
  {
    if subs != [] {
      var n := |subs| - 1;
      var g := if lists[n] != [] then [Group(subs[n], lists[n])] else [];
      ScheduledGroupsOf(subs[..n], lists[..n]);
      ScheduledAppend(GroupsOf(subs[..n], lists[..n]), g);
      assert Scheduled(g) == lists[n] by {
        if g != [] {
          assert g[..0] == [];
        }
      }
    }
  }

  /** The files uploaded for a list of subdirectories are their candidates,
      in order. */
  lemma ScheduledGroups(fs: Tree, subs: seq<Path>)
    ensures Scheduled(GroupsFor(fs, subs)) == FlatFiles(fs, subs)
  {
    ScheduledGroupsOf(subs, CandidateLists(fs, subs));
  }

  /** The files uploaded for several roots are those of each root, one root
      after the other. */
  lemma ScheduleLast(fs: Tree, roots: seq<Path>)
    requires roots != []
    ensures Scheduled(Schedule(fs, roots)) ==
      Scheduled(Schedule(fs, roots[..|roots| - 1])) + FlatFiles(fs, Subdirs(fs, roots[|roots| - 1]))
  {
    var r := roots[|roots| - 1];
    ScheduledAppend(Schedule(fs, roots[..|roots| - 1]), GroupsFor(fs, Subdirs(fs, r)));
    ScheduledGroups(fs, Subdirs(fs, r));
  }

  lemma FilesSubsStep(q: Path, u: Tree, k: nat)
    requires 0 < k <= |u.subdirs|
    ensures DicomPaths(WalkSubs(q, u, k)) ==
      DicomPaths(WalkSubs(q, u, k - 1)) + DicomPaths(Walk(q + [u.subdirs[k - 1].name], u.subdirs[k - 1].tree))
  {
    DicomPathsAppend(WalkSubs(q, u, k - 1), Walk(q + [u.subdirs[k - 1].name], u.subdirs[k - 1].tree));
  }

  // ---------------------------------------------------------------------
  // Looking names up

  /** A name absent from the list is not found. */
  lemma {:induction false} ChildInAbsent(subs: seq<Sub>, name: string)
    requires forall i :: 0 <= i < |subs| ==> subs[i].name != name
    ensures ChildIn(subs, name) == None
  {
    if subs != [] {
      ChildInAbsent(subs[..|subs| - 1], name);
    }
  }

  /** Looking a name up in the first `k` subdirectories, one more at a time:
      with distinct names, at most one of them can be the way through. */
  lemma ThroughStep(subs: seq<Sub>, k: nat, e: Path, f: string)
    requires DistinctNames(subs) && 0 < k <= |subs|
    ensures Through(subs[..k], e, f) == (Through(subs[..k - 1], e, f) || Passes(subs[k - 1], e, f))
    ensures !(Through(subs[..k - 1], e, f) && Passes(subs[k - 1], e, f))
  {
    assert subs[..k][..k - 1] == subs[..k - 1];
    if e != [] && subs[k - 1].name == e[0] {
      ChildInAbsent(subs[..k - 1], e[0]);
    }
  }

  lemma ThroughNone(subs: seq<Sub>, e: Path, f: string)
    ensures !Through(subs[..0], e, f)
  {
    assert subs[..0] == [];
  }

  lemma HoldsStep(u: Tree, e: Path, f: string)
    requires e != []
    ensures Holds(u, e, f) == Through(u.subdirs, e, f)
  {
  }

  // ---------------------------------------------------------------------
  // The walk-based lists equal the tree-based ones

  /** `find_dicom_files` on a directory returns its candidates directory by
      directory, as `TreeFiles` reads them off the tree. */
  lemma {:induction false} WalkFiles(q: Path, u: Tree)
    ensures DicomPaths(Walk(q, u)) == TreeFiles(q, u)
    decreases u, |u.subdirs| + 1
  {
    var top := Entry(q, Names(u.subdirs), u.files);
    DicomPathsAppend([top], WalkSubs(q, u, |u.subdirs|));
    assert DicomPaths([top]) == JoinCandidates(q, u.files) by {
      assert [top][..0] == [];
    }
    WalkSubsFiles(q, u, |u.subdirs|);
  }

  lemma {:induction false} WalkSubsFiles(q: Path, u: Tree, k: nat)
    requires k <= |u.subdirs|
    ensures DicomPaths(WalkSubs(q, u, k)) == SubFiles(q, u, k)
    decreases u, k
  {
    if k > 0 {
      FilesSubsStep(q, u, k);
      WalkSubsFiles(q, u, k - 1);
      WalkFiles(q + [u.subdirs[k - 1].name], u.subdirs[k - 1].tree);
    }
  }

  lemma {:induction false} NamesAt(subs: seq<Sub>)
    ensures |Names(subs)| == |subs| && forall i :: 0 <= i < |subs| ==> Names(subs)[i] == subs[i].name
    decreases |subs|
  {
    if subs != [] {
      NamesAt(subs[..|subs| - 1]);
    }
  }

  /** The candidates below the first `k` subdirectories, list by list. */
  lemma {:induction false} SubFilesConcat(q: Path, u: Tree, k: nat)
    requires k <= |u.subdirs|
    ensures SubFiles(q, u, k) == Concat(ChildLists(q, u)[..k])
    decreases k
  {
    var lists := ChildLists(q, u);
    if k == 0 {
      assert lists[..0] == [];
    } else {
      SubFilesConcat(q, u, k - 1);
      assert lists[..k][..k - 1] == lists[..k - 1];
    }
  }

  /** `find_dicom_files` as a function of the directory path. The driver keeps
      its own `CandidateLists`; the lemmas here work over any such function,
      which keeps their proofs small, and `ListsOfFinder` joins the two. */
  function Finder(fs: Tree): Path -> seq<Path>
  {
    dir => CandidatesAt(fs, dir)
  }

  /** `get` applied to each of `dirs`, in order. */
  function Lists(get: Path -> seq<Path>, dirs: seq<Path>): (r: seq<seq<Path>>)
    ensures |r| == |dirs|
  {
    seq(|dirs|, i requires 0 <= i < |dirs| => get(dirs[i]))
  }

  /** `get` gives, for every directory below the directory `t` at `p`, the
      candidates in and below it. */
  ghost predicate Agrees(get: Path -> seq<Path>, p: Path, t: Tree)
  {
    forall e :: Lookup(t, e).Some? ==> get(p + e) == TreeFiles(p + e, Lookup(t, e).value)
  }

  lemma ListsAppend(get: Path -> seq<Path>, a: seq<Path>, b: seq<Path>)
    ensures Lists(get, a + b) == Lists(get, a) + Lists(get, b)
  {
  }

  /** The lists of two runs of directories, one after the other. */
  lemma FlatAppend(get: Path -> seq<Path>, a: seq<Path>, b: seq<Path>)
    ensures Concat(Lists(get, a + b)) == Concat(Lists(get, a)) + Concat(Lists(get, b))
  {
    ListsAppend(get, a, b);
    ConcatAppend(Lists(get, a), Lists(get, b));
  }

  /** The subdirectories the walk of `t` lists: those right below `p`, then
      those the walks of its subdirectories list. */
  lemma WalkDirs(p: Path, t: Tree)
    ensures SubdirPaths(Walk(p, t)) == JoinAll(p, Names(t.subdirs)) + SubdirPaths(WalkSubs(p, t, |t.subdirs|))
  {
    var top := Entry(p, Names(t.subdirs), t.files);
    SubdirPathsAppend([top], WalkSubs(p, t, |t.subdirs|));
    assert SubdirPaths([top]) == JoinAll(p, Names(t.subdirs)) by {
      assert [top][..0] == [];
      assert SubdirPaths([top]) == [] + JoinAll(p, Names(t.subdirs));
    }
  }

  lemma ListsOfFinder(fs: Tree, dirs: seq<Path>)
    ensures CandidateLists(fs, dirs) == Lists(Finder(fs), dirs)
  {
  }

  /** `find_dicom_files` agrees with the tree below any directory it can find. */
  lemma FinderAgrees(fs: Tree, p: Path, t: Tree)
    requires Lookup(fs, p) == Some(t)
    ensures Agrees(Finder(fs), p, t)
  {
    forall e | Lookup(t, e).Some?
      ensures Finder(fs)(p + e) == TreeFiles(p + e, Lookup(t, e).value)
    {
      LookupSplit(fs, p, e);
      WalkFiles(p + e, Lookup(t, e).value);
    }
  }

  /** The `i`-th subdirectory of `t` is found by its name. */
  lemma LookupChild(t: Tree, i: nat)
    requires DistinctNames(t.subdirs) && i < |t.subdirs|
    ensures forall e :: Lookup(t, [t.subdirs[i].name] + e) == Lookup(t.subdirs[i].tree, e)
  {
    ChildInAt(t.subdirs, i);
    forall e ensures Lookup(t, [t.subdirs[i].name] + e) == Lookup(t.subdirs[i].tree, e) {
      var d := [t.subdirs[i].name] + e;
      assert d[0] == t.subdirs[i].name && d[1..] == e;
    }
  }

  lemma AgreesChild(get: Path -> seq<Path>, p: Path, t: Tree, i: nat)
    requires Agrees(get, p, t) && DistinctNames(t.subdirs) && i < |t.subdirs|
    ensures Agrees(get, p + [t.subdirs[i].name], t.subdirs[i].tree)
  {
    var n, c := t.subdirs[i].name, t.subdirs[i].tree;
    LookupChild(t, i);
    forall e | Lookup(c, e).Some?
      ensures get(p + [n] + e) == TreeFiles(p + [n] + e, Lookup(c, e).value)
    {
      assert Lookup(t, [n] + e) == Lookup(c, e);
      assert p + ([n] + e) == p + [n] + e;
    }
  }

  /** The candidates of the subdirectories right below `p` are, one after
      the other, those below each subdirectory. */
  lemma DirectFiles(get: Path -> seq<Path>, p: Path, t: Tree)
    requires Agrees(get, p, t) && DistinctNames(t.subdirs)
    ensures Concat(Lists(get, JoinAll(p, Names(t.subdirs)))) == SubFiles(p, t, |t.subdirs|)
  {
    var k := |t.subdirs|;
    var dirs := JoinAll(p, Names(t.subdirs));
    NamesAt(t.subdirs);
    assert Lists(get, dirs) == ChildLists(p, t) by {
      forall i | 0 <= i < k ensures Lists(get, dirs)[i] == ChildLists(p, t)[i] {
        var n := t.subdirs[i].name;
        assert dirs[i] == p + [n];
        LookupChild(t, i);
        assert Lookup(t, [n] + []) == Lookup(t.subdirs[i].tree, []);
        assert [n] + [] == [n] && p + [n] == dirs[i];
      }
    }
    SubFilesConcat(p, t, k);
    assert ChildLists(p, t)[..k] == ChildLists(p, t);
  }

  /** What `main` uploads for the subdirectories below the directory `t` at
      `p`, when `get` plays `find_dicom_files`, is what `Nested` reads off
      the tree. */
  lemma {:induction false} NestedFiles(get: Path -> seq<Path>, p: Path, t: Tree)
    requires Agrees(get, p, t) && WellFormed(t)
    ensures Concat(Lists(get, SubdirPaths(Walk(p, t)))) == Nested(p, t)
    decreases t, |t.subdirs| + 1
  {
    var k := |t.subdirs|;
    var direct := JoinAll(p, Names(t.subdirs));
    var deep := SubdirPaths(WalkSubs(p, t, k));
    WalkDirs(p, t);
    FlatAppend(get, direct, deep);
    DirectFiles(get, p, t);
    NestedSubsFiles(get, p, t, k);
  }

  lemma {:induction false} NestedSubsFiles(get: Path -> seq<Path>, p: Path, t: Tree, k: nat)
    requires Agrees(get, p, t) && WellFormed(t) && k <= |t.subdirs|
    ensures Concat(Lists(get, SubdirPaths(WalkSubs(p, t, k)))) == NestedSubs(p, t, k)
    decreases t, k
  {
    if k == 0 {
      assert Lists(get, []) == [];
    } else {
      var n := t.subdirs[k - 1].name;
      var c := t.subdirs[k - 1].tree;
      AgreesChild(get, p, t, k - 1);
      assert WellFormed(c);
      NestedFiles(get, p + [n], c);
      NestedSubsFiles(get, p, t, k - 1);
      NestedSubsStep(get, p, t, k, p + [n], c);
    }
  }

  /** One step of `NestedSubsFiles`: given the uploads below the first
      `k - 1` subtrees and below the `k`-th, those below the first `k`. */
  lemma NestedSubsStep(get: Path -> seq<Path>, p: Path, t: Tree, k: nat, q: Path, c: Tree)
    requires 0 < k <= |t.subdirs| && q == p + [t.subdirs[k - 1].name] && c == t.subdirs[k - 1].tree
    requires Concat(Lists(get, SubdirPaths(WalkSubs(p, t, k - 1)))) == NestedSubs(p, t, k - 1)
    requires Concat(Lists(get, SubdirPaths(Walk(q, c)))) == Nested(q, c)
    ensures Concat(Lists(get, SubdirPaths(WalkSubs(p, t, k)))) == NestedSubs(p, t, k)
  {
    var w, v := SubdirPaths(WalkSubs(p, t, k - 1)), SubdirPaths(Walk(q, c));
    SubdirPathsAppend(WalkSubs(p, t, k - 1), Walk(q, c));
    FlatAppend(get, w, v);
  }

  /** What `main` uploads for the subdirectories below the directory `t` at
      `p` is what `Nested` reads off the tree. */
  lemma NestedBridge(fs: Tree, p: Path, t: Tree)
    requires Lookup(fs, p) == Some(t) && WellFormed(t)
    ensures FlatFiles(fs, SubdirPaths(Walk(p, t))) == Nested(p, t)
  {
    ListsOfFinder(fs, SubdirPaths(Walk(p, t)));
    FinderAgrees(fs, p, t);
    NestedFiles(Finder(fs), p, t);
  }

  // ---------------------------------------------------------------------
  // Depth bounds

  /** A path that leaves `p` at a component other than `n`, or ends right
      below `p`, is not at least two components below `p` along `n`. */
  lemma NotBelow(p: Path, n: string, e: Path, f: string)
    requires e == [] || e[0] != n
    ensures !(p + [n] <= p + e + [f] && |p| + 2 <= |p + e + [f]|)
  {
    if e != [] {
      assert (p + e + [f])[|p|] == e[0];
    }
  }

  lemma SplitPath(q: Path, n: string, e: Path, f: string)
    requires e != [] && e[0] == n
    ensures q + e + [f] == (q + [n]) + e[1..] + [f]
  {
    assert e == [n] + e[1..];
  }

  /** Every candidate in and below `u` lies below `q`. */
  lemma TreeFilesBelow(q: Path, u: Tree)
    ensures forall y :: y in TreeFiles(q, u) ==> q <= y && |q| + 1 <= |y|
  {
    WalkFiles(q, u);
    WalkBelow(q, u);
    DicomPathsBelow(Walk(q, u), q, |q|);
  }

  /** Every candidate below a subdirectory of `u` lies two components below `q`. */
  lemma SubFilesBelow(q: Path, u: Tree, k: nat)
    requires k <= |u.subdirs|
    ensures forall y :: y in SubFiles(q, u, k) ==> q <= y && |q| + 2 <= |y|
  {
    WalkSubsFiles(q, u, k);
    WalkSubsBelow(q, u, k);
    DicomPathsBelow(WalkSubs(q, u, k), q, |q| + 1);
  }

  /** Everything uploaded for the subdirectories below `q` lies at least two
      components below `q`. */
  lemma {:induction false} NestedBelow(q: Path, t: Tree)
    ensures forall y :: y in Nested(q, t) ==> q <= y && |q| + 2 <= |y|
    decreases t, |t.subdirs| + 1
  {
    SubFilesBelow(q, t, |t.subdirs|);
    NestedSubsBelow(q, t, |t.subdirs|);
  }

  lemma {:induction false} NestedSubsBelow(q: Path, t: Tree, k: nat)
    requires k <= |t.subdirs|
    ensures forall y :: y in NestedSubs(q, t, k) ==> q <= y && |q| + 2 <= |y|
    decreases t, k
  {
    if k > 0 {
      var q' := q + [t.subdirs[k - 1].name];
      NestedSubsBelow(q, t, k - 1);
      NestedBelow(q', t.subdirs[k - 1].tree);
      forall y | y in Nested(q', t.subdirs[k - 1].tree) ensures q <= y && |q| + 2 <= |y| {
        assert y[..|q|] == q'[..|q|];
      }
    }
  }

  /** Every candidate collected from `dir` lies below `dir`. */
  lemma CandidatesBelow(fs: Tree, dir: Path)
    ensures forall y :: y in CandidatesAt(fs, dir) ==> dir <= y && |dir| + 1 <= |y|
  {
    match Lookup(fs, dir)
    case None =>
    case Some(t) =>
      WalkBelow(dir, t);
      DicomPathsBelow(Walk(dir, t), dir, |dir|);
  }

  /** An element of the concatenation comes from one of the lists. */
  lemma {:induction false} ConcatMember(xss: seq<seq<Path>>, y: Path) returns (i: nat)
    requires y in Concat(xss)
    ensures i < |xss| && y in xss[i]
    decreases |xss|
  {
    var xss' := xss[..|xss| - 1];
    if y in Concat(xss') {
      i := ConcatMember(xss', y);
      assert xss'[i] == xss[i];
    } else {
      i := |xss| - 1;
    }
  }

  lemma FlatFilesBelow(fs: Tree, subs: seq<Path>, q: Path, m: nat)
    requires forall s :: s in subs ==> q <= s && m <= |s|
    ensures forall y :: y in FlatFiles(fs, subs) ==> q <= y && m + 1 <= |y|
  {
    forall y | y in FlatFiles(fs, subs) ensures q <= y && m + 1 <= |y| {
      var i := ConcatMember(CandidateLists(fs, subs), y);
      CandidatesBelow(fs, subs[i]);
      assert y[..|q|] == subs[i][..|q|];
    }
  }

  /** Everything uploaded for a root lies at least two components below it. */
  lemma RootBelow(fs: Tree, r: Path)
    ensures forall y :: y in FlatFiles(fs, Subdirs(fs, r)) ==> r <= y && |r| + 2 <= |y|
  {
    match Lookup(fs, r)
    case None =>
    case Some(t) =>
      WalkBelow(r, t);
      SubdirPathsBelow(Walk(r, t), r, |r|);
      FlatFilesBelow(fs, SubdirPaths(Walk(r, t)), r, |r| + 1);
  }

  // ---------------------------------------------------------------------
  // Counting

  /** Walking a well-formed directory collects a candidate file exactly once
      when it is there, and not at all otherwise. */
  lemma {:induction false} FilesCount(q: Path, u: Tree, e: Path, f: string)
    requires WellFormed(u)
    ensures multiset(TreeFiles(q, u))[q + e + [f]] == if Holds(u, e, f) then 1 else 0
    decreases u, |u.subdirs| + 1, 0
  {
    var k := |u.subdirs|;
    FilesSubsCount(q, u, k, e, f);
    assert u.subdirs[..k] == u.subdirs;
    if e == [] {
      assert q + e + [f] == q + [f];
      JoinCandidatesCount(q, u.files, f);
    } else {
      forall y | y in JoinCandidates(q, u.files) ensures |y| == |q| + 1 {
        JoinCandidatesShape(q, u.files, y);
      }
      HoldsStep(u, e, f);
    }
  }

  lemma {:induction false} FilesSubsCount(q: Path, u: Tree, k: nat, e: Path, f: string)
    requires WellFormed(u) && k <= |u.subdirs|
    ensures multiset(SubFiles(q, u, k))[q + e + [f]] == if Through(u.subdirs[..k], e, f) then 1 else 0
    decreases u, k, 1
  {
    if k > 0 {
      var x := q + e + [f];
      var before := SubFiles(q, u, k - 1);
      var here := TreeFiles(q + [u.subdirs[k - 1].name], u.subdirs[k - 1].tree);
      FilesSubsCount(q, u, k - 1, e, f);
      ChildFilesCount(q, u, k, e, f);
      assert multiset(SubFiles(q, u, k))[x] == multiset(before)[x] + multiset(here)[x];
      ThroughStep(u.subdirs, k, e, f);
    } else {
      ThroughNone(u.subdirs, e, f);
    }
  }

  /** The `k`-th subdirectory contributes the file once when the path goes
      through it and the file is there. */
  lemma {:induction false} ChildFilesCount(q: Path, u: Tree, k: nat, e: Path, f: string)
    requires WellFormed(u) && 0 < k <= |u.subdirs|
    ensures multiset(TreeFiles(q + [u.subdirs[k - 1].name], u.subdirs[k - 1].tree))[q + e + [f]] ==
      if Passes(u.subdirs[k - 1], e, f) then 1 else 0
    decreases u, k, 0
  {
    var n := u.subdirs[k - 1].name;
    var c := u.subdirs[k - 1].tree;
    assert WellFormed(c);
    if e != [] && e[0] == n {
      SplitPath(q, n, e, f);
      FilesCount(q + [n], c, e[1..], f);
    } else {
      var x := q + e + [f];
      TreeFilesBelow(q + [n], c);
      NotBelow(q, n, e, f);
      assert x !in TreeFiles(q + [n], c);
      assert !Passes(u.subdirs[k - 1], e, f);
    }
  }

  /** Below the directory `t` at `p`, a candidate file at `p + e` is uploaded
      once for each directory on the way down to it, |e| times in all. */
  lemma {:induction false} NestedCount(p: Path, t: Tree, e: Path, f: string)
    requires WellFormed(t)
    ensures multiset(Nested(p, t))[p + e + [f]] == if Holds(t, e, f) then |e| else 0
    decreases t, |t.subdirs| + 1, 0
  {
    var k := |t.subdirs|;
    FilesSubsCount(p, t, k, e, f);
    DeepCount(p, t, k, e, f);
    assert t.subdirs[..k] == t.subdirs;
    if e != [] {
      HoldsStep(t, e, f);
    }
  }

  lemma {:induction false} DeepCount(p: Path, t: Tree, k: nat, e: Path, f: string)
    requires WellFormed(t) && k <= |t.subdirs|
    ensures multiset(NestedSubs(p, t, k))[p + e + [f]] == if Through(t.subdirs[..k], e, f) then |e| - 1 else 0
    decreases t, k, 1
  {
    if k > 0 {
      var x := p + e + [f];
      var before := NestedSubs(p, t, k - 1);
      var here := Nested(p + [t.subdirs[k - 1].name], t.subdirs[k - 1].tree);
      DeepCount(p, t, k - 1, e, f);
      ChildNestedCount(p, t, k, e, f);
      assert multiset(NestedSubs(p, t, k))[x] == multiset(before)[x] + multiset(here)[x];
      ThroughStep(t.subdirs, k, e, f);
    } else {
      ThroughNone(t.subdirs, e, f);
    }
  }

  /** The directories below the `k`-th subdirectory upload the file once per
      level when the path goes through that subdirectory. */
  lemma {:induction false} ChildNestedCount(p: Path, t: Tree, k: nat, e: Path, f: string)
    requires WellFormed(t) && 0 < k <= |t.subdirs|
    ensures multiset(Nested(p + [t.subdirs[k - 1].name], t.subdirs[k - 1].tree))[p + e + [f]] ==
      if Passes(t.subdirs[k - 1], e, f) then |e| - 1 else 0
    decreases t, k, 0
  {
    var n := t.subdirs[k - 1].name;
    var c := t.subdirs[k - 1].tree;
    assert WellFormed(c);
    if e != [] && e[0] == n {
      SplitPath(p, n, e, f);
      NestedCount(p + [n], c, e[1..], f);
    } else {
      var x := p + e + [f];
      NestedBelow(p + [n], c);
      NotBelow(p, n, e, f);
      assert x !in Nested(p + [n], c);
      assert !Passes(t.subdirs[k - 1], e, f);
    }
  }

  // ---------------------------------------------------------------------
  // What `main` uploads

  /** For one chosen root of a well-formed file system: the file `root + e +
      [f]` is uploaded exactly |e| times when the directory `root + e`
      exists and lists the candidate `f`, and never otherwise. */
  lemma ScheduledCount(fs: Tree, root: Path, e: Path, f: string)
    requires WellFormed(fs) && Lookup(fs, root).Some?
    ensures multiset(Scheduled(Schedule(fs, [root])))[root + e + [f]] ==
      if Holds(Lookup(fs, root).value, e, f) then |e| else 0
  {
    var t := Lookup(fs, root).value;
    LookupWellFormed(fs, root);
    assert [root][..0] == [];
    ScheduleLast(fs, [root]);
    NestedBridge(fs, root, t);
    NestedCount(root, t, e, f);
  }

  /** A candidate file n directories below a chosen root is uploaded n times. */
  lemma ScheduledTimes(fs: Tree, root: Path, d: Path, f: string)
    requires WellFormed(fs)
    requires Lookup(fs, root + d).Some? && f in Lookup(fs, root + d).value.files && IsDicomFile(f)
    ensures multiset(Scheduled(Schedule(fs, [root])))[root + d + [f]] == |d|
  {
    LookupSplit(fs, root, d);
    assert Lookup(fs, root).Some?;
    ScheduledCount(fs, root, d, f);
  }

  /** What is uploaded for each root, root by root. */
  function RootLists(fs: Tree, roots: seq<Path>): (r: seq<seq<Path>>)
    ensures |r| == |roots|
  {
    seq(|roots|, i requires 0 <= i < |roots| => FlatFiles(fs, Subdirs(fs, roots[i])))
  }

  lemma RootListsLast(fs: Tree, roots: seq<Path>)
    requires roots != []
    ensures RootLists(fs, roots) ==
      RootLists(fs, roots[..|roots| - 1]) + [FlatFiles(fs, Subdirs(fs, roots[|roots| - 1]))]
  {
    var roots' := roots[..|roots| - 1];
    forall i | 0 <= i < |roots'| ensures RootLists(fs, roots)[i] == RootLists(fs, roots')[i] {
      assert roots'[i] == roots[i];
    }
  }

  /** The files uploaded for several roots are those of each root, in the
      order the roots were chosen. */
  lemma {:induction false} ScheduleByRoot(fs: Tree, roots: seq<Path>)
    ensures Scheduled(Schedule(fs, roots)) == Concat(RootLists(fs, roots))
    decreases |roots|
  {
    if roots != [] {
      var roots' := roots[..|roots| - 1];
      var last := FlatFiles(fs, Subdirs(fs, roots[|roots| - 1]));
      var lists, lists' := RootLists(fs, roots), RootLists(fs, roots');
      assert Scheduled(Schedule(fs, roots)) == Scheduled(Schedule(fs, roots')) + last by {
        ScheduleLast(fs, roots);
      }
      assert Scheduled(Schedule(fs, roots')) == Concat(lists') by {
        ScheduleByRoot(fs, roots');
      }
      assert Concat(lists) == Concat(lists') + last by {
        RootListsLast(fs, roots);
        ConcatAppend(lists', [last]);
        assert [last][..0] == [];
        assert Concat([last]) == Concat([]) + last;
      }
    }
  }

  /** Every uploaded file lies at least two components below one of the
      chosen roots. */
  lemma ScheduledDepth(fs: Tree, roots: seq<Path>, y: Path) returns (i: nat)
    requires y in Scheduled(Schedule(fs, roots))
    ensures i < |roots| && roots[i] <= y && |roots[i]| + 2 <= |y|
  {
    ScheduleByRoot(fs, roots);
    i := ConcatMember(RootLists(fs, roots), y);
    RootBelow(fs, roots[i]);
  }

  lemma PrefixOfExtension(a: Path, r: Path, f: string)
    ensures a <= r + [f] && |a| <= |r| ==> a <= r
  {
    if a <= r + [f] && |a| <= |r| {
      assert a == (r + [f])[..|a|] == r[..|a|];
    }
  }

  /** Files directly in a chosen root are never uploaded, unless another
      chosen root is an ancestor of it. */
  lemma RootFilesNeverScheduled(fs: Tree, roots: seq<Path>, r: Path, f: string)
    requires forall j :: 0 <= j < |roots| ==> !(roots[j] < r)
    ensures r + [f] !in Scheduled(Schedule(fs, roots))
  {
    if r + [f] in Scheduled(Schedule(fs, roots)) {
      var i := ScheduledDepth(fs, roots, r + [f]);
      PrefixOfExtension(roots[i], r, f);
      assert false;
    }
  }
}
