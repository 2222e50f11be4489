/** The driving loop of `main` (migrate.py:27-50, the loop at lines 38-48):
    for each chosen root, in order, collect its subdirectories; for each
    subdirectory, in order, collect its candidate files and, when there are
    some, hand them to `process_dicom_files` and wait for that group to finish
    before the next subdirectory. */
module Driver {
  import opened Events
  import opened FileTree
  import opened Discovery

  /** One call of `process_dicom_files`: a subdirectory and its candidates. */
  datatype Group = Group(dir: Path, files: seq<Path>)

  /** What `find_subdirectories(root)` returns. */
  function Subdirs(fs: Tree, root: Path): seq<Path>
  {
    SubdirPaths(OsWalk(fs, root))
  }

  /** What `find_dicom_files(dir)` returns. */
  function CandidatesAt(fs: Tree, dir: Path): seq<Path>
  {
    DicomPaths(OsWalk(fs, dir))
  }

  /** What `find_dicom_files` returns for each of `subs`, in order. */
  function CandidateLists(fs: Tree, subs: seq<Path>): (r: seq<seq<Path>>)
    ensures |r| == |subs|
  {
    seq(|subs|, i requires 0 <= i < |subs| => CandidatesAt(fs, subs[i]))
  }

  /** The groups handed over for the subdirectories `subs`, whose candidate
      lists are `lists`: one per subdirectory with candidates, in order. */
  function GroupsOf(subs: seq<Path>, lists: seq<seq<Path>>): seq<Group>
    requires |lists| == |subs|
  {
    if subs == [] then []
    else
      var n := |subs| - 1;
      GroupsOf(subs[..n], lists[..n]) + (if lists[n] != [] then [Group(subs[n], lists[n])] else [])
  }

  /** The groups scheduled for a list of subdirectories, in order. */
  function GroupsFor(fs: Tree, subs: seq<Path>): seq<Group>
  {
    GroupsOf(subs, CandidateLists(fs, subs))
  }

  /** The groups scheduled for a list of roots, in order. */
  function Schedule(fs: Tree, roots: seq<Path>): seq<Group>
  {
    if roots == [] then []
    else Schedule(fs, roots[..|roots| - 1]) + GroupsFor(fs, Subdirs(fs, roots[|roots| - 1]))
  }

  /** The log lines of the inner loop over subdirectories. */
  function SubsLog(fs: Tree, subs: seq<Path>): seq<Event>
  {
    if subs == [] then []
    else
      var s := subs[|subs| - 1];
      var files := CandidatesAt(fs, s);
      SubsLog(fs, subs[..|subs| - 1]) + FileLog(files)
      + [InfoEvent(if files != [] then FilesFound(|files|, s) else NoFilesFound(s))]
  }

  /** The log lines of the outer loop over roots. */
  function RootsLog(fs: Tree, roots: seq<Path>): seq<Event>
  {
    if roots == [] then []
    else
      var r := roots[|roots| - 1];
      RootsLog(fs, roots[..|roots| - 1]) + [InfoEvent(SearchingRoot(r))]
      + DirLog(Subdirs(fs, r)) + SubsLog(fs, Subdirs(fs, r))
  }

  function DriverLog(fs: Tree, roots: seq<Path>): seq<Event>
  {
    if roots == [] then [InfoEvent(NoFolderSelected)]
    else RootsLog(fs, roots) + [InfoEvent(AllProcessed)]
  }

  /** `main` after the folder choice: the groups handed to
      `process_dicom_files`, in the order they are processed, and the
      progress-log lines of discovery. */
  method RunMigration(fs: Tree, roots: seq<Path>) returns (groups: seq<Group>, log: seq<Event>)
    ensures groups == Schedule(fs, roots)
    ensures log == DriverLog(fs, roots)
  {
    if roots == [] {
      return [], [InfoEvent(NoFolderSelected)];
    }
    groups, log := [], [];
    var i := 0;
    while i < |roots|
      invariant 0 <= i <= |roots|
      invariant groups == Schedule(fs, roots[..i])
      invariant log == RootsLog(fs, roots[..i])
    {
      var root := roots[i];
      log := log + [InfoEvent(SearchingRoot(root))];
      var subdirectories, dirLog := FindSubdirectories(fs, root);
      log := log + dirLog;
      var rootGroups, subsLog := ProcessSubdirectories(fs, subdirectories);
      groups, log := groups + rootGroups, log + subsLog;
      OuterStep(fs, roots, i);
      i := i + 1;
    }
    assert roots[..i] == roots;
    log := log + [InfoEvent(AllProcessed)];
  }

  lemma OuterStep(fs: Tree, roots: seq<Path>, i: nat)
    requires i < |roots|
    ensures var subs := Subdirs(fs, roots[i]);
      && Schedule(fs, roots[..i + 1]) == Schedule(fs, roots[..i]) + GroupsFor(fs, subs)
      && RootsLog(fs, roots[..i + 1]) == RootsLog(fs, roots[..i]) + [InfoEvent(SearchingRoot(roots[i]))]
           + DirLog(subs) + SubsLog(fs, subs)
  {
    assert roots[..i + 1][..i] == roots[..i];
  }

  /** The inner loop of `main` over the subdirectories of one root, in order:
      each is either handed over as a group or reported as empty. */
  method ProcessSubdirectories(fs: Tree, subdirectories: seq<Path>) returns (groups: seq<Group>, log: seq<Event>)
    ensures groups == GroupsFor(fs, subdirectories)
    ensures log == SubsLog(fs, subdirectories)
  {
    groups, log := [], [];
    var j := 0;
    while j < |subdirectories|
      invariant 0 <= j <= |subdirectories|
      invariant groups == GroupsFor(fs, subdirectories[..j])
      invariant log == SubsLog(fs, subdirectories[..j])
    {
      var subdirectory := subdirectories[j];
      var dicomFiles, fileLog := FindDicomFiles(fs, subdirectory);
      log := log + fileLog;
      if dicomFiles != [] {
        log := log + [InfoEvent(FilesFound(|dicomFiles|, subdirectory))];
        groups := groups + [Group(subdirectory, dicomFiles)];
      } else {
        log := log + [InfoEvent(NoFilesFound(subdirectory))];
      }
      InnerStep(fs, subdirectories, j);
      j := j + 1;
    }
    assert subdirectories[..j] == subdirectories;
  }

  lemma InnerStep(fs: Tree, subs: seq<Path>, j: nat)
    requires j < |subs|
    ensures var files := CandidatesAt(fs, subs[j]);
      && GroupsFor(fs, subs[..j + 1]) == GroupsFor(fs, subs[..j]) + (if files != [] then [Group(subs[j], files)] else [])
      && SubsLog(fs, subs[..j + 1]) == SubsLog(fs, subs[..j]) + FileLog(files)
           + [InfoEvent(if files != [] then FilesFound(|files|, subs[j]) else NoFilesFound(subs[j]))]
  {
    var lists := CandidateLists(fs, subs[..j + 1]);
    assert subs[..j + 1][..j] == subs[..j];
    assert lists[..j] == CandidateLists(fs, subs[..j]);
    assert lists[j] == CandidatesAt(fs, subs[j]);
  }

  /** Every group handed over is one of the subdirectories together with
      its candidate list, which is not empty. */
  lemma {:induction false} GroupsOfNonEmpty(subs: seq<Path>, lists: seq<seq<Path>>)
    requires |lists| == |subs|
    ensures forall g :: g in GroupsOf(subs, lists) ==>
      g.files != [] && exists i :: 0 <= i < |subs| && g == Group(subs[i], lists[i])
    decreases |subs|
  {
    if subs != [] {
      var n := |subs| - 1;
      GroupsOfNonEmpty(subs[..n], lists[..n]);
      forall g | g in GroupsOf(subs[..n], lists[..n])
        ensures exists i :: 0 <= i < |subs| && g == Group(subs[i], lists[i])
      {
        var i :| 0 <= i < n && g == Group(subs[..n][i], lists[..n][i]);
        assert g == Group(subs[i], lists[i]);
      }
    }
  }

  /** Every scheduled group is a subdirectory with at least one candidate,
      carrying exactly what `find_dicom_files` returns for it. */
  lemma GroupsForNonEmpty(fs: Tree, subs: seq<Path>)
    ensures forall g :: g in GroupsFor(fs, subs) ==> g.dir in subs && g.files != [] && g.files == CandidatesAt(fs, g.dir)
  {
    var lists := CandidateLists(fs, subs);
    GroupsOfNonEmpty(subs, lists);
    forall g | g in GroupsFor(fs, subs) ensures g.dir in subs && g.files == CandidatesAt(fs, g.dir) {
      var i :| 0 <= i < |subs| && g == Group(subs[i], lists[i]);
    }
  }

  /** A subdirectory is handed over exactly when its candidate list is not empty. */
  lemma {:induction false} GroupsOfExactly(subs: seq<Path>, lists: seq<seq<Path>>, s: Path)
    requires |lists| == |subs|
    ensures (exists g :: g in GroupsOf(subs, lists) && g.dir == s) <==>
      exists i :: 0 <= i < |subs| && subs[i] == s && lists[i] != []
    decreases |subs|
  {
    if subs != [] {
      var n := |subs| - 1;
      var subs', lists' := subs[..n], lists[..n];
      GroupsOfExactly(subs', lists', s);
      var groups, groups' := GroupsOf(subs, lists), GroupsOf(subs', lists');
      if exists i :: 0 <= i < |subs| && subs[i] == s && lists[i] != [] {
        var i :| 0 <= i < |subs| && subs[i] == s && lists[i] != [];
        if i == n {
          assert Group(s, lists[n]) in groups;
        } else {
          assert subs'[i] == s && lists'[i] != [];
          var g :| g in groups' && g.dir == s;
          assert g in groups;
        }
      }
      if exists g :: g in groups && g.dir == s {
        var g :| g in groups && g.dir == s;
        if g in groups' {
          var i :| 0 <= i < |subs'| && subs'[i] == s && lists'[i] != [];
          assert subs[i] == s && lists[i] != [];
        } else {
          assert subs[n] == s && lists[n] != [];
        }
      }
    }
  }

  /** A subdirectory is scheduled exactly when it has candidates. */
  lemma GroupsForExactly(fs: Tree, subs: seq<Path>, s: Path)
    ensures (exists g :: g in GroupsFor(fs, subs) && g.dir == s) <==> s in subs && CandidatesAt(fs, s) != []
  {
    var lists := CandidateLists(fs, subs);
    GroupsOfExactly(subs, lists, s);
    if s in subs && CandidatesAt(fs, s) != [] {
      var i :| 0 <= i < |subs| && subs[i] == s;
      assert lists[i] != [];
    }
  }

  /** The groups of a longer list extend those of its prefix. */
  lemma GroupsOfPrefix(subs: seq<Path>, lists: seq<seq<Path>>)
    requires |lists| == |subs| && subs != []
    ensures var n := |subs| - 1;
      var groups, groups' := GroupsOf(subs, lists), GroupsOf(subs[..n], lists[..n]);
      && |groups'| <= |groups| && groups[..|groups'|] == groups'
      && (lists[n] != [] ==> |groups| == |groups'| + 1 && groups[|groups'|] == Group(subs[n], lists[n]))
  {
  }

  /** A subdirectory with candidates has its group in the schedule. */
  lemma {:induction false} GroupIndex(subs: seq<Path>, lists: seq<seq<Path>>, i: nat) returns (p: nat)
    requires |lists| == |subs| && i < |subs| && lists[i] != []
    ensures p < |GroupsOf(subs, lists)| && GroupsOf(subs, lists)[p] == Group(subs[i], lists[i])
    decreases |subs|
  {
    var n := |subs| - 1;
    var groups, groups' := GroupsOf(subs, lists), GroupsOf(subs[..n], lists[..n]);
    GroupsOfPrefix(subs, lists);
    if i < n {
      assert subs[..n][i] == subs[i] && lists[..n][i] == lists[i];
      p := GroupIndex(subs[..n], lists[..n], i);
      assert groups[p] == groups'[p];
    } else {
      p := |groups'|;
    }
  }

  /** Groups follow the order of the subdirectories: the group of an earlier
      subdirectory is handed over before that of a later one. */
  lemma {:induction false} GroupsOfInOrder(subs: seq<Path>, lists: seq<seq<Path>>, i: nat, j: nat) returns (p: nat, q: nat)
    requires |lists| == |subs| && i < j < |subs| && lists[i] != [] && lists[j] != []
    ensures p < q < |GroupsOf(subs, lists)|
    ensures GroupsOf(subs, lists)[p] == Group(subs[i], lists[i])
    ensures GroupsOf(subs, lists)[q] == Group(subs[j], lists[j])
    decreases |subs|
  {
    var n := |subs| - 1;
    var groups, groups' := GroupsOf(subs, lists), GroupsOf(subs[..n], lists[..n]);
    GroupsOfPrefix(subs, lists);
    assert subs[..n][i] == subs[i] && lists[..n][i] == lists[i];
    if j < n {
      assert subs[..n][j] == subs[j] && lists[..n][j] == lists[j];
      p, q := GroupsOfInOrder(subs[..n], lists[..n], i, j);
      assert groups[p] == groups'[p] && groups[q] == groups'[q];
    } else {
      p := GroupIndex(subs[..n], lists[..n], i);
      assert groups[p] == groups'[p];
      q := |groups'|;
    }
  }

  /** Groups of the same root follow the order of its subdirectories. */
  lemma GroupsForInOrder(fs: Tree, subs: seq<Path>, i: nat, j: nat) returns (p: nat, q: nat)
    requires i < j < |subs|
    requires CandidatesAt(fs, subs[i]) != [] && CandidatesAt(fs, subs[j]) != []
    ensures p < q < |GroupsFor(fs, subs)|
    ensures GroupsFor(fs, subs)[p] == Group(subs[i], CandidatesAt(fs, subs[i]))
    ensures GroupsFor(fs, subs)[q] == Group(subs[j], CandidatesAt(fs, subs[j]))
  {
    p, q := GroupsOfInOrder(subs, CandidateLists(fs, subs), i, j);
  }
}
