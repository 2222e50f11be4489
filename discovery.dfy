/** Discovery: `find_subdirectories` (migrate.py:59-66) and `find_dicom_files`
    (migrate.py:68-76). Both run over the triples of `os.walk` and append
    joined paths to a local list; each also logs one info line per appended
    path. */
module Discovery {
  import opened Events
  import opened Candidate
  import opened FileTree

  /** `dir` joined with every name, in order. */
  function JoinAll(dir: Path, names: seq<string>): (r: seq<Path>)
    ensures |r| == |names| && forall i :: 0 <= i < |names| ==> r[i] == dir + [names[i]]
  {
    if names == [] then [] else JoinAll(dir, names[..|names| - 1]) + [dir + [names[|names| - 1]]]
  }

  /** `dir` joined with every candidate name, in order. */
  function JoinCandidates(dir: Path, names: seq<string>): (r: seq<Path>)
    ensures |r| <= |names|
  {
    if names == [] then []
    else
      var last := names[|names| - 1];
      JoinCandidates(dir, names[..|names| - 1]) + (if IsDicomFile(last) then [dir + [last]] else [])
  }

  /** The paths `find_subdirectories` collects from a walk: one per dirname. */
  function SubdirPaths(w: seq<Entry>): seq<Path>
  {
    if w == [] then []
    else SubdirPaths(w[..|w| - 1]) + JoinAll(w[|w| - 1].dirpath, w[|w| - 1].dirnames)
  }

  /** The paths `find_dicom_files` collects from a walk: one per candidate filename. */
  function DicomPaths(w: seq<Entry>): seq<Path>
  {
    if w == [] then []
    else DicomPaths(w[..|w| - 1]) + JoinCandidates(w[|w| - 1].dirpath, w[|w| - 1].filenames)
  }

  /** Every filename of a walk, joined with its directory, in walk order. */
  function FilePaths(w: seq<Entry>): seq<Path>
  {
    if w == [] then []
    else FilePaths(w[..|w| - 1]) + JoinAll(w[|w| - 1].dirpath, w[|w| - 1].filenames)
  }

  /** The paths whose base name passes `is_dicom_file`, order kept. */
  function KeepCandidates(ps: seq<Path>): seq<Path>
  {
    if ps == [] then []
    else
      var last := ps[|ps| - 1];
      KeepCandidates(ps[..|ps| - 1]) + (if IsDicomFile(BaseName(last)) then [last] else [])
  }

  /** One "[DIR]" info line per collected subdirectory, naming it. */
  function DirLog(subdirs: seq<Path>): seq<Event>
  {
    seq(|subdirs|, i requires 0 <= i < |subdirs| => InfoEvent(DirFound(BaseName(subdirs[i]))))
  }

  /** One "[FILE]" info line per collected candidate, naming it. */
  function FileLog(files: seq<Path>): seq<Event>
  {
    seq(|files|, i requires 0 <= i < |files| => InfoEvent(FileFound(BaseName(files[i]))))
  }

  /** `find_subdirectories(root)`: the loop runs over the triples of `os.walk(root)`. */
  method FindSubdirectories(fs: Tree, root: Path) returns (subdirs: seq<Path>, log: seq<Event>)
    ensures subdirs == SubdirPaths(OsWalk(fs, root))
    ensures log == DirLog(subdirs)
  {
    subdirs, log := CollectSubdirectories(OsWalk(fs, root));
  }

  /** The loop of `find_subdirectories` over the walked triples `w`. */
  method CollectSubdirectories(w: seq<Entry>) returns (subdirs: seq<Path>, log: seq<Event>)
    ensures subdirs == SubdirPaths(w)
    ensures log == DirLog(subdirs)
  {
    subdirs, log := [], [];
    var i := 0;
    while i < |w|
      invariant 0 <= i <= |w|
      invariant subdirs == SubdirPaths(w[..i])
      invariant |log| == |subdirs|
      invariant forall k :: 0 <= k < |log| ==> log[k] == InfoEvent(DirFound(BaseName(subdirs[k])))
    {
      var e := w[i];
      var j := 0;
      while j < |e.dirnames|
        invariant 0 <= j <= |e.dirnames|
        invariant subdirs == SubdirPaths(w[..i]) + JoinAll(e.dirpath, e.dirnames[..j])
        invariant |log| == |subdirs|
        invariant forall k :: 0 <= k < |log| ==> log[k] == InfoEvent(DirFound(BaseName(subdirs[k])))
      {
        var name := e.dirnames[j];
        log := log + [InfoEvent(DirFound(name))];
        subdirs := subdirs + [e.dirpath + [name]];
        assert e.dirnames[..j + 1][..j] == e.dirnames[..j];
        ghost var done, here := SubdirPaths(w[..i]), JoinAll(e.dirpath, e.dirnames[..j]);
        assert (done + here) + [e.dirpath + [name]] == done + (here + [e.dirpath + [name]]);
        j := j + 1;
      }
      assert e.dirnames[..j] == e.dirnames;
      assert w[..i + 1][..i] == w[..i];
      i := i + 1;
    }
    assert w[..i] == w;
    assert log == DirLog(subdirs);
  }

  /** `find_dicom_files(dir)`: the loop runs over the triples of `os.walk(dir)`. */
  method FindDicomFiles(fs: Tree, dir: Path) returns (files: seq<Path>, log: seq<Event>)
    ensures files == DicomPaths(OsWalk(fs, dir))
    ensures log == FileLog(files)
  {
    files, log := CollectDicomFiles(OsWalk(fs, dir));
  }

  /** The loop of `find_dicom_files` over the walked triples `w`. */
  method CollectDicomFiles(w: seq<Entry>) returns (files: seq<Path>, log: seq<Event>)
    ensures files == DicomPaths(w)
    ensures log == FileLog(files)
  {
    files, log := [], [];
    var i := 0;
    while i < |w|
      invariant 0 <= i <= |w|
      invariant files == DicomPaths(w[..i])
      invariant |log| == |files|
      invariant forall k :: 0 <= k < |log| ==> log[k] == InfoEvent(FileFound(BaseName(files[k])))
    {
      var e := w[i];
      var j := 0;
      while j < |e.filenames|
        invariant 0 <= j <= |e.filenames|
        invariant files == DicomPaths(w[..i]) + JoinCandidates(e.dirpath, e.filenames[..j])
        invariant |log| == |files|
        invariant forall k :: 0 <= k < |log| ==> log[k] == InfoEvent(FileFound(BaseName(files[k])))
      {
        var name := e.filenames[j];
        assert e.filenames[..j + 1][..j] == e.filenames[..j];
        if IsDicomFile(name) {
          log := log + [InfoEvent(FileFound(name))];
          files := files + [e.dirpath + [name]];
          ghost var done, here := DicomPaths(w[..i]), JoinCandidates(e.dirpath, e.filenames[..j]);
          assert (done + here) + [e.dirpath + [name]] == done + (here + [e.dirpath + [name]]);
        }
        j := j + 1;
      }
      assert e.filenames[..j] == e.filenames;
      assert w[..i + 1][..i] == w[..i];
      i := i + 1;
    }
    assert w[..i] == w;
    assert log == FileLog(files);
  }

  lemma {:induction false} SubdirPathsAppend(a: seq<Entry>, b: seq<Entry>)
    ensures SubdirPaths(a + b) == SubdirPaths(a) + SubdirPaths(b)
    decreases |b|
  {
    if b == [] {
      assert a + b == a;
    } else {
      var b' := b[..|b| - 1];
      var last := JoinAll(b[|b| - 1].dirpath, b[|b| - 1].dirnames);
      assert (a + b)[..|a + b| - 1] == a + b';
      SubdirPathsAppend(a, b');
      var x, y := SubdirPaths(a), SubdirPaths(b');
      assert (x + y) + last == x + (y + last);
    }
  }

  lemma {:induction false} DicomPathsAppend(a: seq<Entry>, b: seq<Entry>)
    ensures DicomPaths(a + b) == DicomPaths(a) + DicomPaths(b)
    decreases |b|
  {
    if b == [] {
      assert a + b == a;
    } else {
      var b' := b[..|b| - 1];
      var last := JoinCandidates(b[|b| - 1].dirpath, b[|b| - 1].filenames);
      assert (a + b)[..|a + b| - 1] == a + b';
      DicomPathsAppend(a, b');
      var x, y := DicomPaths(a), DicomPaths(b');
      assert (x + y) + last == x + (y + last);
    }
  }

  lemma {:induction false} KeepCandidatesAppend(a: seq<Path>, b: seq<Path>)
    ensures KeepCandidates(a + b) == KeepCandidates(a) + KeepCandidates(b)
    decreases |b|
  {
    if b == [] {
      assert a + b == a;
    } else {
      var b' := b[..|b| - 1];
      var last := (if IsDicomFile(BaseName(b[|b| - 1])) then [b[|b| - 1]] else []);
      assert (a + b)[..|a + b| - 1] == a + b';
      KeepCandidatesAppend(a, b');
      var x, y := KeepCandidates(a), KeepCandidates(b');
      assert (x + y) + last == x + (y + last);
    }
  }

  /** `KeepCandidates` drops exactly the non-candidates. */
  lemma {:induction false} KeepCandidatesMembers(ps: seq<Path>, p: Path)
    ensures p in KeepCandidates(ps) <==> p in ps && IsDicomFile(BaseName(p))
    decreases |ps|
  {
    if ps != [] {
      var ps' := ps[..|ps| - 1];
      KeepCandidatesMembers(ps', p);
      assert ps == ps' + [ps[|ps| - 1]];
    }
  }

  /** Filtering the joined names of one directory is filtering the names. */
  lemma {:induction false} JoinCandidatesIsFilter(dir: Path, names: seq<string>)
    ensures JoinCandidates(dir, names) == KeepCandidates(JoinAll(dir, names))
    decreases |names|
  {
    if names != [] {
      var names' := names[..|names| - 1];
      JoinCandidatesIsFilter(dir, names');
      var all := JoinAll(dir, names);
      assert all[..|all| - 1] == JoinAll(dir, names');
      assert BaseName(all[|all| - 1]) == names[|names| - 1];
    }
  }

  /** `find_dicom_files` keeps, in walk order, exactly the walked files whose
      name is a candidate: nothing more, nothing dropped. */
  lemma {:induction false} DicomPathsIsFilter(w: seq<Entry>)
    ensures DicomPaths(w) == KeepCandidates(FilePaths(w))
    decreases |w|
  {
    if w != [] {
      var w' := w[..|w| - 1];
      var e := w[|w| - 1];
      DicomPathsIsFilter(w');
      JoinCandidatesIsFilter(e.dirpath, e.filenames);
      KeepCandidatesAppend(FilePaths(w'), JoinAll(e.dirpath, e.filenames));
    }
  }

  /** `find_subdirectories` collects a path exactly when some walked triple
      lists it as a dirname. */
  lemma {:induction false} SubdirPathsMembers(w: seq<Entry>, s: Path)
    ensures s in SubdirPaths(w) <==>
      exists i, j :: 0 <= i < |w| && 0 <= j < |w[i].dirnames| && s == w[i].dirpath + [w[i].dirnames[j]]
    decreases |w|
  {
    if w != [] {
      var w' := w[..|w| - 1];
      var e := w[|w| - 1];
      SubdirPathsMembers(w', s);
      if s in JoinAll(e.dirpath, e.dirnames) {
        var j :| 0 <= j < |e.dirnames| && JoinAll(e.dirpath, e.dirnames)[j] == s;
        assert w[|w| - 1].dirpath + [w[|w| - 1].dirnames[j]] == s;
      }
      if exists i, j :: 0 <= i < |w| && 0 <= j < |w[i].dirnames| && s == w[i].dirpath + [w[i].dirnames[j]] {
        var i, j :| 0 <= i < |w| && 0 <= j < |w[i].dirnames| && s == w[i].dirpath + [w[i].dirnames[j]];
        if i < |w| - 1 {
          assert w'[i] == w[i];
        } else {
          assert JoinAll(e.dirpath, e.dirnames)[j] == s;
        }
      }
    }
  }

  /** Every collected candidate is `dir` joined with a candidate name of the list. */
  lemma {:induction false} JoinCandidatesShape(dir: Path, names: seq<string>, y: Path)
    requires y in JoinCandidates(dir, names)
    ensures |y| == |dir| + 1 && y[..|dir|] == dir && y[|dir|] in names && IsDicomFile(y[|dir|])
    decreases |names|
  {
    var names' := names[..|names| - 1];
    if y in JoinCandidates(dir, names') {
      JoinCandidatesShape(dir, names', y);
    }
  }

  /** Below-`q` bounds carry over from the walked directories to the collected
      subdirectory paths, one component deeper. */
  lemma {:induction false} SubdirPathsBelow(w: seq<Entry>, q: Path, m: nat)
    requires forall e :: e in w ==> q <= e.dirpath && m <= |e.dirpath|
    ensures forall s :: s in SubdirPaths(w) ==> q <= s && m + 1 <= |s|
    decreases |w|
  {
    if w != [] {
      var w' := w[..|w| - 1];
      assert forall e :: e in w' ==> e in w;
      SubdirPathsBelow(w', q, m);
      var e := w[|w| - 1];
      forall s | s in JoinAll(e.dirpath, e.dirnames) ensures q <= s && m + 1 <= |s| {
        var j :| 0 <= j < |e.dirnames| && JoinAll(e.dirpath, e.dirnames)[j] == s;
        assert s[..|q|] == e.dirpath[..|q|];
      }
    }
  }

  /** The same bounds for the collected candidate files. */
  lemma {:induction false} DicomPathsBelow(w: seq<Entry>, q: Path, m: nat)
    requires forall e :: e in w ==> q <= e.dirpath && m <= |e.dirpath|
    ensures forall y :: y in DicomPaths(w) ==> q <= y && m + 1 <= |y|
    decreases |w|
  {
    if w != [] {
      var w' := w[..|w| - 1];
      assert forall e :: e in w' ==> e in w;
      DicomPathsBelow(w', q, m);
      var e := w[|w| - 1];
      forall y | y in JoinCandidates(e.dirpath, e.filenames) ensures q <= y && m + 1 <= |y| {
        JoinCandidatesShape(e.dirpath, e.filenames, y);
        assert y[..|e.dirpath|] == e.dirpath;
        assert y[..|q|] == e.dirpath[..|q|];
      }
    }
  }

  /** With distinct names, a candidate name joined once appears exactly once. */
  lemma {:induction false} JoinCandidatesCount(dir: Path, names: seq<string>, f: string)
    requires DistinctFiles(names)
    ensures multiset(JoinCandidates(dir, names))[dir + [f]] == if f in names && IsDicomFile(f) then 1 else 0
    decreases |names|
  {
    if names != [] {
      var names' := names[..|names| - 1];
      var last := names[|names| - 1];
      JoinCandidatesCount(dir, names', f);
      assert names == names' + [last];
      if f == last {
        assert f !in names';
      }
      if dir + [f] == dir + [last] {
        assert f == (dir + [f])[|dir|] == (dir + [last])[|dir|] == last;
      }
    }
  }
}
