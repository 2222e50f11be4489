/** The candidate-file test `is_dicom_file` (migrate.py:78-80): a name is a
    candidate when its lower-cased form ends in ".dcm" or when it contains no
    '.' at all. */
module Candidate {

  /** `str.lower` on one character. Only ASCII letters are mapped: no other
      character lower-cases to '.', 'd', 'c' or 'm', so the suffix test below
      gives the same answer as with full case mapping. */
  function LowerChar(c: char): char
  {
    if 'A' <= c <= 'Z' then (c as int + 32) as char else c
  }

  function Lower(s: string): string
  {
    seq(|s|, i requires 0 <= i < |s| => LowerChar(s[i]))
  }

  predicate EndsWith(s: string, suffix: string)
  {
    |suffix| <= |s| && s[|s| - |suffix|..] == suffix
  }

  predicate IsDicomFile(name: string)
  {
    EndsWith(Lower(name), ".dcm") || '.' !in name
  }

  /** The test read character by character: the last four characters are
      '.', 'd', 'c', 'm' in either case, or no character is a '.'. */
  lemma IsDicomFileExactly(name: string)
    ensures IsDicomFile(name) <==>
      (|name| >= 4 && name[|name| - 4] == '.'
        && name[|name| - 3] in "dD" && name[|name| - 2] in "cC" && name[|name| - 1] in "mM")
      || (forall i :: 0 <= i < |name| ==> name[i] != '.')
  {
    var n := |name|;
    var low := Lower(name);
    if n >= 4 {
      var tail := low[n - 4..];
      if tail == ".dcm" {
        assert low[n - 4] == tail[0] && low[n - 3] == tail[1];
        assert low[n - 2] == tail[2] && low[n - 1] == tail[3];
      }
      if name[n - 4] == '.' && name[n - 3] in "dD" && name[n - 2] in "cC" && name[n - 1] in "mM" {
        assert tail == ".dcm";
      }
    }
    assert ('.' in name) <==> exists i :: 0 <= i < n && name[i] == '.';
  }

  /** Names the script's rule accepts: the extension test ignores case, and
      a name without any '.' passes. */
  lemma IsDicomFileAccepts()
    ensures IsDicomFile("X.DCM") && IsDicomFile("image.dcm") && IsDicomFile("README")
  {
    IsDicomFileExactly("X.DCM");
    IsDicomFileExactly("image.dcm");
    IsDicomFileExactly("README");
  }

  /** Names the script's rule rejects: a later extension, a leading dot, any
      other extension. */
  lemma IsDicomFileRejects()
    ensures !IsDicomFile("a.dcm.bak") && !IsDicomFile(".bashrc") && !IsDicomFile("notes.txt")
  {
    IsDicomFileExactly("a.dcm.bak");
    IsDicomFileExactly(".bashrc");
    IsDicomFileExactly("notes.txt");
  }
}
