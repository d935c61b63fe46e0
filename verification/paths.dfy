/**
 * The slice of POSIX path handling the upload intake relies on: the `name`
 * and `stem` of Python's `pathlib.PurePosixPath`, and `os.path.basename`.
 */
module Paths {

  /** `str.split('/')`: the text between slashes, in order. */
  function SplitSlash(p: string): (parts: seq<string>)
    ensures |parts| >= 1
    ensures forall k :: 0 <= k < |parts| ==> '/' !in parts[k]
  {
    if |p| == 0 then [""]
    else
      var rest := SplitSlash(p[1..]);
      if p[0] == '/' then [""] + rest
      else [[p[0]] + rest[0]] + rest[1..]
  }

  /** A path that splits into a single part is that part. */
  lemma {:induction false} SplitSingle(p: string)
    ensures |SplitSlash(p)| == 1 ==> SplitSlash(p)[0] == p
    decreases |p|
  {
    if |p| > 0 {
      SplitSingle(p[1..]);
      var rest := SplitSlash(p[1..]);
      if p[0] != '/' && |rest| == 1 {
        assert SplitSlash(p) == [[p[0]] + rest[0]];
        assert [p[0]] + p[1..] == p;
      }
    }
  }

  /** The last part of the split is what follows the last slash, and is shorter than a path that has one. */
  lemma {:induction false} SplitFinal(p: string)
    ensures IsFinalSegment(p, SplitSlash(p)[|SplitSlash(p)| - 1])
    ensures |SplitSlash(p)| > 1 ==> |SplitSlash(p)[|SplitSlash(p)| - 1]| < |p|
    decreases |p|
  {
    var parts := SplitSlash(p);
    if |p| == 0 {
      assert parts == [""];
    } else {
      var rest := SplitSlash(p[1..]);
      var tail := rest[|rest| - 1];
      SplitFinal(p[1..]);
      assert IsFinalSegment(p[1..], tail);
      if p[0] == '/' {
        assert parts == [""] + rest;
        assert parts[|parts| - 1] == tail;
        FinalSegmentShift(p, tail);
      } else if |rest| > 1 {
        assert parts == [[p[0]] + rest[0]] + rest[1..];
        assert parts[|parts| - 1] == tail;
        assert |tail| < |p| - 1;
        FinalSegmentShift(p, tail);
      } else {
        SplitSingle(p[1..]);
        assert parts == [[p[0]] + rest[0]];
        assert [p[0]] + p[1..] == p;
        assert parts[0] == p;
        assert p[|p| - |p|..] == p;
      }
      assert IsFinalSegment(p, parts[|parts| - 1]);
    }
  }

  /** A final segment of `p[1..]` is one of `p`, unless it is all of `p[1..]` after a non-slash. */
  lemma FinalSegmentShift(p: string, tail: string)
    requires |p| > 0 && IsFinalSegment(p[1..], tail)
    requires |tail| == |p| - 1 ==> p[0] == '/'
    ensures IsFinalSegment(p, tail)
  {
    assert p[1..][|p| - 1 - |tail|..] == p[|p| - |tail|..];
    if |tail| < |p| - 1 {
      assert p[1..][|p| - 1 - |tail| - 1] == p[|p| - |tail| - 1];
    }
  }

  /** `'/'.join(parts)`. */
  function JoinSlash(parts: seq<string>): string
    requires |parts| >= 1
  {
    if |parts| == 1 then parts[0] else parts[0] + "/" + JoinSlash(parts[1..])
  }

  /** Splitting on slashes loses nothing: joining the parts gives the path back. */
  lemma {:induction false} JoinSplit(p: string)
    ensures JoinSlash(SplitSlash(p)) == p
    decreases |p|
  {
    if |p| > 0 {
      var rest := SplitSlash(p[1..]);
      JoinSplit(p[1..]);
      if p[0] == '/' {
        assert [""] + rest == SplitSlash(p);
        assert ([""] + rest)[1..] == rest;
        assert p == "" + "/" + p[1..];
      } else if |rest| == 1 {
        assert p == [p[0]] + rest[0];
      } else {
        var parts := [[p[0]] + rest[0]] + rest[1..];
        assert parts[1..] == rest[1..];
        assert JoinSlash(rest) == rest[0] + "/" + JoinSlash(rest[1..]);
        assert p == [p[0]] + p[1..];
      }
    }
  }

  /** `tail` is what follows the last slash of `p`: a suffix of `p` with a slash, or nothing, before it. */
  predicate IsFinalSegment(p: string, tail: string) {
    && |tail| <= |p|
    && tail == p[|p| - |tail|..]
    && (|tail| < |p| ==> p[|p| - |tail| - 1] == '/')
  }

  /** A part pathlib drops from a path: empty (from `//` or an end slash) or `.`. */
  predicate Dropped(part: string) {
    part == "" || part == "."
  }

  predicate AllDropped(parts: seq<string>) {
    forall k :: 0 <= k < |parts| ==> Dropped(parts[k])
  }

  /** `parts[k]` is kept, and every part after it is dropped. */
  predicate LastKeptAt(parts: seq<string>, k: int) {
    && 0 <= k < |parts|
    && !Dropped(parts[k])
    && forall j :: k < j < |parts| ==> Dropped(parts[j])
  }

  /** The last part that is neither empty nor `.`, or empty when there is none. */
  function LastNamedPart(parts: seq<string>): (name: string)
    ensures name == "" <==> AllDropped(parts)
    ensures name != "" ==> exists k :: LastKeptAt(parts, k) && parts[k] == name
    ensures name != "."
  {
    if |parts| == 0 then ""
    else
      var n := |parts| - 1;
      if !Dropped(parts[n]) then
        assert LastKeptAt(parts, n);
        parts[n]
      else
        var earlier := parts[..n];
        assert forall k :: 0 <= k < n ==> earlier[k] == parts[k];
        assert forall k :: LastKeptAt(earlier, k) ==> LastKeptAt(parts, k);
        LastNamedPart(earlier)
  }

  /**
   * `PurePosixPath(p).name`: pathlib drops empty and `.` components, so the
   * name is the last remaining component (empty for `/`, `.` or the empty path).
   */
  function PathName(p: string): (name: string)
    ensures '/' !in name
    ensures name != "."
    ensures name == "" <==> AllDropped(SplitSlash(p))
    ensures name != "" ==> exists k :: LastKeptAt(SplitSlash(p), k) && SplitSlash(p)[k] == name
  {
    var parts := SplitSlash(p);
    LastNamedPart(parts)
  }

  /** `os.path.basename(p)`: the text after the last slash. */
  function BaseName(p: string): (base: string)
    ensures '/' !in base
    ensures IsFinalSegment(p, base)
  {
    var parts := SplitSlash(p);
    SplitFinal(p);
    parts[|parts| - 1]
  }

  /** `str.rfind('.')`: the index of the last dot, or -1. */
  function LastDot(s: string): (i: int)
    ensures -1 <= i < |s|
    ensures i >= 0 ==> s[i] == '.'
    ensures forall j :: i < j < |s| ==> s[j] != '.'
  {
    if |s| == 0 then -1
    else if s[|s| - 1] == '.' then |s| - 1
    else LastDot(s[..|s| - 1])
  }

  /** Whether pathlib sees a suffix: a last dot that is neither first nor last. */
  predicate HasSuffix(name: string) {
    var i := LastDot(name);
    0 < i < |name| - 1
  }

  /** A dot at `i` that starts pathlib's suffix: the last dot, neither the first nor the last character. */
  predicate SuffixDotAt(name: string, i: int) {
    && 0 < i < |name| - 1
    && name[i] == '.'
    && forall j :: i < j < |name| ==> name[j] != '.'
  }

  /**
   * `PurePosixPath(p).stem`: the name, cut at the dot that starts its suffix
   * when there is one.
   */
  function Stem(p: string): (stem: string)
    ensures stem <= PathName(p)
    ensures |stem| < |PathName(p)| <==> exists i :: SuffixDotAt(PathName(p), i)
    ensures |stem| < |PathName(p)| ==> SuffixDotAt(PathName(p), |stem|)
  {
    var name := PathName(p);
    SuffixDotIsLastDot(name);
    if HasSuffix(name) then name[..LastDot(name)] else name
  }

  /** `PurePosixPath(p).suffix`: from the last dot on, or empty. */
  function Suffix(p: string): (suffix: string)
    ensures suffix != "" <==> exists i :: SuffixDotAt(PathName(p), i)
    ensures suffix != "" ==> SuffixDotAt(PathName(p), |PathName(p)| - |suffix|)
  {
    var name := PathName(p);
    SuffixDotIsLastDot(name);
    if HasSuffix(name) then name[LastDot(name)..] else ""
  }

  /** pathlib's rule through `rfind`: a suffix starts exactly at a last dot that is neither first nor last. */
  lemma SuffixDotIsLastDot(name: string)
    ensures HasSuffix(name) <==> exists i :: SuffixDotAt(name, i)
    ensures HasSuffix(name) ==> SuffixDotAt(name, LastDot(name))
  {
    if HasSuffix(name) {
      assert SuffixDotAt(name, LastDot(name));
    }
    if exists i :: SuffixDotAt(name, i) {
      var i :| SuffixDotAt(name, i);
      LastDotIs(name, i);
    }
  }

  /**
   * Stem and suffix split the name: the suffix is empty or a dot followed by
   * at least one character and no further dot, and the stem never contains a
   * slash and is never empty unless the name is.
   */
  lemma StemSuffixSplitName(p: string)
    ensures Stem(p) + Suffix(p) == PathName(p)
    ensures '/' !in Stem(p)
    ensures Stem(p) == "" <==> PathName(p) == ""
    ensures Suffix(p) == "" || (|Suffix(p)| >= 2 && Suffix(p)[0] == '.' && '.' !in Suffix(p)[1..])
  {
    var name := PathName(p);
    if HasSuffix(name) {
      var i := LastDot(name);
      assert name[..i] + name[i..] == name;
      forall c | c in Stem(p) ensures c != '/' {
        assert c in name;
      }
      assert Suffix(p)[1..] == name[i + 1..];
    }
  }

  /** A dot with no dot after it is the last dot. */
  lemma LastDotIs(s: string, i: int)
    requires 0 <= i < |s| && s[i] == '.'
    requires forall j :: i < j < |s| ==> s[j] != '.'
    ensures LastDot(s) == i
  {
  }

  /** Worked example: the directory part and the suffix go, a space stays. */
  lemma StemDirectoryExample(p: string)
    requires p == "dir/Report v1.pdf"
    ensures Stem(p) == "Report v1"
  {
    assert p == "dir" + "/" + ("Report v1" + "." + "pdf");
    StemAfterDirectory("dir", "Report v1", "pdf");
  }

  /** Below a directory, the stem of `stem.ext` is `stem` when `ext` has no dot. */
  lemma StemAfterDirectory(dir: string, stem: string, ext: string)
    requires '/' !in dir && '/' !in stem && '/' !in ext && '.' !in ext
    requires |stem| > 0 && |ext| > 0
    ensures Stem(dir + "/" + (stem + "." + ext)) == stem
  {
    var file := stem + "." + ext;
    assert '/' !in file;
    assert file[0] != '.' || |file| > 1;
    PathNameAfterDirectory(dir, file);
    StemOfName(dir + "/" + file, stem, ext);
  }

  /** A slash-free name that is not `.` or empty is the last name of `dir/name`. */
  lemma PathNameAfterDirectory(dir: string, file: string)
    requires '/' !in dir && '/' !in file && !Dropped(file)
    ensures PathName(dir + "/" + file) == file
  {
    SplitNoSlash(file);
    SplitAfterPlain(dir, file);
    assert SplitSlash(dir + "/" + file) == [dir, file];
  }

  /** The stem of a path whose name is `stem.ext`, with no dot in `ext`. */
  lemma StemOfName(p: string, stem: string, ext: string)
    requires PathName(p) == stem + "." + ext
    requires '.' !in ext && |stem| > 0 && |ext| > 0
    ensures Stem(p) == stem
  {
    var file := stem + "." + ext;
    assert forall j :: |stem| < j < |file| ==> file[j] == ext[j - |stem| - 1];
    LastDotIs(file, |stem|);
    assert file[..|stem|] == stem;
  }

  /** Worked example: backslashes are ordinary characters in a POSIX name. */
  lemma StemBackslashExample(p: string)
    requires p == "..\\..\\evil.pdf"
    ensures Stem(p) == "..\\..\\evil"
  {
    SplitNoSlash(p);
    LastDotIs(p, 10);
  }

  /** A slash-free string is a single part. */
  lemma {:induction false} SplitNoSlash(s: string)
    requires '/' !in s
    ensures SplitSlash(s) == [s]
    decreases |s|
  {
    if |s| > 0 {
      SplitNoSlash(s[1..]);
      assert [s[0]] + s[1..] == s;
    }
  }

  /** A slash-free first part is split off at the first slash. */
  lemma {:induction false} SplitAfterPlain(a: string, b: string)
    requires '/' !in a
    ensures SplitSlash(a + "/" + b) == [a] + SplitSlash(b)
    decreases |a|
  {
    if |a| == 0 {
      assert ("/" + b)[1..] == b;
    } else {
      assert (a + "/" + b)[1..] == a[1..] + "/" + b;
      SplitAfterPlain(a[1..], b);
      assert [a[0]] + a[1..] == a;
    }
  }
}
