/**
 * `sanitize_filename` of mineru/cli/fast_api.py: turns a client-supplied
 * document name into a single safe path segment for the result archive.
 *
 * The character class `\w` of Python's `re` module in Unicode mode depends on
 * the Unicode character database, so it is a parameter `word` here; every
 * property below needs only `WordClass(word)`.
 */
module Sanitize {

  /** The characters of `[/\\\.]`: path separators and the dot. */
  predicate IsPathOrDot(c: char) {
    c == '/' || c == '\\' || c == '.'
  }

  /** The characters of `[/\\]`. */
  predicate IsSlash(c: char) {
    c == '/' || c == '\\'
  }

  /** What any reading of `\w` agrees on: underscore, ASCII letters and digits. */
  predicate WordClass(word: char -> bool) {
    && word('_')
    && (forall c :: 'a' <= c <= 'z' ==> word(c))
    && (forall c :: 'A' <= c <= 'Z' ==> word(c))
    && (forall c :: '0' <= c <= '9' ==> word(c))
  }

  /** `\w` restricted to ASCII: a concrete instance of `WordClass`. */
  predicate AsciiWord(c: char) {
    c == '_' || 'a' <= c <= 'z' || 'A' <= c <= 'Z' || '0' <= c <= '9'
  }

  /** Characters outside `[^\w.-]`, i.e. those step 2 keeps. */
  predicate Allowed(word: char -> bool, c: char) {
    word(c) || c == '.' || c == '-'
  }

  predicate NoSlash(s: string) {
    forall i :: 0 <= i < |s| ==> !IsSlash(s[i])
  }

  predicate NoDoubleDot(s: string) {
    forall i :: 0 <= i < |s| - 1 ==> !(s[i] == '.' && s[i + 1] == '.')
  }

  /** A name `sanitize_filename` leaves alone (see `FixedPointIffSafe`). */
  predicate IsSafeName(word: char -> bool, s: string) {
    && |s| > 0
    && s[0] != '.'
    && NoSlash(s)
    && NoDoubleDot(s)
    && (forall i :: 0 <= i < |s| ==> Allowed(word, s[i]))
  }

  /** Length of the run of path or dot characters that begins `s`. */
  function LeadingRun(s: string): (n: nat)
    ensures n <= |s|
    ensures forall i :: 0 <= i < n ==> IsPathOrDot(s[i])
    ensures n < |s| ==> !IsPathOrDot(s[n])
  {
    if |s| == 0 || !IsPathOrDot(s[0]) then 0 else 1 + LeadingRun(s[1..])
  }

  /**
   * Step 1, `re.sub(r'[/\\\.]{2,}|[/\\]', '', s)`, scanning left to right as
   * the regular-expression engine does: at each position a run of two or more
   * path or dot characters is removed whole (the repetition is greedy), else a
   * lone slash is removed, else the character is kept.
   */
  function StripSeparators(s: string): (r: string)
    ensures |r| <= |s|
    ensures NoSlash(r)
    ensures NoDoubleDot(r)
    ensures |s| > 0 && !IsPathOrDot(s[0]) ==> |r| > 0 && r[0] == s[0]
    decreases |s|
  {
    if |s| == 0 then ""
    else
      var n := LeadingRun(s);
      if n >= 2 then StripSeparators(s[n..])
      else if IsSlash(s[0]) then StripSeparators(s[1..])
      else [s[0]] + StripSeparators(s[1..])
  }

  /**
   * Independent description of step 1: a character survives exactly when it
   * is not a path or dot character, or it is a dot with no path or dot
   * character on either side.
   */
  predicate Survives(s: string, i: int)
    requires 0 <= i < |s|
  {
    || !IsPathOrDot(s[i])
    || (&& s[i] == '.'
        && (i == 0 || !IsPathOrDot(s[i - 1]))
        && (i + 1 == |s| || !IsPathOrDot(s[i + 1])))
  }

  /** The surviving characters of `s[i..]`, in order. */
  function Survivors(s: string, i: nat): string
    requires i <= |s|
    decreases |s| - i
  {
    if i == |s| then ""
    else (if Survives(s, i) then [s[i]] else "") + Survivors(s, i + 1)
  }

  /** Step 2, `re.sub(r'[^\w.-]', '_', s)`. */
  function ReplaceDisallowed(word: char -> bool, s: string): (r: string)
    ensures |r| == |s|
    ensures forall i :: 0 <= i < |s| && Allowed(word, s[i]) ==> r[i] == s[i]
    ensures forall i :: 0 <= i < |s| && !Allowed(word, s[i]) ==> r[i] == '_'
    ensures word('_') ==> forall i :: 0 <= i < |r| ==> Allowed(word, r[i])
  {
    seq(|s|, i requires 0 <= i < |s| => ReplaceChar(word, s[i]))
  }

  function ReplaceChar(word: char -> bool, c: char): char
  {
    if Allowed(word, c) then c else '_'
  }

  /** `sanitize_filename`: steps 1 and 2, then a leading dot becomes `_`, and empty becomes `unnamed`. */
  function SanitizeFilename(word: char -> bool, name: string): (r: string)
    ensures |r| > 0 && r[0] != '.'
    ensures NoSlash(r) && NoDoubleDot(r)
    ensures WordClass(word) ==> IsSafeName(word, r)
    ensures name == "" ==> r == "unnamed"
  {
    var stripped := StripSeparators(name);
    var replaced := ReplaceDisallowed(word, stripped);
    var visible := if |replaced| > 0 && replaced[0] == '.' then "_" + replaced[1..] else replaced;
    if visible == "" then "unnamed" else visible
  }

  /** Dropping a prefix of `s` leaves the survival of later characters unchanged. */
  lemma {:induction false} SurvivorsShift(s: string, k: nat, j: nat)
    requires k + j <= |s|
    requires j > 0 || k == 0 || k == |s| || !IsPathOrDot(s[k - 1]) || !IsPathOrDot(s[k])
    ensures Survivors(s, k + j) == Survivors(s[k..], j)
    decreases |s| - (k + j)
  {
    if k + j < |s| {
      var t := s[k..];
      assert t[j] == s[k + j];
      if j > 0 {
        assert t[j - 1] == s[k + j - 1];
      }
      if j + 1 < |t| {
        assert t[j + 1] == s[k + j + 1];
      }
      assert Survives(s, k + j) == Survives(t, j);
      SurvivorsShift(s, k, j + 1);
    }
  }

  /** No character of a leading run of two or more path or dot characters survives. */
  lemma {:induction false} RunDropped(s: string, i: nat)
    requires LeadingRun(s) >= 2
    requires i <= LeadingRun(s)
    ensures Survivors(s, i) == Survivors(s, LeadingRun(s))
    decreases LeadingRun(s) - i
  {
    var n := LeadingRun(s);
    if i < n {
      if i + 1 < n {
        assert IsPathOrDot(s[i + 1]);
      } else {
        assert IsPathOrDot(s[i - 1]);
      }
      assert !Survives(s, i);
      RunDropped(s, i + 1);
    }
  }

  /** The regex scan of step 1 keeps exactly the characters `Survives` describes. */
  lemma {:induction false} StripSeparatorsKeepsSurvivors(s: string)
    ensures StripSeparators(s) == Survivors(s, 0)
    decreases |s|
  {
    if |s| > 0 {
      var n := LeadingRun(s);
      if n >= 2 {
        StripSeparatorsKeepsSurvivors(s[n..]);
        SurvivorsShift(s, n, 0);
        RunDropped(s, 0);
      } else if IsSlash(s[0]) {
        assert !Survives(s, 0);
        StripSeparatorsKeepsSurvivors(s[1..]);
        SurvivorsShift(s, 1, 0);
      } else {
        assert Survives(s, 0);
        StripSeparatorsKeepsSurvivors(s[1..]);
        SurvivorsShift(s, 1, 0);
      }
    }
  }

  /** Step 1 leaves a string without slashes or adjacent dots alone. */
  lemma {:induction false} StripSeparatorsIdentity(s: string)
    requires NoSlash(s) && NoDoubleDot(s)
    ensures StripSeparators(s) == s
    decreases |s|
  {
    if |s| > 0 {
      StripSeparatorsIdentity(s[1..]);
      assert [s[0]] + s[1..] == s;
    }
  }

  /** Step 2 leaves a string of allowed characters alone. */
  lemma ReplaceDisallowedIdentity(word: char -> bool, s: string)
    requires forall i :: 0 <= i < |s| ==> Allowed(word, s[i])
    ensures ReplaceDisallowed(word, s) == s
  {
  }

  /** A name is a fixed point of `SanitizeFilename` exactly when it is safe. */
  lemma FixedPointIffSafe(word: char -> bool, s: string)
    requires WordClass(word)
    ensures SanitizeFilename(word, s) == s <==> IsSafeName(word, s)
  {
    if IsSafeName(word, s) {
      StripSeparatorsIdentity(s);
      ReplaceDisallowedIdentity(word, s);
    }
  }

  /** Sanitizing an already sanitized name changes nothing. */
  lemma SanitizeIdempotent(word: char -> bool, name: string)
    requires WordClass(word)
    ensures SanitizeFilename(word, SanitizeFilename(word, name)) == SanitizeFilename(word, name)
  {
    FixedPointIffSafe(word, SanitizeFilename(word, name));
  }

  /** No path or dot character at all. */
  predicate Plain(s: string) {
    forall i :: 0 <= i < |s| ==> !IsPathOrDot(s[i])
  }

  /** Step 1 keeps a name without path or dot characters. */
  lemma StripPlain(s: string)
    requires Plain(s)
    ensures StripSeparators(s) == s
  {
    StripSeparatorsIdentity(s);
  }

  /** Step 1 deletes a single slash between two plain names. */
  lemma {:induction false} StripLoneSlash(a: string, slash: char, b: string)
    requires Plain(a) && Plain(b) && IsSlash(slash)
    ensures StripSeparators(a + [slash] + b) == a + b
    decreases |a|
  {
    var s := a + [slash] + b;
    if |a| == 0 {
      assert s == [slash] + b;
      assert s[1..] == b;
      assert LeadingRun(s) == 1 by {
        assert LeadingRun(s) == 1 + LeadingRun(b);
      }
      StripPlain(b);
    } else {
      assert s[1..] == a[1..] + [slash] + b;
      StripLoneSlash(a[1..], slash, b);
      assert [a[0]] + a[1..] == a;
    }
  }

  /** Step 1 deletes a leading run of two or more path or dot characters. */
  lemma StripLeadingRun(run: string, s: string)
    requires |run| >= 2 && forall i :: 0 <= i < |run| ==> IsPathOrDot(run[i])
    requires |s| == 0 || !IsPathOrDot(s[0])
    ensures StripSeparators(run + s) == StripSeparators(s)
  {
    LeadingRunOfRun(run, s);
    assert (run + s)[|run|..] == s;
  }

  lemma {:induction false} LeadingRunOfRun(run: string, s: string)
    requires forall i :: 0 <= i < |run| ==> IsPathOrDot(run[i])
    requires |s| == 0 || !IsPathOrDot(s[0])
    ensures LeadingRun(run + s) == |run|
    decreases |run|
  {
    if |run| > 0 {
      assert (run + s)[1..] == run[1..] + s;
      LeadingRunOfRun(run[1..], s);
    }
  }

  /**
   * A traversal prefix and an inner slash are deleted outright: what is left
   * is the two plain parts joined, with step 2 applied.
   */
  lemma SanitizeDropsTraversal(word: char -> bool, run: string, a: string, b: string)
    requires |run| >= 2 && forall i :: 0 <= i < |run| ==> IsPathOrDot(run[i])
    requires |a| > 0 && Plain(a) && Plain(b)
    ensures SanitizeFilename(word, run + a + "/" + b) == ReplaceDisallowed(word, a + b)
  {
    StripLoneSlash(a, '/', b);
    StripLeadingRun(run, a + ['/'] + b);
    assert run + (a + ['/'] + b) == run + a + "/" + b;
  }

  /** Worked example: `../../etc/passwd` becomes `etcpasswd`. */
  lemma SanitizeTraversalExample(name: string)
    requires name == "../../etc/passwd"
    ensures SanitizeFilename(AsciiWord, name) == "etcpasswd"
  {
    var run, a, b := "../../", "etc", "passwd";
    assert run + a + "/" + b == name;
    assert forall i :: 0 <= i < |run| ==> IsPathOrDot(run[i]);
    assert Plain(a) && Plain(b);
    EtcPasswdKept(a, b);
    SanitizeDropsTraversal(AsciiWord, run, a, b);
  }

  lemma EtcPasswdKept(a: string, b: string)
    requires a == "etc" && b == "passwd"
    ensures ReplaceDisallowed(AsciiWord, a + b) == "etcpasswd"
  {
    var ab := a + b;
    assert forall i :: 0 <= i < |ab| ==> 'a' <= ab[i] <= 'z';
    ReplaceDisallowedIdentity(AsciiWord, ab);
  }

  /** Worked example: `Report v1` becomes `Report_v1`. */
  lemma SanitizeSpaceExample(name: string)
    requires name == "Report v1"
    ensures SanitizeFilename(AsciiWord, name) == "Report_v1"
  {
    assert Plain(name);
    SanitizePlain(AsciiWord, name);
    ReportSpaceReplaced(name);
  }

  /** A non-empty name without path or dot characters only goes through step 2. */
  lemma SanitizePlain(word: char -> bool, s: string)
    requires |s| > 0 && Plain(s)
    ensures SanitizeFilename(word, s) == ReplaceDisallowed(word, s)
  {
    StripPlain(s);
    assert !IsPathOrDot(s[0]);
  }

  lemma ReportSpaceReplaced(name: string)
    requires name == "Report v1"
    ensures ReplaceDisallowed(AsciiWord, name) == "Report_v1"
  {
    var r, want := ReplaceDisallowed(AsciiWord, name), "Report_v1";
    assert !Allowed(AsciiWord, name[6]);
    assert forall i :: 0 <= i < |name| && i != 6 ==> Allowed(AsciiWord, name[i]) && name[i] == want[i];
    assert forall i :: 0 <= i < |want| ==> r[i] == want[i];
  }

  /** Worked example: a hidden name gets a visible first character. */
  lemma SanitizeHiddenExample(name: string)
    requires name == ".bashrc"
    ensures SanitizeFilename(AsciiWord, name) == "_bashrc"
  {
    assert LeadingRun(name) == 1;
    StripPlain(name[1..]);
    assert [name[0]] + name[1..] == name;
    BashrcKept(name);
  }

  lemma BashrcKept(name: string)
    requires name == ".bashrc"
    ensures ReplaceDisallowed(AsciiWord, name) == name
    ensures "_" + name[1..] == "_bashrc"
  {
    ReplaceDisallowedIdentity(AsciiWord, name);
  }

  /** Worked examples: a bare parent reference and the empty name both fall back to `unnamed`. */
  lemma SanitizeFallbackExamples(name: string)
    requires name == ".." || name == ""
    ensures SanitizeFilename(AsciiWord, name) == "unnamed"
  {
    if name == ".." {
      assert LeadingRun(name) == 2;
    }
  }
}
