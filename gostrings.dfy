/**
 * The parts of Go's `strings` package and of Go's string comparison that the
 * service relies on, stated on `seq<char>`.
 */
module GoStrings {

  /** `strings.HasSuffix`. */
  predicate HasSuffix(s: string, suffix: string)
    ensures HasSuffix(s, suffix) ==> |suffix| <= |s|
    ensures |suffix| == 0 ==> HasSuffix(s, suffix)
  {
    |suffix| <= |s| && s[|s| - |suffix|..] == suffix
  }

  /** `strings.CutSuffix`: `s` without `suffix` and true, or `s` and false when `s` does not end in it. */
  function CutSuffix(s: string, suffix: string): (r: (string, bool))
    ensures r.1 <==> HasSuffix(s, suffix)
    ensures r.1 ==> r.0 + suffix == s
    ensures !r.1 ==> r.0 == s
  {
    if HasSuffix(s, suffix) then (s[..|s| - |suffix|], true) else (s, false)
  }

  lemma CutSuffixOfAppend(b: string, suffix: string)
    ensures CutSuffix(b + suffix, suffix) == (b, true)
  {
    assert (b + suffix)[|b|..] == suffix;
    assert (b + suffix)[..|b|] == b;
  }

  /** A name has suffix `suffix` with stem `b` exactly when it is `b + suffix`. */
  lemma SuffixStem(s: string, b: string, suffix: string)
    ensures (HasSuffix(s, suffix) && CutSuffix(s, suffix).0 == b) <==> s == b + suffix
  {
    if s == b + suffix {
      CutSuffixOfAppend(b, suffix);
    }
  }

  /** Go's `unicode.IsSpace`, the predicate `strings.TrimSpace` trims. */
  predicate IsSpace(c: char) {
    ('\t' <= c <= '\r') || c == ' ' || c == '\U{85}' || c == '\U{A0}' || c == '\U{1680}' ||
    ('\U{2000}' <= c <= '\U{200A}') || c == '\U{2028}' || c == '\U{2029}' || c == '\U{202F}' ||
    c == '\U{205F}' || c == '\U{3000}'
  }

  predicate AllSpace(s: string) {
    forall k :: 0 <= k < |s| ==> IsSpace(s[k])
  }

  /** `s` without its leading white space. */
  function TrimLeft(s: string): string
  {
    if |s| > 0 && IsSpace(s[0]) then TrimLeft(s[1..]) else s
  }

  /** `s` without its trailing white space. */
  function TrimRight(s: string): string
  {
    if |s| > 0 && IsSpace(s[|s| - 1]) then TrimRight(s[..|s| - 1]) else s
  }

  /** `TrimLeft` removes a white-space prefix and leaves a suffix that does not start with white space. */
  lemma {:induction false} TrimLeftSpec(s: string)
    ensures var r := TrimLeft(s);
      |r| <= |s| && r == s[|s| - |r|..] && AllSpace(s[..|s| - |r|]) && (r != [] ==> !IsSpace(r[0]))
  {
    if |s| > 0 && IsSpace(s[0]) {
      TrimLeftSpec(s[1..]);
      var r := TrimLeft(s[1..]);
      assert s[..|s| - |r|] == [s[0]] + s[1..][..|s| - 1 - |r|];
    }
  }

  /** `TrimRight` removes a white-space suffix and leaves a prefix that does not end with white space. */
  lemma {:induction false} TrimRightSpec(s: string)
    ensures var r := TrimRight(s);
      |r| <= |s| && r == s[..|r|] && AllSpace(s[|r|..]) && (r != [] ==> !IsSpace(r[|r| - 1]))
  {
    if |s| > 0 && IsSpace(s[|s| - 1]) {
      TrimRightSpec(s[..|s| - 1]);
      var r := TrimRight(s[..|s| - 1]);
      assert s[|r|..] == s[..|s| - 1][|r|..] + [s[|s| - 1]];
    }
  }

  /**
   * `strings.TrimSpace`: `s` without its leading and trailing white space. The
   * result is empty exactly when `s` is all white space; otherwise it neither
   * starts nor ends with white space.
   */
  function TrimSpace(s: string): (r: string)
    ensures |r| <= |s|
    ensures r != [] ==> !IsSpace(r[0]) && !IsSpace(r[|r| - 1])
    ensures r == [] <==> AllSpace(s)
  {
    var left := TrimLeft(s);
    var r := TrimRight(left);
    TrimLeftSpec(s);
    TrimRightSpec(left);
    assert r == [] ==> AllSpace(s) by {
      if r == [] {
        var i := |s| - |left|;
        assert s == s[..i] + left;
        AllSpaceAppend(s[..i], left);
      }
    }
    r
  }

  /** What trimming removes is white space, and what it keeps is a contiguous slice of `s`. */
  lemma TrimSpaceIsSlice(s: string)
    ensures exists i :: (0 <= i <= |s| - |TrimSpace(s)| && s[i..i + |TrimSpace(s)|] == TrimSpace(s) &&
                         AllSpace(s[..i]) && AllSpace(s[i + |TrimSpace(s)|..]))
  {
    var left := TrimLeft(s);
    var r := TrimRight(left);
    var i := |s| - |left|;
    TrimLeftSpec(s);
    TrimRightSpec(left);
    assert s[i..] == left;
    assert s[i..i + |r|] == r;
    assert s[i + |r|..] == left[|r|..];
  }

  /** A string that neither starts nor ends with white space is left as it is. */
  lemma TrimSpaceKeeps(s: string)
    requires s != [] && !IsSpace(s[0]) && !IsSpace(s[|s| - 1])
    ensures TrimSpace(s) == s
  {
    assert TrimLeft(s) == s;
  }

  /** A concatenation is all white space exactly when both parts are. */
  lemma AllSpaceAppend(a: string, b: string)
    ensures AllSpace(a + b) <==> AllSpace(a) && AllSpace(b)
  {
    if AllSpace(a + b) {
      forall k | 0 <= k < |b| ensures IsSpace(b[k]) { assert (a + b)[|a| + k] == b[k]; }
      forall k | 0 <= k < |a| ensures IsSpace(a[k]) { assert (a + b)[k] == a[k]; }
    }
  }

  /**
   * Go's `<` on strings: byte-wise lexicographic order on the UTF-8 encoding,
   * which is the same as code-point-wise lexicographic order on characters.
   * (Dafny's own `<` on sequences means "proper prefix".)
   */
  predicate LexLess(a: string, b: string)
    ensures LexLess(a, b) ==> a != b
    ensures |a| < |b| && a == b[..|a|] ==> LexLess(a, b)
  {
    if |a| == 0 then |b| > 0
    else if |b| == 0 then false
    else if a[0] != b[0] then a[0] < b[0]
    else LexLess(a[1..], b[1..])
  }

  lemma {:induction false} LexLessIrreflexive(a: string)
    ensures !LexLess(a, a)
  {
    if |a| > 0 { LexLessIrreflexive(a[1..]); }
  }

  lemma {:induction false} LexLessAsymmetric(a: string, b: string)
    requires LexLess(a, b)
    ensures !LexLess(b, a)
  {
    if |a| > 0 && |b| > 0 && a[0] == b[0] { LexLessAsymmetric(a[1..], b[1..]); }
  }

  lemma {:induction false} LexLessTransitive(a: string, b: string, c: string)
    requires LexLess(a, b) && LexLess(b, c)
    ensures LexLess(a, c)
  {
    if |a| > 0 && |b| > 0 && |c| > 0 && a[0] == b[0] && b[0] == c[0] {
      LexLessTransitive(a[1..], b[1..], c[1..]);
    }
  }

  lemma {:induction false} LexLessTotal(a: string, b: string)
    requires a != b
    ensures LexLess(a, b) || LexLess(b, a)
  {
    if |a| > 0 && |b| > 0 && a[0] == b[0] {
      assert a == [a[0]] + a[1..] && b == [b[0]] + b[1..];
      LexLessTotal(a[1..], b[1..]);
    }
  }
}
