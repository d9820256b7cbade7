/**
 Characters and whitespace trimming as Python's `str` sees them.

 `str.strip()` with no argument and the regular-expression class `\s` on a
 `str` pattern both use the same whitespace table; `IsSpace` spells it out.
 */
module Text {

  /** Python's `str.isspace()` for a single character (and therefore `\s`). */
  predicate IsSpace(c: char) {
    || ('\t' <= c <= '\r')
    || ('\U{1C}' <= c <= '\U{1F}')
    || c == ' '
    || c == '\U{85}'
    || c == '\U{A0}'
    || c == '\U{1680}'
    || ('\U{2000}' <= c <= '\U{200A}')
    || c == '\U{2028}'
    || c == '\U{2029}'
    || c == '\U{202F}'
    || c == '\U{205F}'
    || c == '\U{3000}'
  }

  /** ASCII digits only; `\d` also matches other Unicode decimal digits (see README.md). */
  predicate IsDigit(c: char) {
    '0' <= c <= '9'
  }

  predicate AllSpace(s: string) {
    forall i :: 0 <= i < |s| ==> IsSpace(s[i])
  }

  predicate AllDigits(s: string) {
    forall i :: 0 <= i < |s| ==> IsDigit(s[i])
  }

  /** A string with no whitespace at either end, as `strip()` leaves it. */
  predicate IsTrimmed(s: string) {
    s == [] || (!IsSpace(s[0]) && !IsSpace(s[|s| - 1]))
  }

  /** Number of leading whitespace characters. */
  function LeadingSpaces(s: string): (n: nat)
    ensures n <= |s|
    ensures AllSpace(s[..n])
    ensures n < |s| ==> !IsSpace(s[n])
  {
    if s == [] || !IsSpace(s[0]) then 0
    else
      var m := LeadingSpaces(s[1..]);
      assert s[..m + 1] == [s[0]] + s[1..][..m];
      m + 1
  }

  /** Number of trailing whitespace characters. */
  function TrailingSpaces(s: string): (n: nat)
    ensures n <= |s|
    ensures AllSpace(s[|s| - n..])
    ensures n < |s| ==> !IsSpace(s[|s| - n - 1])
  {
    if s == [] || !IsSpace(s[|s| - 1]) then 0
    else
      var t := s[..|s| - 1];
      var m := TrailingSpaces(t);
      assert s[|s| - (m + 1)..] == t[|t| - m..] + [s[|s| - 1]];
      m + 1
  }

  /**
   Python's `s.strip()`: the unique piece of `s` that is trimmed and is
   surrounded in `s` only by whitespace.
   */
  function Strip(s: string): (r: string)
    ensures |r| <= |s|
    ensures IsTrimmed(r)
  {
    var a := LeadingSpaces(s);
    var rest := s[a..];
    var b := TrailingSpaces(rest);
    var r := rest[..|rest| - b];
    assert r != [] ==> r[0] == s[a] && r[|r| - 1] == rest[|rest| - b - 1];
    r
  }

  /** `r` sits at index `i` of `s` with only whitespace before and after it. */
  ghost predicate Surrounds(s: string, i: int, r: string) {
    0 <= i <= |s| - |r| && s[i..i + |r|] == r && AllSpace(s[..i]) && AllSpace(s[i + |r|..])
  }

  /**
   What Strip keeps is a piece of `s` with only whitespace around it; with
   StripUnique, this contract pins the result down.
   */
  lemma StripSurrounded(s: string)
    ensures Surrounds(s, LeadingSpaces(s), Strip(s))
  {
    var a := LeadingSpaces(s);
    var b := TrailingSpaces(s[a..]);
    assert Strip(s) == s[a..][..|s| - a - b];
    TrimmedSurrounded(s, a, b);
  }

  /** Cutting whitespace runs off both ends leaves a piece surrounded by them. */
  lemma TrimmedSurrounded(s: string, a: nat, b: nat)
    requires a <= |s| && b <= |s| - a
    requires AllSpace(s[..a]) && AllSpace(s[a..][|s| - a - b..])
    ensures Surrounds(s, a, s[a..][..|s| - a - b])
  {
    var rest := s[a..];
    var r := rest[..|rest| - b];
    var e := a + |r|;
    SliceOfSlice(s, a, |s|, 0, |r|);
    assert s[a..e] == r;
    SliceOfSlice(s, a, |s|, |r|, |s| - a);
    assert s[e..] == rest[|rest| - b..];
  }

  lemma {:induction false} LeadingSpacesUnique(s: string, i: nat)
    requires i <= |s| && AllSpace(s[..i])
    requires i < |s| ==> !IsSpace(s[i])
    ensures LeadingSpaces(s) == i
  {
    if i > 0 {
      assert IsSpace(s[..i][0]);
      assert s[1..][..i - 1] == s[..i][1..];
      LeadingSpacesUnique(s[1..], i - 1);
    }
  }

  lemma {:induction false} TrailingSpacesUnique(s: string, n: nat)
    requires n <= |s| && AllSpace(s[|s| - n..])
    requires n < |s| ==> !IsSpace(s[|s| - n - 1])
    ensures TrailingSpaces(s) == n
  {
    if n > 0 {
      assert IsSpace(s[|s| - n..][n - 1]);
      var s' := s[..|s| - 1];
      SliceOfSlice(s, 0, |s| - 1, |s| - n, |s| - 1);
      SliceOfSlice(s, |s| - n, |s|, 0, n - 1);
      assert s'[|s'| - (n - 1)..] == s[|s| - n..][..n - 1];
      TrailingSpacesUnique(s', n - 1);
    }
  }

  /** All-whitespace text strips to nothing. */
  lemma StripAllSpace(s: string)
    requires AllSpace(s)
    ensures Strip(s) == []
  {
    assert s[..|s|] == s;
    LeadingSpacesUnique(s, |s|);
  }

  /** Text `r` with only whitespace around it at index `i` of `s` is what Strip keeps. */
  lemma StripUnique(s: string, i: nat, r: string)
    requires i + |r| <= |s| && s[i..i + |r|] == r && IsTrimmed(r)
    requires AllSpace(s[..i]) && AllSpace(s[i + |r|..])
    ensures Strip(s) == r
  {
    if r == [] {
      assert AllSpace(s) by {
        forall k | 0 <= k < |s| ensures IsSpace(s[k]) {
          if k < i { assert s[k] == s[..i][k]; }
          else { assert s[k] == s[i..][k - i]; }
        }
      }
      StripAllSpace(s);
    } else {
      StripAround(s, i, r);
    }
  }

  lemma StripAround(s: string, i: nat, r: string)
    requires r != [] && i + |r| <= |s| && s[i..i + |r|] == r && IsTrimmed(r)
    requires AllSpace(s[..i]) && AllSpace(s[i + |r|..])
    ensures Strip(s) == r
  {
    assert s[i] == r[0];
    LeadingSpacesUnique(s, i);
    var rest := s[i..];
    var n := |s| - i - |r|;
    SliceOfSlice(s, i, |s|, |r|, |rest|);
    SliceOfSlice(s, i, |s|, 0, |r|);
    assert rest[|rest| - n..] == s[i + |r|..];
    assert rest[|r| - 1] == r[|r| - 1];
    TrailingSpacesUnique(rest, n);
  }

  /** Stripping twice is stripping once. */
  lemma StripIdempotent(s: string)
    ensures Strip(Strip(s)) == Strip(s)
  {
    var r := Strip(s);
    StripUnique(r, 0, r);
  }

  /** A string strips to nothing exactly when it is all whitespace. */
  lemma StripEmptyIffAllSpace(s: string)
    ensures Strip(s) == [] <==> AllSpace(s)
  {
    if AllSpace(s) {
      StripUnique(s, 0, []);
    }
  }

  /** Trimmed text is left as it is. */
  lemma StripTrimmed(s: string)
    requires IsTrimmed(s)
    ensures Strip(s) == s
  {
    StripUnique(s, 0, s);
  }

  /** Length of the run of whitespace starting at `i` (greedy `\s+`). */
  function SpaceRun(t: string, i: nat): (n: nat)
    requires i <= |t|
    ensures i + n <= |t|
    ensures AllSpace(t[i..i + n])
    ensures i + n < |t| ==> !IsSpace(t[i + n])
    decreases |t| - i
  {
    if i == |t| || !IsSpace(t[i]) then 0
    else
      var n := 1 + SpaceRun(t, i + 1);
      assert t[i..i + n] == [t[i]] + t[i + 1..i + n];
      n
  }

  lemma {:induction false} SpaceRunUnique(t: string, i: nat, n: nat)
    requires i + n <= |t| && AllSpace(t[i..i + n])
    requires i + n < |t| ==> !IsSpace(t[i + n])
    ensures SpaceRun(t, i) == n
    decreases n
  {
    if n > 0 {
      assert t[i] == t[i..i + n][0];
      assert t[i + 1..i + n] == t[i..i + n][1..];
      SpaceRunUnique(t, i + 1, n - 1);
    }
  }

  /** A slice of a slice is a slice of the original. */
  lemma SliceOfSlice(s: string, a: nat, b: nat, c: nat, d: nat)
    requires a <= b <= |s| && c <= d <= b - a
    ensures s[a..b][c..d] == s[a + c..a + d]
  {
    assert forall i :: 0 <= i < d - c ==> s[a..b][c..d][i] == s[a + c + i];
  }
}
