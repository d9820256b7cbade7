/**
 The serving extractor `extract_serving` (crawler/recipes_crawl.py:37-39):
 the leftmost match of `\d+\s*인분` ("<n> servings") in the summary text, or
 the whole text trimmed when there is none.
 */
module Serving {
  import opened Wrappers
  import opened Text

  /** The "servings" unit the pattern ends with. */
  const Unit: string := "인분"

  /** The first `d` characters of `m` are digits, then come whitespace and the unit. */
  predicate ServingShape(m: string, d: int) {
    1 <= d <= |m| - 2 && AllDigits(m[..d]) && AllSpace(m[d..|m| - 2]) && m[|m| - 2..] == Unit
  }

  /** `m` is a whole match of `\d+\s*인분`: digits, optional whitespace, the unit. */
  ghost predicate IsServingText(m: string) {
    exists d :: ServingShape(m, d)
  }

  /** The pattern matches the `n` characters of `s` starting at index `p`. */
  ghost predicate MatchSpan(s: string, p: int, n: int) {
    0 <= p && 0 <= n && p + n <= |s| && IsServingText(s[p..p + n])
  }

  /** The pattern matches some text starting at index `p` of `s`. */
  ghost predicate MatchesAt(s: string, p: int) {
    exists n :: MatchSpan(s, p, n)
  }

  /** `m` is the match `re.search` reports: it starts at `p`, and no match starts earlier. */
  ghost predicate LeftmostMatch(s: string, p: int, m: string) {
    && 0 <= p && p + |m| <= |s| && s[p..p + |m|] == m
    && IsServingText(m)
    && forall q :: 0 <= q < p ==> !MatchesAt(s, q)
  }

  /** Length of the run of digits starting at `i` (greedy `\d+`). */
  function DigitRun(t: string, i: nat): (n: nat)
    requires i <= |t|
    ensures i + n <= |t|
    ensures AllDigits(t[i..i + n])
    ensures i + n < |t| ==> !IsDigit(t[i + n])
    decreases |t| - i
  {
    if i == |t| || !IsDigit(t[i]) then 0
    else
      var n := 1 + DigitRun(t, i + 1);
      assert t[i..i + n] == [t[i]] + t[i + 1..i + n];
      n
  }

  /** Any maximal run of digits is the one `DigitRun` measures. */
  lemma {:induction false} DigitRunUnique(t: string, i: nat, n: nat)
    requires i + n <= |t| && AllDigits(t[i..i + n])
    requires i + n < |t| ==> !IsDigit(t[i + n])
    ensures DigitRun(t, i) == n
    decreases n
  {
    if n > 0 {
      assert t[i] == t[i..i + n][0];
      assert t[i + 1..i + n] == t[i..i + n][1..];
      DigitRunUnique(t, i + 1, n - 1);
    }
  }

  /** Digits, then whitespace, then the unit, read off `s` at `p`, make a match. */
  lemma ServingShapeIntro(s: string, p: nat, d: nat, w: nat)
    requires p + d + w + 2 <= |s| && 1 <= d
    requires AllDigits(s[p..p + d]) && AllSpace(s[p + d..p + d + w])
    requires s[p + d + w..p + d + w + 2] == Unit
    ensures ServingShape(s[p..p + d + w + 2], d)
  {
    var e := p + d + w + 2;
    SliceOfSlice(s, p, e, 0, d);
    SliceOfSlice(s, p, e, d, d + w);
    SliceOfSlice(s, p, e, d + w, d + w + 2);
  }

  /** A match read back off `s`: where its digits, whitespace and unit lie. */
  lemma ServingShapeElim(s: string, p: nat, n: nat, d: nat)
    requires p + n <= |s| && ServingShape(s[p..p + n], d)
    ensures AllDigits(s[p..p + d]) && !IsDigit(s[p + d])
    ensures AllSpace(s[p + d..p + n - 2]) && !IsSpace(s[p + n - 2])
    ensures s[p + n - 2..p + n] == Unit
  {
    var m := s[p..p + n];
    SliceOfSlice(s, p, p + n, 0, d);
    SliceOfSlice(s, p, p + n, d, n - 2);
    SliceOfSlice(s, p, p + n, n - 2, n);
    assert s[p + n - 2] == Unit[0];
    if d < n - 2 {
      assert s[p + d] == s[p + d..p + n - 2][0];
    } else {
      assert s[p + d] == Unit[0];
    }
  }

  /**
   Length of the match of `\d+\s*인분` starting at `p`, 0 if none. Greedy
   runs need no backtracking here: a shorter digit run is followed by a
   digit and a shorter space run by a space, neither of which starts the
   unit.
   */
  function MatchLen(s: string, p: nat): (n: nat)
    requires p <= |s|
    ensures p + n <= |s|
  {
    var d := DigitRun(s, p);
    if d == 0 then 0
    else
      var w := SpaceRun(s, p + d);
      var e := p + d + w;
      if e + 2 <= |s| && s[e..e + 2] == Unit then d + w + 2 else 0
  }

  /** What `MatchLen` reports is a match. */
  lemma MatchLenSound(s: string, p: nat)
    requires p <= |s| && MatchLen(s, p) > 0
    ensures MatchSpan(s, p, MatchLen(s, p))
  {
    var d := DigitRun(s, p);
    ServingShapeIntro(s, p, d, SpaceRun(s, p + d));
  }

  /** `MatchLen` finds every match: where it reports none, the pattern does not match. */
  lemma MatchLenComplete(s: string, p: int, n: int)
    requires MatchSpan(s, p, n)
    ensures MatchLen(s, p) == n
  {
    var d :| ServingShape(s[p..p + n], d);
    ServingShapeElim(s, p, n, d);
    DigitRunUnique(s, p, d);
    SpaceRunUnique(s, p + d, n - 2 - d);
    MatchLenOf(s, p, d, n - 2 - d);
  }

  lemma MatchLenOf(s: string, p: nat, d: nat, w: nat)
    requires p + d + w + 2 <= |s| && 0 < d
    requires DigitRun(s, p) == d && SpaceRun(s, p + d) == w
    requires s[p + d + w..p + d + w + 2] == Unit
    ensures MatchLen(s, p) == d + w + 2
  {
  }

  /** The pattern matches at `p` exactly when `MatchLen` reports a match there. */
  lemma MatchLenExact(s: string, p: nat)
    requires p <= |s|
    ensures MatchesAt(s, p) <==> MatchLen(s, p) > 0
  {
    forall k | MatchSpan(s, p, k) ensures MatchLen(s, p) == k > 0 {
      MatchLenComplete(s, p, k);
    }
    if MatchLen(s, p) > 0 {
      MatchLenSound(s, p);
    }
  }

  /** Every match starts with a digit. */
  lemma MatchStartsWithDigit(s: string, p: int, n: int)
    requires MatchSpan(s, p, n)
    ensures 0 <= p < |s| && IsDigit(s[p])
  {
    var m := s[p..p + n];
    var d :| ServingShape(m, d);
    assert IsDigit(m[..d][0]);
  }

  /** Leftmost index at or after `from` where the pattern matches, with the match length. */
  function Search(s: string, from: nat): (r: Option<(nat, nat)>)
    requires from <= |s|
    ensures r.Some? ==> var (p, n) := r.value;
      from <= p && p + n <= |s| && n > 0 && n == MatchLen(s, p)
    ensures r.Some? ==> forall q :: from <= q < r.value.0 ==> MatchLen(s, q) == 0
    ensures r.None? ==> forall q :: from <= q <= |s| ==> MatchLen(s, q) == 0
    decreases |s| - from
  {
    var n := MatchLen(s, from);
    if n > 0 then Some((from, n))
    else if from == |s| then None
    else Search(s, from + 1)
  }

  lemma SearchFindsLeftmost(s: string, p: nat, n: nat)
    requires Search(s, 0) == Some((p, n))
    ensures LeftmostMatch(s, p, s[p..p + n])
  {
    var m := s[p..p + n];
    assert n == MatchLen(s, p) && |m| == n;
    MatchLenSound(s, p);
    assert IsServingText(m);
    forall q | 0 <= q < p ensures !MatchesAt(s, q) {
      assert MatchLen(s, q) == 0;
      MatchLenExact(s, q);
    }
  }

  lemma SearchFindsNone(s: string)
    requires Search(s, 0) == None
    ensures forall p :: 0 <= p <= |s| ==> !MatchesAt(s, p)
  {
    forall p | 0 <= p <= |s| ensures !MatchesAt(s, p) {
      MatchLenExact(s, p);
    }
  }

  /**
   `extract_serving(text)`: the leftmost "<digits><spaces>인분" match, or
   `text.strip()` when the pattern does not occur.
   */
  function ExtractServing(s: string): (r: string)
    ensures (exists p :: 0 <= p <= |s| && MatchesAt(s, p)) ==> exists p :: LeftmostMatch(s, p, r)
    ensures (forall p :: 0 <= p <= |s| ==> !MatchesAt(s, p)) ==> r == Strip(s)
  {
    var found := Search(s, 0);
    if found.Some? then
      var p, n := found.value.0, found.value.1;
      var m := s[p..p + n];
      SearchFindsLeftmost(s, p, n);
      assert LeftmostMatch(s, p, m);
      assert MatchesAt(s, p) by { assert MatchSpan(s, p, n); }
      m
    else
      SearchFindsNone(s);
      Strip(s)
  }

  /** There is only one leftmost match, so the contract of ExtractServing determines its result. */
  lemma LeftmostMatchUnique(s: string, p: int, m: string, p': int, m': string)
    requires LeftmostMatch(s, p, m) && LeftmostMatch(s, p', m')
    ensures p == p' && m == m'
  {
    assert MatchSpan(s, p, |m|) && MatchSpan(s, p', |m'|);
    if p < p' { assert MatchesAt(s, p); }
    if p' < p { assert MatchesAt(s, p'); }
    MatchLenComplete(s, p, |m|);
    MatchLenComplete(s, p', |m'|);
  }

  /** A count of servings at the front is extracted without what follows. */
  lemma ServingAtStart(digits: string, spaces: string, rest: string)
    requires digits != [] && AllDigits(digits) && AllSpace(spaces)
    ensures ExtractServing(digits + spaces + Unit + rest) == digits + spaces + Unit
  {
    var s := digits + spaces + Unit + rest;
    var m := digits + spaces + Unit;
    ServingShapeOf(digits, spaces);
    assert s[0..|m|] == m;
    assert LeftmostMatch(s, 0, m);
    assert MatchesAt(s, 0) by { assert MatchSpan(s, 0, |m|); }
    var r := ExtractServing(s);
    var p :| LeftmostMatch(s, p, r);
    LeftmostMatchUnique(s, p, r, 0, m);
  }

  lemma ServingShapeOf(digits: string, spaces: string)
    requires digits != [] && AllDigits(digits) && AllSpace(spaces)
    ensures IsServingText(digits + spaces + Unit)
  {
    var m := digits + spaces + Unit;
    assert m[..|digits|] == digits && m[|digits|..|m| - 2] == spaces && m[|m| - 2..] == Unit;
    assert ServingShape(m, |digits|);
  }

  /** Text without digits never matches and comes back trimmed. */
  lemma ServingWithoutDigits(s: string)
    requires forall i :: 0 <= i < |s| ==> !IsDigit(s[i])
    ensures ExtractServing(s) == Strip(s)
  {
    forall p, n ensures !MatchSpan(s, p, n) {
      if 0 <= p < |s| {
        assert !IsDigit(s[p]);
      }
      if MatchSpan(s, p, n) {
        MatchStartsWithDigit(s, p, n);
      }
    }
  }

  /** A match is trimmed: it starts with a digit and ends with the unit. */
  lemma ServingTextTrimmed(m: string)
    requires IsServingText(m)
    ensures IsTrimmed(m) && m != []
  {
    var d :| ServingShape(m, d);
    assert m[0] == m[..d][0];
    assert m[|m| - 1] == m[|m| - 2..][1];
  }

  /** Whatever the text, the extracted serving has no surrounding whitespace. */
  lemma ServingTrimmed(s: string)
    ensures IsTrimmed(ExtractServing(s))
  {
    var r := ExtractServing(s);
    if exists p :: 0 <= p <= |s| && MatchesAt(s, p) {
      var p :| LeftmostMatch(s, p, r);
      ServingTextTrimmed(r);
    }
  }

  /** A missing summary region reads as "", which extracts to "". */
  lemma ServingOfEmpty()
    ensures ExtractServing("") == ""
  {
    ServingWithoutDigits("");
    StripTrimmed("");
  }
}
