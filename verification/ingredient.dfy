/**
 The ingredient normaliser `clean_ingredient` (crawler/recipes_crawl.py:27-34):
 drop every "구매" ("buy") marker, trim, split on runs of blank space with the
 regular expression `\n{2,}|\s{2,}`, and keep the first two pieces as
 (name, amount).
 */
module Ingredient {
  import opened Wrappers
  import opened Text

  /** The purchase-link label the site appends to ingredient lines. */
  const Marker: string := "구매"

  /** `s` has the marker starting at index `i`. */
  predicate MarkerAt(s: string, i: int) {
    0 <= i && i + 1 < |s| && s[i] == Marker[0] && s[i + 1] == Marker[1]
  }

  predicate HasMarker(s: string) {
    exists i :: 0 <= i < |s| && MarkerAt(s, i)
  }

  /**
   Python's `s.replace("구매", "")`: one left-to-right pass removing
   non-overlapping occurrences. Text the removal glues together is not
   scanned again.
   */
  function RemoveMarker(s: string): (r: string)
    ensures |r| <= |s|
    ensures !HasMarker(s) ==> r == s
    decreases |s|
  {
    if s == [] then []
    else if MarkerAt(s, 0) then
      RemoveMarker(s[2..])
    else
      assert s == [s[0]] + s[1..];
      assert !HasMarker(s) ==> !HasMarker(s[1..]) by {
        if HasMarker(s[1..]) {
          var i :| 0 <= i < |s[1..]| && MarkerAt(s[1..], i);
          assert s[1..][i] == s[i + 1] && s[1..][i + 1] == s[i + 2];
          assert MarkerAt(s, i + 1);
        }
      }
      [s[0]] + RemoveMarker(s[1..])
  }

  /** Removal only deletes characters: every character of the result is in the input. */
  lemma {:induction false} RemoveMarkerKeepsChars(s: string)
    ensures multiset(RemoveMarker(s)) <= multiset(s)
    decreases |s|
  {
    if s == [] {
    } else if MarkerAt(s, 0) {
      RemoveMarkerKeepsChars(s[2..]);
      assert s == s[..2] + s[2..];
    } else {
      RemoveMarkerKeepsChars(s[1..]);
      assert s == [s[0]] + s[1..];
    }
  }

  /**
   Removal distributes over a concatenation unless a marker straddles the
   join. In particular a marker placed between two texts is dropped and
   nothing else changes: `RemoveMarker(a + Marker + b)` is
   `RemoveMarker(a) + RemoveMarker(b)`.
   */
  lemma {:induction false} RemoveMarkerAppend(a: string, b: string)
    requires !(a != [] && b != [] && a[|a| - 1] == Marker[0] && b[0] == Marker[1])
    ensures RemoveMarker(a + b) == RemoveMarker(a) + RemoveMarker(b)
    decreases |a|
  {
    if a == [] {
      assert a + b == b;
    } else if MarkerAt(a, 0) {
      assert (a + b)[2..] == a[2..] + b;
      assert MarkerAt(a + b, 0);
      RemoveMarkerAppend(a[2..], b);
    } else {
      assert (a + b)[1..] == a[1..] + b;
      if |a| == 1 {
        assert !MarkerAt(a + b, 0);
      } else {
        assert (a + b)[1] == a[1];
        assert !MarkerAt(a + b, 0);
      }
      RemoveMarkerAppend(a[1..], b);
    }
  }

  lemma RemoveMarkerDropsOne(a: string, b: string)
    ensures RemoveMarker(a + Marker + b) == RemoveMarker(a) + RemoveMarker(b)
  {
    assert a + Marker + b == a + (Marker + b);
    RemoveMarkerAppend(a, Marker + b);
    assert MarkerAt(Marker + b, 0);
    assert (Marker + b)[2..] == b;
  }

  /** The marker has no whitespace, so all-blank text passes unchanged. */
  lemma RemoveMarkerKeepsBlank(s: string)
    requires AllSpace(s)
    ensures RemoveMarker(s) == s
  {
    forall i | 0 <= i < |s| ensures !MarkerAt(s, i) {
      assert IsSpace(s[i]);
    }
  }

  /** One pass is not a fixed point: removal can glue a new marker together. */
  lemma RemoveMarkerNotIdempotent()
    ensures RemoveMarker("구구매매") == "구매"
    ensures RemoveMarker(RemoveMarker("구구매매")) == ""
  {
    var s := "구구매매";
    assert !MarkerAt(s, 0) && MarkerAt(s, 1);
    assert s[1..][2..] == "매";
    assert !HasMarker("매");
    assert MarkerAt("구매", 0);
  }

  // ---------------------------------------------------------------------
  // re.split(r'\n{2,}|\s{2,}', t)
  // ---------------------------------------------------------------------

  /** Two whitespace characters in a row start at `i`: a separator matches here. */
  predicate Gap(t: string, i: int) {
    0 <= i && i + 1 < |t| && IsSpace(t[i]) && IsSpace(t[i + 1])
  }

  /** No separator matches anywhere in `t`. */
  predicate NoGap(t: string) {
    forall i :: 0 <= i < |t| ==> !Gap(t, i)
  }

  /** `\n\n` starts at `i`: the first alternative of the pattern matches here. */
  predicate NewlinePair(t: string, i: int) {
    0 <= i && i + 1 < |t| && t[i] == '\n' && t[i + 1] == '\n'
  }

  predicate AllNewlines(s: string) {
    forall i :: 0 <= i < |s| ==> s[i] == '\n'
  }

  lemma NewlinesAreSpace(g: string)
    requires AllNewlines(g)
    ensures AllSpace(g)
  {
    forall k | 0 <= k < |g| ensures IsSpace(g[k]) {
      assert g[k] == '\n';
    }
  }

  /** Length of the run of '\n' starting at `i` (greedy `\n+`). */
  function NewlineRun(t: string, i: nat): (n: nat)
    requires i <= |t|
    ensures i + n <= |t|
    ensures AllNewlines(t[i..i + n])
    ensures i + n < |t| ==> t[i + n] != '\n'
    decreases |t| - i
  {
    if i == |t| || t[i] != '\n' then 0
    else
      var n := 1 + NewlineRun(t, i + 1);
      assert t[i..i + n] == [t[i]] + t[i + 1..i + n];
      n
  }

  /**
   Length of the separator the pattern matches at `i`, trying `\n{2,}` first
   and `\s{2,}` second; 0 when neither matches.
   */
  function SeparatorAt(t: string, i: nat): (n: nat)
    requires i <= |t|
    ensures i + n <= |t|
    ensures n > 0 <==> Gap(t, i)
    ensures n > 0 ==> n >= 2 && AllSpace(t[i..i + n])
  {
    if NewlinePair(t, i) then
      var n := NewlineRun(t, i);
      assert t[i..i + n][0] == t[i] && t[i..i + n][1] == t[i + 1];
      NewlinesAreSpace(t[i..i + n]);
      n
    else if Gap(t, i) then
      var n := SpaceRun(t, i);
      assert t[i..i + n][0] == t[i] && t[i..i + n][1] == t[i + 1];
      n
    else 0
  }

  /** Leftmost position at or after `from` where a separator matches; |t| if none. */
  function FindSeparator(t: string, from: nat): (p: nat)
    requires from <= |t|
    ensures from <= p <= |t|
    ensures forall q :: from <= q < p ==> !Gap(t, q)
    ensures p < |t| ==> Gap(t, p)
    ensures p == |t| ==> forall q :: from <= q ==> !Gap(t, q)
    decreases |t| - from
  {
    if from == |t| then from
    else if Gap(t, from) then from
    else FindSeparator(t, from + 1)
  }

  /** The pieces `re.split` returns, together with the separators it consumed. */
  datatype Splitting = Splitting(parts: seq<string>, gaps: seq<string>)

  /** Interleave pieces and separators back into one text. */
  function Join(parts: seq<string>, gaps: seq<string>): string
    requires |parts| == |gaps| + 1
    decreases |gaps|
  {
    if gaps == [] then parts[0]
    else parts[0] + gaps[0] + Join(parts[1..], gaps[1..])
  }

  /**
   Python's `re.split(r'\n{2,}|\s{2,}', t)`: scan for the leftmost match,
   cut, and continue after it.
   */
  function Split(t: string): (r: Splitting)
    ensures |r.parts| == |r.gaps| + 1
    ensures Join(r.parts, r.gaps) == t
    ensures |r.parts| >= 2 <==> !NoGap(t)
    decreases |t|
  {
    var p := FindSeparator(t, 0);
    if p == |t| then Splitting([t], [])
    else
      var n := SeparatorAt(t, p);
      var rest := Split(t[p + n..]);
      var r := Splitting([t[..p]] + rest.parts, [t[p..p + n]] + rest.gaps);
      assert r.parts[1..] == rest.parts && r.gaps[1..] == rest.gaps;
      assert t == t[..p] + t[p..p + n] + t[p + n..];
      r
  }

  /** The text that follows separator `k`. */
  function After(parts: seq<string>, gaps: seq<string>, k: nat): string
    requires |parts| == |gaps| + 1 && k < |gaps|
  {
    Join(parts[k + 1..], gaps[k + 1..])
  }

  /** `s` is empty or does not end in whitespace. */
  predicate EndsSolid(s: string) {
    s == [] || !IsSpace(s[|s| - 1])
  }

  /**
   Shape of one separator as the regex matches it: a run that begins with
   two newlines is taken by `\n{2,}` and so holds newlines only, stopping at
   the first character that is not '\n'; any other run is taken by
   `\s{2,}` and stops at the first non-whitespace character.
   */
  predicate SeparatorShape(g: string, after: string) {
    && |g| >= 2
    && AllSpace(g)
    && if g[0] == '\n' && g[1] == '\n' then
         AllNewlines(g) && (after == [] || after[0] != '\n')
       else
         after == [] || !IsSpace(after[0])
  }

  /** Every piece is free of whitespace pairs. */
  ghost predicate PiecesSolid(parts: seq<string>) {
    forall k :: 0 <= k < |parts| ==> NoGap(parts[k])
  }

  /**
   Each separator starts at the first whitespace pair after the piece before
   it (so that piece does not end in whitespace) and has the regex's shape.
   */
  ghost predicate SeparatorsMatch(parts: seq<string>, gaps: seq<string>)
    requires |parts| == |gaps| + 1
  {
    forall k :: 0 <= k < |gaps| ==>
      EndsSolid(parts[k]) && SeparatorShape(gaps[k], After(parts, gaps, k))
  }

  /**
   Declarative reading of `re.split(r'\n{2,}|\s{2,}', t)`: `t` is the pieces
   interleaved with the separators; no piece holds two whitespace characters
   in a row; each separator starts at the first such pair and has the shape
   the pattern's alternatives give it.
   */
  ghost predicate IsRegexSplit(t: string, parts: seq<string>, gaps: seq<string>) {
    && |parts| == |gaps| + 1
    && Join(parts, gaps) == t
    && PiecesSolid(parts)
    && SeparatorsMatch(parts, gaps)
  }

  /** A split with at least one separator is its first piece and separator before a split of the rest. */
  lemma RegexSplitCons(t: string, a: string, g: string, parts: seq<string>, gaps: seq<string>)
    requires |parts| == |gaps| + 1
    ensures IsRegexSplit(t, [a] + parts, [g] + gaps) <==>
      && t == a + g + Join(parts, gaps)
      && NoGap(a) && EndsSolid(a) && SeparatorShape(g, Join(parts, gaps))
      && IsRegexSplit(Join(parts, gaps), parts, gaps)
  {
    var P, G := [a] + parts, [g] + gaps;
    assert P[1..] == parts && G[1..] == gaps;
    assert Join(P, G) == a + g + Join(parts, gaps);
    PiecesSolidCons(a, parts);
    SeparatorsMatchCons(a, g, parts, gaps);
  }

  lemma PiecesSolidCons(a: string, parts: seq<string>)
    ensures PiecesSolid([a] + parts) <==> NoGap(a) && PiecesSolid(parts)
  {
    var P := [a] + parts;
    assert forall k :: 0 <= k < |parts| ==> P[k + 1] == parts[k];
    if NoGap(a) && PiecesSolid(parts) {
      forall k | 0 <= k < |P| ensures NoGap(P[k]) {
        if k > 0 { assert P[k] == parts[k - 1]; }
      }
    }
    if PiecesSolid(P) {
      assert NoGap(P[0]);
      forall k | 0 <= k < |parts| ensures NoGap(parts[k]) {
        assert NoGap(P[k + 1]);
      }
    }
  }

  lemma SeparatorsMatchCons(a: string, g: string, parts: seq<string>, gaps: seq<string>)
    requires |parts| == |gaps| + 1
    ensures SeparatorsMatch([a] + parts, [g] + gaps) <==>
      EndsSolid(a) && SeparatorShape(g, Join(parts, gaps)) && SeparatorsMatch(parts, gaps)
  {
    var P, G := [a] + parts, [g] + gaps;
    assert P[1..] == parts && G[1..] == gaps;
    assert After(P, G, 0) == Join(parts, gaps);
    forall k | 0 <= k < |gaps|
      ensures P[k + 1] == parts[k] && G[k + 1] == gaps[k]
      ensures After(P, G, k + 1) == After(parts, gaps, k)
    {
      assert P[k + 2..] == parts[k + 1..] && G[k + 2..] == gaps[k + 1..];
    }
    if EndsSolid(a) && SeparatorShape(g, Join(parts, gaps)) && SeparatorsMatch(parts, gaps) {
      forall k | 0 <= k < |G|
        ensures EndsSolid(P[k]) && SeparatorShape(G[k], After(P, G, k))
      {
        if k > 0 {
          assert P[k] == parts[k - 1] && G[k] == gaps[k - 1];
        }
      }
    }
    if SeparatorsMatch(P, G) {
      forall k | 0 <= k < |gaps|
        ensures EndsSolid(parts[k]) && SeparatorShape(gaps[k], After(parts, gaps, k))
      {
        assert EndsSolid(P[k + 1]) && SeparatorShape(G[k + 1], After(P, G, k + 1));
      }
    }
  }

  lemma NoGapPrefix(t: string, p: nat)
    requires p <= |t|
    requires forall q :: 0 <= q < p ==> !Gap(t, q)
    ensures NoGap(t[..p])
  {
    forall i | 0 <= i < p ensures !Gap(t[..p], i) {
      if Gap(t[..p], i) {
        assert t[..p][i] == t[i] && t[..p][i + 1] == t[i + 1];
        assert Gap(t, i);
      }
    }
  }

  /** The first separator `Split` cuts at has the regex's shape. */
  lemma FirstSeparatorShape(t: string, p: nat)
    requires p < |t| && p == FindSeparator(t, 0)
    ensures NoGap(t[..p]) && EndsSolid(t[..p])
    ensures SeparatorShape(t[p..p + SeparatorAt(t, p)], t[p + SeparatorAt(t, p)..])
  {
    NoGapPrefix(t, p);
    if p > 0 {
      assert !Gap(t, p - 1);
      assert t[..p][p - 1] == t[p - 1];
    }
    SeparatorAtShape(t, p);
  }

  /** Any separator the scanner measures has the regex's shape. */
  lemma SeparatorAtShape(t: string, p: nat)
    requires p <= |t| && Gap(t, p)
    ensures SeparatorShape(t[p..p + SeparatorAt(t, p)], t[p + SeparatorAt(t, p)..])
  {
    var n := SeparatorAt(t, p);
    var g := t[p..p + n];
    var after := t[p + n..];
    assert g[0] == t[p] && g[1] == t[p + 1];
    assert after != [] ==> after[0] == t[p + n];
    if NewlinePair(t, p) {
      assert n == NewlineRun(t, p);
      assert AllNewlines(g) && (after == [] || after[0] != '\n');
    } else {
      assert n == SpaceRun(t, p);
      assert after == [] || !IsSpace(after[0]);
    }
  }

  /** `Split` computes a split of the declarative shape. */
  lemma {:induction false} SplitIsRegexSplit(t: string)
    ensures IsRegexSplit(t, Split(t).parts, Split(t).gaps)
    decreases |t|
  {
    var p := FindSeparator(t, 0);
    if p == |t| {
      assert Split(t).parts == [t];
    } else {
      var n := SeparatorAt(t, p);
      var rest := Split(t[p + n..]);
      SplitIsRegexSplit(t[p + n..]);
      FirstSeparatorShape(t, p);
      assert Split(t) == Splitting([t[..p]] + rest.parts, [t[p..p + n]] + rest.gaps);
      RegexSplitCons(t, t[..p], t[p..p + n], rest.parts, rest.gaps);
    }
  }

  /** The declarative shape has exactly one solution, the one `Split` computes. */
  lemma {:induction false} RegexSplitUnique(t: string, parts: seq<string>, gaps: seq<string>)
    requires IsRegexSplit(t, parts, gaps)
    ensures Split(t) == Splitting(parts, gaps)
    decreases |gaps|
  {
    if gaps == [] {
      assert t == parts[0];
      assert PiecesSolid(parts);
      assert NoGap(t);
      assert FindSeparator(t, 0) == |t|;
    } else {
      var a, g, parts', gaps' := parts[0], gaps[0], parts[1..], gaps[1..];
      assert parts == [a] + parts' && gaps == [g] + gaps';
      RegexSplitCons(t, a, g, parts', gaps');
      var after := Join(parts', gaps');
      FirstMatchAtPieceEnd(t, a, g, after);
      RegexSplitUnique(after, parts', gaps');
      var m := |a|;
      assert t[..m] == a && t[m..m + |g|] == g && t[m + |g|..] == after;
    }
  }

  /** When a split starts with piece `a` and separator `g`, the regex's first match is `g`. */
  lemma FirstMatchAtPieceEnd(t: string, a: string, g: string, after: string)
    requires t == a + g + after
    requires NoGap(a) && EndsSolid(a) && SeparatorShape(g, after)
    ensures FindSeparator(t, 0) == |a|
    ensures SeparatorAt(t, |a|) == |g|
  {
    var m := |a|;
    forall q | 0 <= q < m ensures !Gap(t, q) {
      if q + 1 < m {
        assert t[q] == a[q] && t[q + 1] == a[q + 1];
        assert !Gap(a, q);
      } else {
        assert t[q] == a[m - 1];
      }
    }
    assert t[m] == g[0] && t[m + 1] == g[1];
    assert Gap(t, m);
    FindSeparatorLeftmost(t, 0, m);
    assert t[m..m + |g|] == g;
    assert m + |g| < |t| ==> t[m + |g|] == after[0];
    if g[0] == '\n' && g[1] == '\n' {
      assert NewlinePair(t, m);
      NewlineRunUnique(t, m, |g|);
    } else {
      assert !NewlinePair(t, m);
      SpaceRunUnique(t, m, |g|);
    }
  }

  lemma {:induction false} FindSeparatorLeftmost(t: string, from: nat, m: nat)
    requires from <= m < |t| && Gap(t, m)
    requires forall q :: from <= q < m ==> !Gap(t, q)
    ensures FindSeparator(t, from) == m
    decreases m - from
  {
    if from < m {
      FindSeparatorLeftmost(t, from + 1, m);
    }
  }

  lemma {:induction false} NewlineRunUnique(t: string, i: nat, n: nat)
    requires i + n <= |t| && AllNewlines(t[i..i + n])
    requires i + n < |t| ==> t[i + n] != '\n'
    ensures NewlineRun(t, i) == n
    decreases n
  {
    if n > 0 {
      assert t[i] == t[i..i + n][0];
      assert t[i + 1..i + n] == t[i..i + n][1..];
      NewlineRunUnique(t, i + 1, n - 1);
    }
  }

  // ---------------------------------------------------------------------
  // clean_ingredient
  // ---------------------------------------------------------------------

  /** The text `clean_ingredient` splits: markers removed, then trimmed. */
  function Cleaned(s: string): (r: string)
    ensures IsTrimmed(r) && |r| <= |s|
  {
    Strip(RemoveMarker(s))
  }

  /**
   `clean_ingredient(text)`: `(name, amount)` from the first two pieces of the
   split, or None (Python's `(None, None)`) when the split yields one piece.
   */
  function CleanIngredient(s: string): (r: Option<(string, string)>)
    ensures r.None? <==> NoGap(Cleaned(s))
    ensures r.Some? ==>
      exists parts, gaps :: IsRegexSplit(Cleaned(s), parts, gaps) && |parts| >= 2
        && r.value == (Strip(parts[0]), Strip(parts[1]))
    ensures r.Some? ==> var t, name := Cleaned(s), r.value.0;
      && name != []
      && name == t[..|name|]
      && Gap(t, |name|)
      && forall q :: 0 <= q < |name| ==> !Gap(t, q)
  {
    var t := Cleaned(s);
    var sp := Split(t);
    if |sp.parts| >= 2 then
      SplitIsRegexSplit(t);
      NameIsLead(t);
      Some((Strip(sp.parts[0]), Strip(sp.parts[1])))
    else
      None
  }

  /** The first piece of a split with a separator is the text before the leftmost match. */
  lemma SplitHead(t: string)
    requires !NoGap(t)
    ensures FindSeparator(t, 0) < |t|
    ensures Split(t).parts[0] == t[..FindSeparator(t, 0)]
  {
  }

  /**
   In trimmed text with a whitespace pair, the first piece of the split is
   the non-empty text before the first pair and is already trimmed.
   */
  lemma NameIsLead(t: string)
    requires IsTrimmed(t) && !NoGap(t)
    ensures var a := Split(t).parts[0];
      && Strip(a) == a && a != []
      && a == t[..|a|] && Gap(t, |a|)
      && forall q :: 0 <= q < |a| ==> !Gap(t, q)
  {
    SplitHead(t);
    var p := FindSeparator(t, 0);
    var a := t[..p];
    assert !IsSpace(t[0]) && Gap(t, p);
    FirstSeparatorShape(t, p);
    assert a[0] == t[0];
    StripTrimmed(a);
  }

  /** The pair comes from whichever split of the declarative shape the cleaned text has. */
  lemma CleanIngredientOfSplit(s: string, parts: seq<string>, gaps: seq<string>)
    requires IsRegexSplit(Cleaned(s), parts, gaps) && |parts| >= 2
    ensures CleanIngredient(s) == Some((Strip(parts[0]), Strip(parts[1])))
  {
    RegexSplitUnique(Cleaned(s), parts, gaps);
  }

  /** No pair exactly when the split of the cleaned text has fewer than two pieces. */
  lemma CleanIngredientNoneIffOnePiece(s: string)
    ensures CleanIngredient(s).None? <==> |Split(Cleaned(s)).parts| < 2
  {
  }

  /** Blank lines never produce a pair, so the blank check before the call is redundant. */
  lemma CleanIngredientBlank(s: string)
    requires AllSpace(s)
    ensures CleanIngredient(s) == None
  {
    RemoveMarkerKeepsBlank(s);
    StripEmptyIffAllSpace(s);
  }

  /** Trimmed text without a marker is what `clean_ingredient` splits. */
  lemma CleanedUnchanged(t: string)
    requires !HasMarker(t) && IsTrimmed(t)
    ensures Cleaned(t) == t
  {
    StripTrimmed(t);
  }

  /** A piece followed by a well-shaped separator extends a split of what follows. */
  lemma RegexSplitPrepend(a: string, g: string, parts: seq<string>, gaps: seq<string>)
    requires |parts| == |gaps| + 1
    requires NoGap(a) && EndsSolid(a) && SeparatorShape(g, Join(parts, gaps))
    requires IsRegexSplit(Join(parts, gaps), parts, gaps)
    ensures IsRegexSplit(a + g + Join(parts, gaps), [a] + parts, [g] + gaps)
  {
    RegexSplitCons(a + g + Join(parts, gaps), a, g, parts, gaps);
  }

  /** Text without a whitespace pair is its own single piece. */
  lemma RegexSplitSingle(t: string)
    requires NoGap(t)
    ensures IsRegexSplit(t, [t], [])
  {
  }

  /** Two pieces around one well-shaped separator. */
  lemma RegexSplitTwo(name: string, g: string, amount: string)
    requires NoGap(name) && EndsSolid(name) && NoGap(amount) && SeparatorShape(g, amount)
    ensures IsRegexSplit(name + g + amount, [name, amount], [g])
  {
    RegexSplitSingle(amount);
    RegexSplitPrepend(name, g, [amount], []);
  }

  /** Name and amount two spaces apart, with the purchase label at the end. */
  lemma CleanIngredientSpaces(name: string, amount: string)
    requires name == "양파" && amount == "1개"
    ensures CleanIngredient(name + "  " + amount + " " + Marker) == Some((name, amount))
  {
    var t := name + "  " + amount;
    SpacesExampleCleaned(name, amount);
    SpacesExampleSplit(name, amount);
    CleanIngredientOfSplit(t + " " + Marker, [name, amount], ["  "]);
    StripTrimmed(name);
    StripTrimmed(amount);
  }

  lemma SpacesExampleCleaned(name: string, amount: string)
    requires name == "양파" && amount == "1개"
    ensures Cleaned(name + "  " + amount + " " + Marker) == name + "  " + amount
  {
    var t := name + "  " + amount;
    var s := t + " " + Marker;
    assert RemoveMarker(s) == t + " " by {
      assert s == (t + " ") + Marker + "";
      RemoveMarkerDropsOne(t + " ", "");
      assert !HasMarker(t + " ");
    }
    StripUnique(t + " ", 0, t);
  }

  lemma SpacesExampleSplit(name: string, amount: string)
    requires name == "양파" && amount == "1개"
    ensures IsRegexSplit(name + "  " + amount, [name, amount], ["  "])
  {
    assert NoGap(name) && EndsSolid(name) && NoGap(amount);
    assert SeparatorShape("  ", amount);
    RegexSplitTwo(name, "  ", amount);
  }

  /** A leading marker is removed, the text trimmed, and a newline pair separates the two. */
  lemma CleanIngredientMarkerThenNewlines(name: string, amount: string)
    requires name == "AAA" && amount == "BBB"
    ensures CleanIngredient(Marker + "\n" + name + "\n\n" + amount) == Some((name, amount))
  {
    var t := name + "\n\n" + amount;
    MarkerExampleCleaned(name, amount);
    MarkerExampleSplit(name, amount);
    CleanIngredientOfSplit(Marker + "\n" + name + "\n\n" + amount, [name, amount], ["\n\n"]);
    StripTrimmed(name);
    StripTrimmed(amount);
  }

  lemma MarkerExampleCleaned(name: string, amount: string)
    requires name == "AAA" && amount == "BBB"
    ensures Cleaned(Marker + "\n" + name + "\n\n" + amount) == name + "\n\n" + amount
  {
    var t := name + "\n\n" + amount;
    var u := "\n" + t;
    MarkerExampleRemoved(name, amount);
    assert "\n" + name + "\n\n" + amount == u;
    assert RemoveMarker(Marker + "\n" + name + "\n\n" + amount) == u;
    assert u[1..1 + |t|] == t && u[..1] == "\n" && u[1 + |t|..] == [];
    assert IsTrimmed(t) && AllSpace(u[..1]) && AllSpace(u[1 + |t|..]);
    StripUnique(u, 1, t);
  }

  lemma MarkerExampleRemoved(name: string, amount: string)
    requires name == "AAA" && amount == "BBB"
    ensures RemoveMarker(Marker + "\n" + name + "\n\n" + amount) == "\n" + name + "\n\n" + amount
  {
    var u := "\n" + name + "\n\n" + amount;
    assert Marker + "\n" + name + "\n\n" + amount == "" + Marker + u;
    RemoveMarkerDropsOne("", u);
    assert !HasMarker(u);
  }

  lemma MarkerExampleSplit(name: string, amount: string)
    requires name == "AAA" && amount == "BBB"
    ensures IsRegexSplit(name + "\n\n" + amount, [name, amount], ["\n\n"])
  {
    assert NoGap(name) && EndsSolid(name) && NoGap(amount);
    assert SeparatorShape("\n\n", amount);
    RegexSplitTwo(name, "\n\n", amount);
  }

  /** Text with no whitespace at all (such as "no-split-text") does not split. */
  lemma CleanIngredientNoSpace(s: string)
    requires forall i :: 0 <= i < |s| ==> !IsSpace(s[i])
    ensures CleanIngredient(s) == None
  {
    var r := RemoveMarker(s);
    RemoveMarkerKeepsChars(s);
    forall i | 0 <= i < |r| ensures !IsSpace(r[i]) {
      assert r[i] in multiset(r);
      assert r[i] in s;
    }
    StripTrimmed(r);
  }

  /**
   Because `\n{2,}` is tried before `\s{2,}`, newlines followed by spaces
   are two separators with an empty piece between them: the amount comes
   back empty and the caller drops the line.
   */
  lemma CleanIngredientNewlinesThenSpaces(name: string, amount: string)
    requires name == "양파" && amount == "1개"
    ensures CleanIngredient(name + "\n\n  " + amount) == Some((name, ""))
  {
    var t := name + "\n\n  " + amount;
    QuirkExampleCleaned(name, amount);
    QuirkExampleSplit(name, amount);
    CleanIngredientOfSplit(t, [name, "", amount], ["\n\n", "  "]);
    StripTrimmed(name);
    StripTrimmed("");
  }

  lemma QuirkExampleCleaned(name: string, amount: string)
    requires name == "양파" && amount == "1개"
    ensures Cleaned(name + "\n\n  " + amount) == name + "\n\n  " + amount
  {
    var t := name + "\n\n  " + amount;
    assert !HasMarker(t) && IsTrimmed(t);
    CleanedUnchanged(t);
  }

  lemma QuirkExampleSplit(name: string, amount: string)
    requires name == "양파" && amount == "1개"
    ensures IsRegexSplit(name + "\n\n  " + amount, [name, "", amount], ["\n\n", "  "])
  {
    var rest := "  " + amount;
    assert NoGap(amount) && SeparatorShape("  ", amount);
    RegexSplitTwo("", "  ", amount);
    assert "" + "  " + amount == rest;
    assert Join(["", amount], ["  "]) == rest;
    assert NoGap(name) && EndsSolid(name) && SeparatorShape("\n\n", rest);
    RegexSplitPrepend(name, "\n\n", ["", amount], ["  "]);
  }
}
