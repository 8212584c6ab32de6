/**
 * The two recoveries tried on text that is not JSON: `payload_str.isdigit()` and
 * `re.search(r'["\']?Temperature["\']?\s*:\s*(\d+)', payload_str, re.IGNORECASE)`.
 */
module Recovery {
  import opened Wrappers
  import opened Text

  /** The field name of the pattern, compared after lower-casing (`re.IGNORECASE`). */
  const FIELD: string := "temperature"

  predicate IsQuote(c: char) { c == '"' || c == '\'' }

  /** The field name, in any letter case, starts at position `a`. */
  predicate FieldAt(s: string, a: nat) {
    a + |FIELD| <= |s| && LowerString(s[a..a + |FIELD|]) == FIELD
  }

  /**
   * `re.IGNORECASE` on the field name: each of its letters matches itself or its
   * upper-case form, and nothing else.
   */
  lemma FieldAtIgnoresCase(s: string, a: nat)
    ensures FieldAt(s, a) <==>
      a + |FIELD| <= |s| && forall i :: 0 <= i < |FIELD| ==> s[a + i] == FIELD[i] || s[a + i] == Upper(FIELD[i])
  {
    if a + |FIELD| <= |s| {
      var t := s[a..a + |FIELD|];
      LowerMatchesIgnoringCase(t, FIELD);
      assert forall i :: 0 <= i < |FIELD| ==> t[i] == s[a + i];
    }
  }

  predicate Spaces(s: string) { forall i :: 0 <= i < |s| ==> IsPySpace(s[i]) }

  /** The end of the (greedy) run of `\s` starting at `k`. */
  function SkipSpaces(s: string, k: nat): (j: nat)
    requires k <= |s|
    ensures k <= j <= |s| && Spaces(s[k..j])
    ensures j < |s| ==> !IsPySpace(s[j])
    decreases |s| - k
  {
    if k < |s| && IsPySpace(s[k]) then
      var j := SkipSpaces(s, k + 1);
      assert s[k..j] == [s[k]] + s[k + 1..j];
      j
    else k
  }

  /** The end of the (greedy) run of `\d` starting at `k`. */
  function SkipDigits(s: string, k: nat): (j: nat)
    requires k <= |s|
    ensures k <= j <= |s| && AllDigits(s[k..j])
    ensures j < |s| ==> !IsDigit(s[j])
    decreases |s| - k
  {
    if k < |s| && IsDigit(s[k]) then
      var j := SkipDigits(s, k + 1);
      assert s[k..j] == [s[k]] + s[k + 1..j];
      j
    else k
  }

  /** An optional quote at `k`: `["\']?`. */
  function QuoteSkip(s: string, k: nat): (j: nat)
    requires k <= |s|
    ensures j <= |s|
  {
    if k < |s| && IsQuote(s[k]) then k + 1 else k
  }

  /**
   * `re.match` of the pattern at position `i`: the text of group 1 when it matches.
   * The pattern leaves no real choice to backtracking: a quote cannot start the field
   * name, a quote after the name cannot be a space or the colon, and a space cannot be
   * a digit, so each optional or repeated part takes exactly what is there.
   */
  function MatchAt(s: string, i: nat): (r: Option<string>)
    requires i <= |s|
    ensures r.Some? ==> IsDigitString(r.value) && |r.value| <= |s| - i
  {
    var a := QuoteSkip(s, i);
    if !FieldAt(s, a) then None else ColonAt(s, QuoteSkip(s, a + |FIELD|))
  }

  /** `\s*:\s*(\d+)` from position `c`. */
  function ColonAt(s: string, c: nat): (r: Option<string>)
    requires c <= |s|
    ensures r.Some? ==> IsDigitString(r.value) && |r.value| <= |s| - c
  {
    var d := SkipSpaces(s, c);
    if !(d < |s| && s[d] == ':') then None else GroupAt(s, SkipSpaces(s, d + 1))
  }

  /** `(\d+)` from position `e`, greedy: what `match.group(1)` captured. */
  function GroupAt(s: string, e: nat): (r: Option<string>)
    requires e <= |s|
    ensures r.Some? ==> IsDigitString(r.value) && |r.value| <= |s| - e
  {
    var f := SkipDigits(s, e);
    if f == e then None else Some(s[e..f])
  }

  /**
   * The pattern read as a language: `s[i..f]` is optional quote, field name in any case,
   * optional quote, spaces, colon, spaces, and the digits `s[e..f]`.
   */
  predicate MatchWith(s: string, i: nat, a: nat, c: nat, d: nat, e: nat, f: nat) {
    && i <= a <= i + 1 && a + |FIELD| <= c <= a + |FIELD| + 1 && c <= d < e <= f <= |s|
    && (a == i + 1 ==> IsQuote(s[i]))
    && FieldAt(s, a)
    && (c == a + |FIELD| + 1 ==> IsQuote(s[a + |FIELD|]))
    && Spaces(s[c..d]) && s[d] == ':' && Spaces(s[d + 1..e])
    && e < f && AllDigits(s[e..f])
  }

  /** A reading whose digit run cannot be extended: the one the greedy `(\d+)` takes. */
  predicate GreedyMatch(s: string, i: nat, a: nat, c: nat, d: nat, e: nat, f: nat) {
    MatchWith(s, i, a, c, d, e, f) && (f == |s| || !IsDigit(s[f]))
  }

  /** Some way of reading the pattern matches the text from position `i` on. */
  ghost predicate PatternMatchesAt(s: string, i: nat) {
    exists a, c, d, e, f :: MatchWith(s, i, a, c, d, e, f)
  }

  lemma MatchAtIsPattern(s: string, i: nat)
    requires i <= |s|
    ensures MatchAt(s, i).Some? <==> PatternMatchesAt(s, i)
  {
    if MatchAt(s, i).Some? { MatchAtSound(s, i); }
    if PatternMatchesAt(s, i) {
      var a: nat, c: nat, d: nat, e: nat, f: nat :| MatchWith(s, i, a, c, d, e, f);
      MatchAtComplete(s, i, a, c, d, e, f);
    }
  }

  lemma MatchAtSound(s: string, i: nat)
    requires i <= |s| && MatchAt(s, i).Some?
    ensures PatternMatchesAt(s, i)
    ensures exists a: nat, c: nat, d: nat, e: nat, f: nat ::
      GreedyMatch(s, i, a, c, d, e, f) && MatchAt(s, i) == Some(s[e..f])
  {
    var a := QuoteSkip(s, i);
    var c := QuoteSkip(s, a + |FIELD|);
    var d := SkipSpaces(s, c);
    var e := SkipSpaces(s, d + 1);
    var f := SkipDigits(s, e);
    assert MatchWith(s, i, a, c, d, e, f);
    assert GreedyMatch(s, i, a, c, d, e, f);
  }

  /** The group of a reading whose digits run to the end of the run is what `MatchAt` captures. */
  lemma MatchAtGroup(s: string, i: nat, a: nat, c: nat, d: nat, e: nat, f: nat)
    requires GreedyMatch(s, i, a, c, d, e, f)
    ensures MatchAt(s, i) == Some(s[e..f])
  {
    FieldStartsUnquoted(s, a);
    assert QuoteSkip(s, i) == a;
    var b := a + |FIELD|;
    if IsQuote(s[b]) { ColonRunStartsUnquoted(s, c, d); }
    assert QuoteSkip(s, b) == c;
    ColonAtGroup(s, c, d, e, f);
  }

  lemma ColonAtGroup(s: string, c: nat, d: nat, e: nat, f: nat)
    requires c <= d < e < f <= |s| && Spaces(s[c..d]) && s[d] == ':' && Spaces(s[d + 1..e])
    requires AllDigits(s[e..f]) && (f == |s| || !IsDigit(s[f]))
    ensures ColonAt(s, c) == Some(s[e..f])
  {
    SpacesEnd(s, c, d);
    DigitRunStarts(s, e, f);
    SpacesEnd(s, d + 1, e);
    DigitsEnd(s, e, f);
  }

  /** Every reading of the pattern is the one `MatchAt` takes. */
  lemma MatchAtComplete(s: string, i: nat, a: nat, c: nat, d: nat, e: nat, f: nat)
    requires MatchWith(s, i, a, c, d, e, f)
    ensures MatchAt(s, i).Some?
  {
    FieldStartsUnquoted(s, a);
    assert QuoteSkip(s, i) == a;
    var b := a + |FIELD|;
    if IsQuote(s[b]) { ColonRunStartsUnquoted(s, c, d); }
    assert QuoteSkip(s, b) == c;
    ColonAtComplete(s, c, d, e, f);
  }

  lemma ColonAtComplete(s: string, c: nat, d: nat, e: nat, f: nat)
    requires c <= d < e < f <= |s| && Spaces(s[c..d]) && s[d] == ':' && Spaces(s[d + 1..e])
    requires AllDigits(s[e..f])
    ensures ColonAt(s, c).Some?
  {
    SpacesEnd(s, c, d);
    DigitRunStarts(s, e, f);
    SpacesEnd(s, d + 1, e);
  }

  lemma FieldStartsUnquoted(s: string, a: nat)
    requires FieldAt(s, a)
    ensures !IsQuote(s[a])
  {
    assert LowerString(s[a..a + |FIELD|])[0] == Lower(s[a]);
  }

  lemma DigitRunStarts(s: string, e: nat, f: nat)
    requires e < f <= |s| && AllDigits(s[e..f])
    ensures !IsPySpace(s[e]) && GroupAt(s, e).Some?
  {
    assert s[e..f][0] == s[e];
  }

  /** What spaces and then a colon start with is not a quote. */
  lemma ColonRunStartsUnquoted(s: string, c: nat, d: nat)
    requires c <= d < |s| && Spaces(s[c..d]) && s[d] == ':'
    ensures !IsQuote(s[c])
  {
    if c < d { assert s[c..d][0] == s[c]; }
  }

  /** A run of digits followed by a non-digit, or by the end, ends where the greedy `\d+` ends. */
  lemma DigitsEnd(s: string, k: nat, j: nat)
    requires k <= j <= |s| && AllDigits(s[k..j]) && (j == |s| || !IsDigit(s[j]))
    ensures SkipDigits(s, k) == j
    decreases j - k
  {
    if k < j {
      assert s[k..j][0] == s[k];
      assert s[k + 1..j] == s[k..j][1..];
      DigitsEnd(s, k + 1, j);
    }
  }

  /** A run of spaces followed by a non-space ends where the greedy `\s*` ends. */
  lemma SpacesEnd(s: string, k: nat, j: nat)
    requires k <= j < |s| && Spaces(s[k..j]) && !IsPySpace(s[j])
    ensures SkipSpaces(s, k) == j
    decreases j - k
  {
    if k < j {
      assert s[k..j][0] == s[k];
      assert s[k + 1..j] == s[k..j][1..];
      SpacesEnd(s, k + 1, j);
    }
  }

  /** `re.search` from position `i`: group 1 of the leftmost match, if any. */
  function Search(s: string, i: nat): Option<string>
    requires i <= |s|
    decreases |s| - i
  {
    if MatchAt(s, i).Some? then MatchAt(s, i)
    else if i == |s| then None
    else Search(s, i + 1)
  }

  /** `Search` finds a match exactly when one starts at or after `i`. */
  lemma SearchFinds(s: string, i: nat)
    requires i <= |s|
    ensures Search(s, i).Some? <==> exists k :: i <= k <= |s| && MatchAt(s, k).Some?
  {
    if Search(s, i).Some? {
      var k := SearchLeftmost(s, i);
    }
    if exists k :: i <= k <= |s| && MatchAt(s, k).Some? {
      var k :| i <= k <= |s| && MatchAt(s, k).Some?;
      SearchReaches(s, i, k);
    }
  }

  /** A match at `k` is found by every search that starts at or before `k`. */
  lemma {:induction false} SearchReaches(s: string, i: nat, k: nat)
    requires i <= k <= |s| && MatchAt(s, k).Some?
    ensures Search(s, i).Some?
    decreases k - i
  {
    if i < k && MatchAt(s, i).None? {
      SearchReaches(s, i + 1, k);
    }
  }

  /** What `Search` returns is the group of the leftmost match. */
  lemma {:induction false} SearchLeftmost(s: string, i: nat) returns (k: nat)
    requires i <= |s| && Search(s, i).Some?
    ensures i <= k <= |s| && MatchAt(s, k) == Search(s, i)
    ensures forall j :: i <= j < k ==> MatchAt(s, j).None?
    decreases |s| - i
  {
    if MatchAt(s, i).Some? {
      k := i;
    } else {
      assert Search(s, i) == Search(s, i + 1);
      k := SearchLeftmost(s, i + 1);
      forall j | i <= j < k
        ensures MatchAt(s, j).None?
      {
        if j != i {
          assert i + 1 <= j < k;
        }
      }
    }
  }

  /** `re.search(...)` over the whole text found a `Temperature` field. */
  predicate FindsField(s: string) { Search(s, 0).Some? }

  lemma FindsFieldIffPattern(s: string)
    ensures FindsField(s) <==> exists k :: 0 <= k <= |s| && PatternMatchesAt(s, k)
  {
    SearchFinds(s, 0);
    if FindsField(s) {
      var k :| 0 <= k <= |s| && MatchAt(s, k).Some?;
      MatchAtIsPattern(s, k);
    }
    if exists k :: 0 <= k <= |s| && PatternMatchesAt(s, k) {
      var k :| 0 <= k <= |s| && PatternMatchesAt(s, k);
      MatchAtIsPattern(s, k);
    }
  }

  /** A text of digits alone never holds the field name. */
  lemma DigitsHaveNoField(s: string)
    requires AllDigits(s)
    ensures !FindsField(s)
  {
    forall k | 0 <= k <= |s|
      ensures MatchAt(s, k).None?
    {
      var a := QuoteSkip(s, k);
      if FieldAt(s, a) {
        assert false;
      }
    }
    SearchFinds(s, 0);
  }

  /** The malformed-document example `Temperature: 80` is recovered with value 80. */
  lemma MalformedExample()
    ensures Search("Temperature: 80", 0) == Some("80") && DigitsValue("80") == 80
  {
    var s := "Temperature: 80";
    assert QuoteSkip(s, 0) == 0;
    assert FieldAt(s, 0) by { assert LowerString(s[0..11]) == FIELD; }
    assert QuoteSkip(s, 11) == 11;
    assert GroupAt(s, 13) == Some("80") by {
      assert SkipDigits(s, 13) == 15;
      assert s[13..15] == "80";
    }
    assert DigitsValue("80") == 80 by { assert "80"[..1] == "8"; }
    assert ColonAt(s, 11) == Some("80") by {
      assert SkipSpaces(s, 11) == 11;
      assert SkipSpaces(s, 12) == 13;
    }
    assert MatchAt(s, 0) == Some("80");
  }
}
