/**
 * Character and string primitives of the Python runtime that the gateway relies on:
 * `str.isdigit`, `int()`, `str()`, `str.strip`, `str.lower` and substring `in`.
 * Digits and letter case are ASCII; whitespace is the complete set Python's
 * `str.isspace` (and the regular expression class `\s`) accepts.
 */
module Text {

  /** `c.isdigit()` for ASCII text. */
  predicate IsDigit(c: char) { '0' <= c <= '9' }

  predicate AllDigits(s: string) { forall i :: 0 <= i < |s| ==> IsDigit(s[i]) }

  /** `s.isdigit()`: non-empty and made of digits only. */
  predicate IsDigitString(s: string) { |s| > 0 && AllDigits(s) }

  function DigitValue(c: char): (d: nat)
    requires IsDigit(c)
    ensures d < 10
  {
    (c as int) - ('0' as int)
  }

  function DigitChar(d: nat): (c: char)
    requires d < 10
    ensures IsDigit(c) && DigitValue(c) == d
  {
    (('0' as int) + d) as char
  }

  /** `int(s)` for a string of ASCII digits. */
  function DigitsValue(s: string): nat
    requires AllDigits(s)
    decreases |s|
  {
    if s == [] then 0 else DigitsValue(s[..|s| - 1]) * 10 + DigitValue(s[|s| - 1])
  }

  /** A digit string in the form `str()` produces: no leading zero except for "0" itself. */
  predicate IsCanonicalDigits(s: string) {
    IsDigitString(s) && (s[0] == '0' ==> |s| == 1)
  }

  /**
   * The default limit of CPython 3.11 and later on the number of digits `int()` converts
   * from text (and `str()` writes for an integer): past it both raise `ValueError`.
   */
  const MAX_STR_DIGITS: nat := 4300

  /** `int(t)` succeeds on the digit string `t`. */
  predicate IntConverts(t: string) { |t| <= MAX_STR_DIGITS }

  /** `str(n)` for a non-negative integer. */
  function NatToString(n: nat): (s: string)
    ensures IsCanonicalDigits(s)
    ensures DigitsValue(s) == n
    decreases n
  {
    if n < 10 then [DigitChar(n)]
    else
      var prefix := NatToString(n / 10);
      var s := prefix + [DigitChar(n % 10)];
      assert s[..|s| - 1] == prefix;
      s
  }

  /** `str(n)` for any integer. */
  function IntToString(n: int): (s: string)
    ensures |s| > 0
    ensures forall i :: 0 <= i < |s| ==> IsDigit(s[i]) || s[i] == '-'
    ensures n >= 0 ==> IsCanonicalDigits(s) && DigitsValue(s) == n
    ensures n < 0 ==> s[0] == '-' && IsCanonicalDigits(s[1..]) && DigitsValue(s[1..]) == -n
  {
    if n < 0 then "-" + NatToString(-n) else NatToString(n)
  }

  /** Distinct integers have distinct decimal texts. */
  lemma IntToStringInjective(a: int, b: int)
    requires IntToString(a) == IntToString(b)
    ensures a == b
  {
  }

  /** `c.isspace()`: the characters Python treats as whitespace in `strip()` and in `\s`. */
  predicate IsPySpace(c: char) {
    var n := c as int;
    (9 <= n <= 13) || (28 <= n <= 32) || n == 0x85 || n == 0xA0 || n == 0x1680
    || (0x2000 <= n <= 0x200A) || n == 0x2028 || n == 0x2029 || n == 0x202F
    || n == 0x205F || n == 0x3000
  }

  predicate Unpadded(s: string) {
    s == [] || (!IsPySpace(s[0]) && !IsPySpace(s[|s| - 1]))
  }

  /** `s.lstrip()`: drops the whitespace prefix and nothing else. */
  function LStrip(s: string): (r: string)
    ensures |r| <= |s| && r == s[|s| - |r|..]
    ensures forall i :: 0 <= i < |s| - |r| ==> IsPySpace(s[i])
    ensures r == [] || !IsPySpace(r[0])
    decreases |s|
  {
    if |s| > 0 && IsPySpace(s[0]) then LStrip(s[1..]) else s
  }

  /** `s.rstrip()`: drops the whitespace suffix and nothing else. */
  function RStrip(s: string): (r: string)
    ensures |r| <= |s| && r == s[..|r|]
    ensures forall i :: |r| <= i < |s| ==> IsPySpace(s[i])
    ensures r == [] || !IsPySpace(r[|r| - 1])
    decreases |s|
  {
    if |s| > 0 && IsPySpace(s[|s| - 1]) then RStrip(s[..|s| - 1]) else s
  }

  /** `s[i..j]` is what is left of `s` once a whitespace prefix and a whitespace suffix are cut off. */
  predicate StripBounds(s: string, i: int, j: int) {
    && 0 <= i <= j <= |s|
    && (forall k :: 0 <= k < i ==> IsPySpace(s[k]))
    && (forall k :: j <= k < |s| ==> IsPySpace(s[k]))
  }

  /** `s.strip()`. */
  function Strip(s: string): (r: string)
    ensures Unpadded(r)
    ensures forall c :: c in r ==> c in s
    ensures Unpadded(s) ==> r == s
  {
    var l := LStrip(s);
    var r := RStrip(l);
    assert r == [] || r[0] == l[0];
    assert forall c :: c in r ==> c in l;
    r
  }

  /**
   * `strip()` cuts a whitespace prefix and a whitespace suffix off the text and keeps the
   * rest as it is; with `Unpadded` of the result, this pins the result down.
   */
  lemma StripIsSlice(s: string)
    ensures exists i, j :: StripBounds(s, i, j) && Strip(s) == s[i..j]
  {
    StripSlice(s, LStrip(s), RStrip(LStrip(s)));
  }

  lemma StripSlice(s: string, l: string, r: string)
    requires |l| <= |s| && l == s[|s| - |l|..] && forall k :: 0 <= k < |s| - |l| ==> IsPySpace(s[k])
    requires |r| <= |l| && r == l[..|r|] && forall k :: |r| <= k < |l| ==> IsPySpace(l[k])
    ensures exists i, j :: StripBounds(s, i, j) && r == s[i..j]
  {
    var i := |s| - |l|;
    var j := i + |r|;
    forall k | j <= k < |s|
      ensures IsPySpace(s[k])
    {
      assert s[k] == l[k - i];
    }
    assert r == s[i..j];
    assert StripBounds(s, i, j);
  }

  /** What `strip()` drops is whitespace: every other character of the text survives it. */
  lemma StripKeepsNonSpace(s: string)
    ensures forall c :: c in s && !IsPySpace(c) ==> c in Strip(s)
  {
    var r := Strip(s);
    StripIsSlice(s);
    var i, j :| StripBounds(s, i, j) && r == s[i..j];
    forall k | 0 <= k < |s| && !IsPySpace(s[k])
      ensures s[k] in r
    {
      assert r[k - i] == s[k];
    }
  }

  lemma StripIdempotent(s: string)
    ensures Strip(Strip(s)) == Strip(s)
  {
  }

  /** `c.lower()` for ASCII letters. */
  function Lower(c: char): char {
    if 'A' <= c <= 'Z' then ((c as int) + 32) as char else c
  }

  function LowerString(s: string): (r: string)
    ensures |r| == |s| && forall i :: 0 <= i < |s| ==> r[i] == Lower(s[i])
  {
    seq(|s|, i requires 0 <= i < |s| => Lower(s[i]))
  }

  /** `c.upper()` for ASCII letters. */
  function Upper(c: char): char {
    if 'a' <= c <= 'z' then ((c as int) - 32) as char else c
  }

  predicate IsLowerLetters(w: string) { forall i :: 0 <= i < |w| ==> 'a' <= w[i] <= 'z' }

  /** A character lowers to the letter `l` exactly when it is `l` in either case. */
  lemma LowerIsLetter(c: char, l: char)
    requires 'a' <= l <= 'z'
    ensures Lower(c) == l <==> c == l || c == Upper(l)
  {
  }

  /**
   * Lowering a text gives the lower-case word `w` exactly when the text spells `w` letter
   * by letter in any mixture of cases: a case-insensitive comparison.
   */
  lemma LowerMatchesIgnoringCase(t: string, w: string)
    requires IsLowerLetters(w)
    ensures LowerString(t) == w <==>
      |t| == |w| && forall i :: 0 <= i < |t| ==> t[i] == w[i] || t[i] == Upper(w[i])
  {
    if |t| == |w| {
      forall i | 0 <= i < |t|
        ensures LowerString(t)[i] == w[i] <==> t[i] == w[i] || t[i] == Upper(w[i])
      {
        LowerIsLetter(t[i], w[i]);
      }
      if forall i :: 0 <= i < |t| ==> t[i] == w[i] || t[i] == Upper(w[i]) {
        assert LowerString(t) == w;
      }
    }
  }

  /** `sub in s` on strings: `sub` occurs as a contiguous piece of `s`. */
  predicate Contains(s: string, sub: string)
    decreases |s|
  {
    sub <= s || (|s| > 0 && Contains(s[1..], sub))
  }

  lemma ContainsWitness(s: string, sub: string, k: nat)
    requires k + |sub| <= |s| && s[k..k + |sub|] == sub
    ensures Contains(s, sub)
    decreases k
  {
    if k > 0 {
      assert s[1..][k - 1..k - 1 + |sub|] == sub;
      ContainsWitness(s[1..], sub, k - 1);
    }
  }

  /** The string `s` as bytes, for the ASCII literals of the source (`b"..."`). */
  newtype byte = x: int | 0 <= x < 256

  function AsciiBytes(s: string): (b: seq<byte>)
    requires forall i :: 0 <= i < |s| ==> (s[i] as int) < 128
    ensures |b| == |s| && forall i :: 0 <= i < |s| ==> b[i] as int == s[i] as int
  {
    seq(|s|, i requires 0 <= i < |s| => (s[i] as int) as byte)
  }
}
