/**
 * The two character filters of the payload sanitisation in `render_put`:
 * `.replace("\x00", "")` and keeping only `ord(ch) >= 32 or ch in "\n\r\t"`.
 */
module Clean {
  import opened Text

  /** A character the filter keeps. */
  predicate Printable(c: char) { (c as int) >= 32 || c == '\n' || c == '\r' || c == '\t' }

  /** No NUL and no control character below 32 other than newline, carriage return, tab. */
  predicate NoControl(s: string) { forall i :: 0 <= i < |s| ==> Printable(s[i]) }

  /** `s.replace("\x00", "")`. */
  function RemoveNul(s: string): (r: string)
    ensures '\0' !in r
    ensures forall c :: c in r <==> c in s && c != '\0'
    ensures '\0' !in s ==> r == s
    decreases |s|
  {
    if s == [] then []
    else
      var rest := RemoveNul(s[1..]);
      assert s == [s[0]] + s[1..];
      if s[0] == '\0' then rest else [s[0]] + rest
  }

  /** `"".join(ch for ch in s if ord(ch) >= 32 or ch in "\n\r\t")`. */
  function KeepPrintable(s: string): (r: string)
    ensures NoControl(r)
    ensures forall c :: c in r <==> c in s && Printable(c)
    ensures NoControl(s) ==> r == s
    decreases |s|
  {
    if s == [] then []
    else
      var rest := KeepPrintable(s[1..]);
      assert s == [s[0]] + s[1..];
      if Printable(s[0]) then [s[0]] + rest else rest
  }

  /** The NUL filter works character by character: it keeps every character but NUL, in order. */
  lemma RemoveNulChar(c: char)
    ensures RemoveNul([c]) == if c == '\0' then [] else [c]
  {
  }

  lemma {:induction false} RemoveNulConcat(a: string, b: string)
    ensures RemoveNul(a + b) == RemoveNul(a) + RemoveNul(b)
    decreases |a|
  {
    if a == [] {
      assert a + b == b;
    } else {
      assert (a + b)[1..] == a[1..] + b;
      RemoveNulConcat(a[1..], b);
    }
  }

  /** So does the control-character filter: it keeps every printable character, in order. */
  lemma KeepPrintableChar(c: char)
    ensures KeepPrintable([c]) == if Printable(c) then [c] else []
  {
  }

  lemma {:induction false} KeepPrintableConcat(a: string, b: string)
    ensures KeepPrintable(a + b) == KeepPrintable(a) + KeepPrintable(b)
    decreases |a|
  {
    if a == [] {
      assert a + b == b;
    } else {
      assert (a + b)[1..] == a[1..] + b;
      KeepPrintableConcat(a[1..], b);
    }
  }

  /** Removing characters by a predicate cannot bring in a character the predicate rejects. */
  lemma NoControlByMembership(r: string, s: string)
    requires NoControl(s)
    requires forall c :: c in r ==> c in s
    ensures NoControl(r)
  {
    forall i | 0 <= i < |r| ensures Printable(r[i]) {
      assert r[i] in s;
    }
  }

  /** NUL is a control character. */
  lemma NoControlHasNoNul(s: string)
    requires NoControl(s)
    ensures '\0' !in s
  {
  }

  lemma NoControlConcat(a: string, b: string)
    requires NoControl(a) && NoControl(b)
    ensures NoControl(a + b)
  {
  }
}
