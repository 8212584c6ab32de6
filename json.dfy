/**
 * The Python value `json.loads` returns, restricted to integer numbers. An object keeps
 * the pairs of the document in document order; looking a key up follows the `dict`
 * that `json.loads` builds from them: the last pair with that key supplies its value.
 */
module Json {
  import opened Wrappers
  import opened Text

  datatype JValue =
    | JNull
    | JBool(b: bool)
    | JInt(n: int)
    | JStr(s: string)
    | JArr(items: seq<JValue>)
    | JObj(pairs: seq<(string, JValue)>)

  /**
   * What `json.loads(s)` did: returned a value, raised `JSONDecodeError`, or raised some
   * other exception (`ValueError` for a number past the digit limit, `RecursionError`
   * for nesting too deep), which no `except json.JSONDecodeError` catches.
   */
  datatype Loaded = Parsed(value: JValue) | DecodeError | Raised

  /** `k in d`. */
  predicate HasKey(ps: seq<(string, JValue)>, k: string) {
    exists i :: 0 <= i < |ps| && ps[i].0 == k
  }

  /** The index of the pair that supplies `d[k]`: the last one with key `k`. */
  function LastIndex(ps: seq<(string, JValue)>, k: string): (r: Option<nat>)
    ensures r.Some? <==> HasKey(ps, k)
    ensures r.Some? ==> r.value < |ps| && ps[r.value].0 == k
    ensures r.Some? ==> forall j :: r.value < j < |ps| ==> ps[j].0 != k
    decreases |ps|
  {
    if ps == [] then None
    else if ps[|ps| - 1].0 == k then Some(|ps| - 1)
    else
      var r := LastIndex(ps[..|ps| - 1], k);
      assert HasKey(ps, k) ==> HasKey(ps[..|ps| - 1], k) by {
        if HasKey(ps, k) {
          var i :| 0 <= i < |ps| && ps[i].0 == k;
          assert ps[..|ps| - 1][i].0 == k;
        }
      }
      r
  }

  /** `d.get(k)`: the value of the last pair with key `k`, as the decoder overwrites earlier ones. */
  function Get(ps: seq<(string, JValue)>, k: string): (r: Option<JValue>)
    ensures r.Some? <==> HasKey(ps, k)
    ensures r.Some? ==>
      exists i :: 0 <= i < |ps| && ps[i] == (k, r.value) && forall j :: i < j < |ps| ==> ps[j].0 != k
  {
    match LastIndex(ps, k)
    case None => None
    case Some(i) => Some(ps[i].1)
  }

  /** Python truthiness of a JSON value: `None`, `False`, `0`, `""`, `[]`, `{}` are falsy. */
  function Truthy(j: JValue): (t: bool)
    ensures !t <==> j in {JNull, JBool(false), JInt(0), JStr(""), JArr([]), JObj([])}
  {
    match j
    case JNull => false
    case JBool(b) => b
    case JInt(n) => n != 0
    case JStr(s) => s != ""
    case JArr(xs) => xs != []
    case JObj(ps) => ps != []
  }

  /** Truthiness of the result of `d.get(k)`, where a missing key gives `None`. */
  predicate TruthyOpt(o: Option<JValue>) {
    o.Some? && Truthy(o.value)
  }

  function HexDigit(d: nat): (c: char)
    requires d < 16
  {
    if d < 10 then DigitChar(d) else (('a' as int) + d - 10) as char
  }

  /** One character inside the quotes of `repr(s)`, `q` being the quote `repr` chose. */
  function EscapeChar(c: char, q: char): string {
    if c == q || c == '\\' then ['\\', c]
    else if c == '\t' then "\\t"
    else if c == '\n' then "\\n"
    else if c == '\r' then "\\r"
    else if (c as int) < 32 || (c as int) == 127 then
      "\\x" + [HexDigit((c as int) / 16), HexDigit((c as int) % 16)]
    else [c]
  }

  function EscapeString(s: string, q: char): string
    decreases |s|
  {
    if s == [] then "" else EscapeChar(s[0], q) + EscapeString(s[1..], q)
  }

  /** `repr(s)`: single quotes unless the text holds a single quote and no double quote. */
  function StrRepr(s: string): string {
    var q := if '\'' in s && '"' !in s then '"' else '\'';
    [q] + EscapeString(s, q) + [q]
  }

  /** `repr(v)`, which is also what `str()` gives for every value but a string. */
  function Repr(j: JValue): string
    decreases j, 2
  {
    match j
    case JNull => "None"
    case JBool(b) => if b then "True" else "False"
    case JInt(n) => IntToString(n)
    case JStr(s) => StrRepr(s)
    case JArr(xs) => "[" + ListRepr(xs) + "]"
    case JObj(ps) => "{" + DictRepr(ps, 0, true) + "}"
  }

  function ListRepr(xs: seq<JValue>): string
    decreases xs, 1
  {
    if xs == [] then ""
    else if |xs| == 1 then Repr(xs[0])
    else Repr(xs[0]) + ", " + ListRepr(xs[1..])
  }

  /** `k` first occurs at index `i`, so the dict lists it at this position. */
  predicate FirstOccurrence(ps: seq<(string, JValue)>, i: nat)
    requires i < |ps|
  {
    forall j :: 0 <= j < i ==> ps[j].0 != ps[i].0
  }

  /**
   * The items of the dict from position `i` on: each key once, at its first position,
   * with the value of its last pair.
   */
  function DictRepr(ps: seq<(string, JValue)>, i: nat, first: bool): string
    requires i <= |ps|
    decreases JObj(ps), 0, |ps| - i
  {
    if i == |ps| then ""
    else if !FirstOccurrence(ps, i) then DictRepr(ps, i + 1, first)
    else
      var k := LastIndex(ps, ps[i].0).value;
      var v := ps[k].1;
      assert ps[k] in ps;
      (if first then "" else ", ") + StrRepr(ps[i].0) + ": " + Repr(v)
      + DictRepr(ps, i + 1, false)
  }

  /** `str(v)`: a string unchanged, any other value as its `repr`. */
  function PyStr(j: JValue): (r: string)
    ensures j.JStr? ==> r == j.s
    ensures j.JInt? ==> r == IntToString(j.n)
  {
    if j.JStr? then j.s else Repr(j)
  }
}
