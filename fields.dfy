/**
 * Where a parsed object keeps its reading and its tag: the key priority of
 * `render_put` (exact `Temperature`, then `temperature`, then the first key naming a
 * temperature in any case) and the `mac`-or-`MAC` tag lookup.
 */
module Fields {
  import opened Wrappers
  import opened Text
  import opened Json

  const EXACT_KEY: string := "Temperature"
  const LOWER_KEY: string := "temperature"

  /** `"temperature" in k.lower()`. */
  predicate NamesTemperature(k: string) {
    Contains(LowerString(k), LOWER_KEY)
  }

  /**
   * A key names a temperature when `temperature`, in any mixture of letter cases, occurs
   * anywhere in it (`airTemperature`, `TEMPERATURE_C`).
   */
  lemma NamesTemperatureAnyCase(k: string, i: nat)
    requires i + |LOWER_KEY| <= |k|
    requires forall m :: 0 <= m < |LOWER_KEY| ==> k[i + m] == LOWER_KEY[m] || k[i + m] == Upper(LOWER_KEY[m])
    ensures NamesTemperature(k)
  {
    var n := |LOWER_KEY|;
    var piece := k[i..i + n];
    LowerMatchesIgnoringCase(piece, LOWER_KEY);
    assert LowerString(piece) == LOWER_KEY;
    assert LowerString(k)[i..i + n] == LowerString(piece);
    ContainsWitness(LowerString(k), LOWER_KEY, i);
  }

  /** The keys of the pairs, in document order, repeats included. */
  function PairKeys(ps: seq<(string, JValue)>): (ks: seq<string>)
    ensures |ks| == |ps| && forall i :: 0 <= i < |ps| ==> ks[i] == ps[i].0
  {
    seq(|ps|, i requires 0 <= i < |ps| => ps[i].0)
  }

  /** The position of the first occurrence of `k` in `ks`. */
  function FirstIndex(ks: seq<string>, k: string): (n: nat)
    requires k in ks
    ensures n < |ks| && ks[n] == k && forall m :: 0 <= m < n ==> ks[m] != k
  {
    if ks[0] == k then 0 else 1 + FirstIndex(ks[1..], k)
  }

  /** Appending a key leaves the first occurrence of every earlier key where it was. */
  lemma FirstIndexAppend(ks: seq<string>, k: string, x: string)
    requires x in ks
    ensures FirstIndex(ks + [k], x) == FirstIndex(ks, x)
  {
    var n, n' := FirstIndex(ks, x), FirstIndex(ks + [k], x);
    assert (ks + [k])[n] == x;
    assert n' < |ks| ==> ks[n'] == x;
  }

  /**
   * Each key once, in the order of its first pair: the order of `dict.keys()`, where a
   * repeated key keeps the position of its first insertion.
   */
  function Dedup(ks: seq<string>): (r: seq<string>)
    ensures forall k :: k in r <==> k in ks
    ensures forall i, j :: 0 <= i < j < |r| ==> r[i] != r[j]
    ensures forall i, j :: 0 <= i < j < |r| ==> FirstIndex(ks, r[i]) < FirstIndex(ks, r[j])
    decreases |ks|
  {
    if ks == [] then []
    else
      var p := ks[..|ks| - 1];
      var d := Dedup(p);
      var k := ks[|ks| - 1];
      assert ks == p + [k];
      forall x | x in p
        ensures FirstIndex(ks, x) == FirstIndex(p, x)
      {
        FirstIndexAppend(p, k, x);
      }
      if k in d then d
      else
        assert FirstIndex(ks, k) == |p|;
        d + [k]
  }

  /** `payload.keys()`. */
  function DictKeys(ps: seq<(string, JValue)>): seq<string> {
    Dedup(PairKeys(ps))
  }

  /** The `for k in ...: if "temperature" in k.lower(): ... break` loop: the first naming key. */
  function FirstNamingKey(ks: seq<string>): (r: Option<string>)
    ensures r.None? ==> forall i :: 0 <= i < |ks| ==> !NamesTemperature(ks[i])
    ensures r.Some? ==> NamesTemperature(r.value)
    ensures r.Some? ==>
      exists i :: 0 <= i < |ks| && ks[i] == r.value && forall j :: 0 <= j < i ==> !NamesTemperature(ks[j])
  {
    if ks == [] then None
    else if NamesTemperature(ks[0]) then Some(ks[0])
    else
      var r := FirstNamingKey(ks[1..]);
      assert forall i :: 1 <= i < |ks| ==> ks[i] == ks[1..][i - 1];
      r
  }

  /**
   * The value `render_put` reads, `None` when no key applies. A key holding `null`
   * gives `Some(JNull)`: the lookup commits to that key and does not try the next one.
   */
  function FindTemperature(ps: seq<(string, JValue)>): (r: Option<JValue>)
    ensures HasKey(ps, EXACT_KEY) ==> r == Get(ps, EXACT_KEY)
    ensures !HasKey(ps, EXACT_KEY) && HasKey(ps, LOWER_KEY) ==> r == Get(ps, LOWER_KEY)
    ensures r.Some? <==>
      HasKey(ps, EXACT_KEY) || exists i :: 0 <= i < |ps| && NamesTemperature(ps[i].0)
    ensures !HasKey(ps, EXACT_KEY) && !HasKey(ps, LOWER_KEY) && r.Some? ==>
      exists i :: 0 <= i < |ps| && r == Get(ps, ps[i].0) && NamesTemperature(ps[i].0)
        && forall j :: 0 <= j < i ==> !NamesTemperature(ps[j].0)
  {
    if HasKey(ps, EXACT_KEY) then Get(ps, EXACT_KEY)
    else if HasKey(ps, LOWER_KEY) then
      assert NamesTemperature(LOWER_KEY) by { assert LOWER_KEY <= LowerString(LOWER_KEY); }
      Get(ps, LOWER_KEY)
    else
      DocumentOrderIsDictOrder(ps);
      match FirstNamingKey(DictKeys(ps))
      case None => None
      case Some(k) =>
        assert k in PairKeys(ps);
        Get(ps, k)
  }

  /**
   * Scanning `payload.keys()` finds the same key as scanning the pairs in document
   * order: a key's first pair is its position in the dict.
   */
  lemma {:induction false} DocumentOrderIsDictOrder(ps: seq<(string, JValue)>)
    ensures FirstNamingKey(DictKeys(ps)) == FirstNamingKey(PairKeys(ps))
  {
    DedupKeepsFirstNaming(PairKeys(ps));
  }

  lemma {:induction false} DedupKeepsFirstNaming(ks: seq<string>)
    ensures FirstNamingKey(Dedup(ks)) == FirstNamingKey(ks)
    decreases |ks|
  {
    if ks != [] {
      var p := ks[..|ks| - 1];
      var k := ks[|ks| - 1];
      assert ks == p + [k];
      DedupKeepsFirstNaming(p);
      FirstNamingAppend(p, k);
      var d := Dedup(p);
      if k !in d {
        FirstNamingAppend(d, k);
      } else if FirstNamingKey(p).None? {
        assert k in p;
      }
    }
  }

  lemma {:induction false} FirstNamingAppend(ks: seq<string>, k: string)
    ensures FirstNamingKey(ks + [k]) ==
      if FirstNamingKey(ks).Some? then FirstNamingKey(ks)
      else if NamesTemperature(k) then Some(k) else None
    decreases |ks|
  {
    if ks != [] {
      assert (ks + [k])[1..] == ks[1..] + [k];
      FirstNamingAppend(ks[1..], k);
    }
  }

  /** `payload.get("mac") or payload.get("MAC")`. */
  function FindMac(ps: seq<(string, JValue)>): Option<JValue> {
    if TruthyOpt(Get(ps, "mac")) then Get(ps, "mac") else Get(ps, "MAC")
  }

  /** A tag is present exactly when `mac` or `MAC` holds a truthy value, and `mac` wins. */
  lemma MacPresence(ps: seq<(string, JValue)>)
    ensures TruthyOpt(FindMac(ps)) <==> TruthyOpt(Get(ps, "mac")) || TruthyOpt(Get(ps, "MAC"))
    ensures TruthyOpt(Get(ps, "mac")) ==> FindMac(ps) == Get(ps, "mac")
    ensures !TruthyOpt(Get(ps, "mac")) ==> FindMac(ps) == Get(ps, "MAC")
  {
  }

  /** A `null` under the chosen key is final, even when a later key holds a number. */
  lemma NullCommits(ps: seq<(string, JValue)>)
    requires Get(ps, EXACT_KEY) == Some(JNull)
    ensures FindTemperature(ps) == Some(JNull)
  {
  }
}
