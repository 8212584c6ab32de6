/**
 * What a write request can answer and what it stores, shared by both revisions of the
 * server, together with the handling of a parsed JSON object, which both revisions do
 * with the same code: key lookup, tag lookup, `verify_mac`, append.
 */
module Ingest {
  import opened Wrappers
  import opened Text
  import opened Json
  import opened Auth
  import opened Fields

  /** The answer to a write; `Crash` is an exception that leaves `render_put`. */
  datatype Response = Ok | InvalidJson | MacMissing | InvalidMac | Error | Crash

  /** The payload bytes of the reply message; a crash has none of its own. */
  function Body(r: Response): (b: Option<string>)
    ensures b.None? <==> r == Crash
    ensures b.Some? ==> (b.value == "OK" <==> r == Ok)
    ensures b.Some? && r != Ok ==> "ERROR" <= b.value
  {
    match r
    case Ok => Some("OK")
    case InvalidJson => Some("ERROR: invalid JSON")
    case MacMissing => Some("ERROR: MAC missing")
    case InvalidMac => Some("ERROR: invalid MAC")
    case Error => Some("ERROR")
    case Crash => None
  }

  /** Distinct answers carry distinct payloads, so the sender can tell every answer apart. */
  lemma BodyInjective(r1: Response, r2: Response)
    requires Body(r1) == Body(r2)
    ensures r1 == r2
  {
  }

  /** The answer and the value appended to the log, if any. */
  datatype Outcome = Outcome(response: Response, stored: Option<JValue>)

  /** One element of `temperature_log`: `{"timestamp": ..., "temperature": ...}`. */
  datatype Entry = Entry(timestamp: string, temperature: JValue)

  /** `value is not None`. */
  predicate Present(v: Option<JValue>) { v.Some? && v.value != JNull }

  /** A request whose tag verified for the value it carried. */
  predicate Authenticated(h: MacFn, key: seq<byte>, ps: seq<(string, JValue)>, v: JValue) {
    FindTemperature(ps) == Some(v) && FindMac(ps).Some? && VerifyMac(h, key, v, FindMac(ps).value)
  }

  /** The parse of a request is an object carrying `v` with a tag that verified for it. */
  predicate AuthenticatedParse(h: MacFn, key: seq<byte>, parsed: Loaded, v: JValue) {
    parsed.Parsed? && parsed.value.JObj? && Authenticated(h, key, parsed.value.pairs, v)
  }

  /** `render_put` from the key lookup on: both revisions run this code on an object. */
  function HandleObject(h: MacFn, key: seq<byte>, ps: seq<(string, JValue)>): (o: Outcome)
    ensures o.response in {Ok, MacMissing, InvalidMac}
    ensures o.stored.Some? ==> o.response == Ok && Authenticated(h, key, ps, o.stored.value)
    ensures o.stored.None? && o.response == Ok <==> !Present(FindTemperature(ps))
    ensures o.response == MacMissing <==> Present(FindTemperature(ps)) && !TruthyOpt(FindMac(ps))
    ensures o.response == InvalidMac <==>
      Present(FindTemperature(ps)) && TruthyOpt(FindMac(ps))
      && !VerifyMac(h, key, FindTemperature(ps).value, FindMac(ps).value)
  {
    var value := FindTemperature(ps);
    if !Present(value) then Outcome(Ok, None)
    else
      var mac := FindMac(ps);
      if !TruthyOpt(mac) then Outcome(MacMissing, None)
      else if !VerifyMac(h, key, value.value, mac.value) then Outcome(InvalidMac, None)
      else Outcome(Ok, Some(value.value))
  }

  /** A tag other than the expected digest never stores the value. */
  lemma {:induction false} WrongTagNeverStores(h: MacFn, key: seq<byte>, ps: seq<(string, JValue)>)
    requires Present(FindTemperature(ps)) && TruthyOpt(FindMac(ps))
    requires FindMac(ps).value != JStr(ExpectedMac(h, key, FindTemperature(ps).value))
    ensures HandleObject(h, key, ps) == Outcome(InvalidMac, None)
  {
    OnlyExpectedTagVerifies(h, key, FindTemperature(ps).value, FindMac(ps).value);
  }

  /** The values a sequence of requests appends, in arrival order. */
  function Accepted(handle: string -> Outcome, rs: seq<string>): (vs: seq<JValue>)
    ensures |vs| <= |rs|
    decreases |rs|
  {
    if rs == [] then []
    else
      var last := handle(rs[|rs| - 1]).stored;
      Accepted(handle, rs[..|rs| - 1]) + (if last.Some? then [last.value] else [])
  }

  /** Handling requests in two batches appends the same as handling them in one. */
  lemma {:induction false} AcceptedConcat(handle: string -> Outcome, rs: seq<string>, qs: seq<string>)
    ensures Accepted(handle, rs + qs) == Accepted(handle, rs) + Accepted(handle, qs)
    decreases |qs|
  {
    if qs == [] {
      assert rs + qs == rs;
    } else {
      var q := qs[..|qs| - 1];
      assert (rs + qs)[..|rs + qs| - 1] == rs + q;
      assert (rs + qs)[|rs + qs| - 1] == qs[|qs| - 1];
      AcceptedConcat(handle, rs, q);
    }
  }

  /** Handling one more request extends the log by what it stored, if anything. */
  lemma LogStep(handle: string -> Outcome, rs: seq<string>, log: seq<Entry>, r: string, now: string)
    requires Temperatures(log) == Accepted(handle, rs)
    ensures var o := handle(r).stored;
      Temperatures(log + (if o.Some? then [Entry(now, o.value)] else [])) == Accepted(handle, rs + [r])
  {
    assert (rs + [r])[..|rs|] == rs;
  }

  /** Every appended value was stored by the handling of one of the requests. */
  lemma {:induction false} AcceptedFromRequests(handle: string -> Outcome, rs: seq<string>, k: nat)
    requires k < |Accepted(handle, rs)|
    ensures exists j :: 0 <= j < |rs| && handle(rs[j]).stored == Some(Accepted(handle, rs)[k])
    decreases |rs|
  {
    var p := rs[..|rs| - 1];
    if k < |Accepted(handle, p)| {
      AcceptedFromRequests(handle, p, k);
      var j :| 0 <= j < |p| && handle(p[j]).stored == Some(Accepted(handle, p)[k]);
      assert rs[j] == p[j];
    } else {
      assert handle(rs[|rs| - 1]).stored == Some(Accepted(handle, rs)[k]);
    }
  }

  /** When every request of a batch is stored, the batch appends one value per request. */
  lemma {:induction false} AllStoredAccepted(handle: string -> Outcome, rs: seq<string>)
    requires forall i :: 0 <= i < |rs| ==> handle(rs[i]).stored.Some?
    ensures |Accepted(handle, rs)| == |rs|
    ensures forall i :: 0 <= i < |rs| ==> Accepted(handle, rs)[i] == handle(rs[i]).stored.value
    decreases |rs|
  {
    if rs != [] {
      var p := rs[..|rs| - 1];
      assert forall i :: 0 <= i < |p| ==> p[i] == rs[i];
      AllStoredAccepted(handle, p);
    }
  }

  /** The `temperature` fields of the log, in order. */
  function Temperatures(log: seq<Entry>): (vs: seq<JValue>)
    ensures |vs| == |log| && forall i :: 0 <= i < |log| ==> vs[i] == log[i].temperature
  {
    seq(|log|, i requires 0 <= i < |log| => log[i].temperature)
  }
}
