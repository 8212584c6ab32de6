/**
 * client.py talking to a server: the document `send_temperature` builds is accepted and
 * stored by both revisions, its text survives their sanitisation, and a tag that is not
 * the expected digest is refused. The CoAP transport is a direct call of `Put`.
 */
module Exchange {
  import opened Wrappers
  import opened Text
  import opened Json
  import opened Auth
  import opened Fields
  import opened Ingest
  import opened Clean
  import Server
  import ServerFinal
  import Client
  import Compare

  /** The client's tag is usable: what `hexdigest()` returns. */
  predicate HexTag(h: MacFn, v: int) { IsHexDigest(Client.GenerateMac(h, v)) }

  /** The first revision stores the reading of a client document and answers `OK`. */
  lemma RoundTripDraft(h: MacFn, s: string, v: int)
    requires HexTag(h, v)
    ensures Server.HandlePut(h, s, Parsed(Client.Payload(h, v))) == Outcome(Ok, Some(JInt(v)))
  {
    Compare.SharedSecret();
    ClientDocumentVerifies(h, v);
  }

  /** So does the later revision. */
  lemma RoundTripFinal(h: MacFn, s: string, v: int)
    requires HexTag(h, v)
    ensures ServerFinal.HandlePut(h, s, Parsed(Client.Payload(h, v))) == Outcome(Ok, Some(JInt(v)))
  {
    Compare.SharedSecret();
    ClientDocumentVerifies(h, v);
  }

  lemma ClientDocumentVerifies(h: MacFn, v: int)
    requires HexTag(h, v)
    ensures HandleObject(h, Client.SECRET_KEY, Client.Payload(h, v).pairs) == Outcome(Ok, Some(JInt(v)))
  {
    var ps := Client.Payload(h, v).pairs;
    assert HasKey(ps, EXACT_KEY) by { assert ps[0].0 == EXACT_KEY; }
    assert FindMac(ps) == Some(JStr(Client.GenerateMac(h, v)));
  }

  /**
   * Scenario of a forged tag: a document naming the temperature with any non-empty tag
   * other than the expected digest is refused with `ERROR: invalid MAC` by both
   * revisions and nothing is stored.
   */
  lemma ForgedTagRefused(h: MacFn, s: string, v: int, tag: string)
    requires tag != "" && tag != Client.GenerateMac(h, v)
    ensures var doc := Parsed(JObj([(EXACT_KEY, JInt(v)), ("mac", JStr(tag))]));
      && Server.HandlePut(h, s, doc) == Outcome(InvalidMac, None)
      && ServerFinal.HandlePut(h, s, doc) == Outcome(InvalidMac, None)
  {
    Compare.SharedSecret();
    var ps := [(EXACT_KEY, JInt(v)), ("mac", JStr(tag))];
    assert ps[0].0 == EXACT_KEY && ps[1].0 == "mac" && ps[1].0 != EXACT_KEY;
    assert ps[..1][0].0 == EXACT_KEY;
    assert LastIndex(ps, EXACT_KEY) == Some(0);
    assert LastIndex(ps, "mac") == Some(1);
    WrongTagNeverStores(h, Client.SECRET_KEY, ps);
  }

  /** The text `json.dumps` produces holds no control character and is not padded. */
  lemma PayloadTextIsClean(h: MacFn, v: int)
    requires HexTag(h, v)
    ensures NoControl(Client.PayloadText(h, v)) && Unpadded(Client.PayloadText(h, v))
  {
    var open, mid, close := "{\"Temperature\": ", ", \"mac\": \"", "\"}";
    assert NoControl(open) && open[0] == '{';
    assert NoControl(mid);
    assert NoControl(close) && close[|close| - 1] == '}';
    var n, m := IntToString(v), Client.GenerateMac(h, v);
    DecimalIsClean(n);
    HexIsClean(m);
    BracedIsClean(open, n, mid, m, close);
  }

  lemma BracedIsClean(open: string, n: string, mid: string, m: string, close: string)
    requires NoControl(open) && NoControl(n) && NoControl(mid) && NoControl(m) && NoControl(close)
    requires open != [] && !IsPySpace(open[0]) && close != [] && !IsPySpace(close[|close| - 1])
    ensures var t := open + n + mid + m + close; NoControl(t) && Unpadded(t)
  {
    NoControlConcat(open, n);
    NoControlConcat(open + n, mid);
    NoControlConcat(open + n + mid, m);
    NoControlConcat(open + n + mid + m, close);
  }

  lemma DecimalIsClean(n: string)
    requires forall i :: 0 <= i < |n| ==> IsDigit(n[i]) || n[i] == '-'
    ensures NoControl(n)
  {
    forall i | 0 <= i < |n| ensures Printable(n[i]) {
      assert IsDigit(n[i]) || n[i] == '-';
    }
  }

  lemma HexIsClean(m: string)
    requires IsHexDigest(m)
    ensures NoControl(m)
  {
    forall i | 0 <= i < |m| ensures Printable(m[i]) {
      assert IsLowerHex(m[i]);
    }
  }

  /** Both revisions hand `json.loads` exactly the text the client sent. */
  lemma PayloadTextIsSanitized(h: MacFn, v: int)
    requires HexTag(h, v)
    ensures Server.Sanitize(Client.PayloadText(h, v)) == Client.PayloadText(h, v)
    ensures ServerFinal.Sanitize(Client.PayloadText(h, v)) == Client.PayloadText(h, v)
  {
    PayloadTextIsClean(h, v);
    Compare.SanitizersAgreeOnPlainText(Client.PayloadText(h, v));
  }

  /** `json.loads` reads back the document `json.dumps` wrote, for the readings `t`. */
  ghost predicate LoadsInvertsDumps(loads: string -> Loaded, h: MacFn) {
    forall t :: 60 <= t <= 100 ==> loads(Client.PayloadText(h, t)) == Parsed(Client.Payload(h, t))
  }

  /** The keyed hash answers with a hexadecimal digest for every reading the client draws. */
  ghost predicate HexTags(h: MacFn) {
    forall t :: 60 <= t <= 100 ==> HexTag(h, t)
  }

  /**
   * `send_temperature(v)` against the later revision, the one listening on the address
   * the client sends to: the reading is appended and the reply payload is `OK`.
   */
  method SendTemperature(gw: ServerFinal.Gateway, v: int, now: string) returns (reply: Option<string>)
    requires gw.Valid() && HexTag(gw.hmac, v)
    requires gw.loads(Client.PayloadText(gw.hmac, v)) == Parsed(Client.Payload(gw.hmac, v))
    modifies gw`log, gw`requests
    ensures gw.Valid() && reply == Some("OK")
    ensures gw.log == old(gw.log) + [Entry(now, JInt(v))]
  {
    var text := Client.PayloadText(gw.hmac, v);
    PayloadTextIsSanitized(gw.hmac, v);
    RoundTripFinal(gw.hmac, text, v);
    var r;
    r, reply := gw.Put(text, now);
  }

  /** The entries that twenty sends append: reading `i` is drawn by `draw(i)` at time `clock(i)`. */
  function Sent(draw: nat -> int, clock: nat -> string, n: nat): (es: seq<Entry>)
    ensures |es| == n
  {
    seq(n, i requires 0 <= i < n => Entry(clock(i), JInt(Client.RandomTemperature(draw(i)))))
  }

  /** Whatever the draws, every reading sent lies between 60 and 100. */
  lemma SentInRange(draw: nat -> int, clock: nat -> string, n: nat)
    ensures forall i :: 0 <= i < n ==>
      Sent(draw, clock, n)[i].temperature.JInt? && 60 <= Sent(draw, clock, n)[i].temperature.n <= 100
  {
    forall i | 0 <= i < n
      ensures Sent(draw, clock, n)[i].temperature == JInt(Client.RandomTemperature(draw(i)))
    {
    }
  }

  lemma SentStep(draw: nat -> int, clock: nat -> string, n: nat)
    ensures Sent(draw, clock, n + 1) == Sent(draw, clock, n) + [Entry(clock(n), JInt(Client.RandomTemperature(draw(n))))]
  {
  }

  /**
   * `send_random_temperatures()`: twenty readings between 60 and 100, sent in order;
   * the log gains exactly them, in the order sent, and the invariant of the gateway holds.
   */
  method SendRandomTemperatures(gw: ServerFinal.Gateway, draw: nat -> int, clock: nat -> string)
    requires gw.Valid() && HexTags(gw.hmac) && LoadsInvertsDumps(gw.loads, gw.hmac)
    modifies gw`log, gw`requests
    ensures gw.Valid()
    ensures gw.log == old(gw.log) + Sent(draw, clock, Client.SEND_COUNT)
  {
    ghost var log0 := gw.log;
    var i := 0;
    while i < Client.SEND_COUNT
      invariant 0 <= i <= Client.SEND_COUNT
      invariant gw.Valid()
      invariant gw.log == log0 + Sent(draw, clock, i)
    {
      var t := Client.RandomTemperature(draw(i));
      ghost var before := gw.log;
      assert HexTag(gw.hmac, t);
      assert gw.loads(Client.PayloadText(gw.hmac, t)) == Parsed(Client.Payload(gw.hmac, t));
      var _ := SendTemperature(gw, t, clock(i));
      SentStep(draw, clock, i);
      assert gw.log == log0 + Sent(draw, clock, i + 1) by {
        assert gw.log == before + [Entry(clock(i), JInt(t))];
      }
      i := i + 1;
    }
  }
}
