/**
 * server_final.py: the later revision. It strips before filtering, tries the
 * `Temperature` pattern before the digit check, and turns every other exception of the
 * decoding into the answer `ERROR`.
 */
module ServerFinal {
  import opened Wrappers
  import opened Text
  import opened Json
  import opened Auth
  import opened Recovery
  import opened Fields
  import opened Ingest
  import opened Clean
  import opened Refresh

  /** `SECRET_KEY = b"super_secret_key"`. */
  const SECRET_KEY: seq<byte> := AsciiBytes("super_secret_key")

  /** Sanitisation of this revision: strip (twice), remove NUL, drop control characters. */
  function Sanitize(raw: string): (s: string)
    ensures NoControl(s) && '\0' !in s
    ensures forall c :: c in s ==> c in raw
  {
    KeepPrintable(RemoveNul(Strip(Strip(raw))))
  }

  /** Every printable character of the payload that is not whitespace survives sanitisation. */
  lemma SanitizeKeepsPayload(raw: string)
    ensures forall c :: c in raw && Printable(c) && !IsPySpace(c) ==> c in Sanitize(raw)
  {
    StripKeepsNonSpace(raw);
    StripKeepsNonSpace(Strip(raw));
  }

  /**
   * `render_put` on the sanitised text `s`, with `parsed` what `json.loads(s)` did.
   * The pattern is tried first; when it fails the re-raised decoding error is caught by
   * the outer handler, which tries the digit check, where a failing `int()` is swallowed
   * by the bare `except` and the answer is `invalid JSON`. Every other exception — a
   * failing `int()` of the captured group, a parse that raises something other than a
   * decoding error, the key lookup on a value that is not an object — reaches
   * `except Exception`, which answers `ERROR`.
   */
  function HandlePut(h: MacFn, s: string, parsed: Loaded): (o: Outcome)
    ensures parsed.DecodeError? ==> o.stored.None? && o.response in {Ok, InvalidJson, Error}
    ensures parsed.Raised? ==> o == Outcome(Error, None)
    ensures parsed.Parsed? && !parsed.value.JObj? ==> o == Outcome(Error, None)
    ensures parsed.Parsed? && parsed.value.JObj? ==> o == HandleObject(h, SECRET_KEY, parsed.value.pairs)
    ensures o.stored.Some? ==> AuthenticatedParse(h, SECRET_KEY, parsed, o.stored.value)
  {
    match parsed
    case DecodeError =>
      (match Search(s, 0)
       case Some(group) => if IntConverts(group) then Outcome(Ok, None) else Outcome(Error, None)
       case None => if IsDigitString(s) && IntConverts(s) then Outcome(Ok, None) else Outcome(InvalidJson, None))
    case Raised => Outcome(Error, None)
    case Parsed(JObj(ps)) => HandleObject(h, SECRET_KEY, ps)
    case Parsed(_) => Outcome(Error, None)
  }

  /**
   * The answer to a text that is not JSON: `OK` when the group the pattern captures, or
   * else the digits, convert; `ERROR` when the captured group does not convert; and
   * `invalid JSON` otherwise.
   */
  lemma RecoveredAnswer(h: MacFn, s: string)
    ensures HandlePut(h, s, DecodeError).response == Ok <==>
      if FindsField(s) then IntConverts(Search(s, 0).value) else IsDigitString(s) && IntConverts(s)
    ensures HandlePut(h, s, DecodeError).response == Error <==> FindsField(s) && !IntConverts(Search(s, 0).value)
  {
  }

  class Gateway {
    const loads: string -> Loaded
    const hmac: MacFn
    /** `temperature_log`. */
    var log: seq<Entry>
    /** `last_update_count`. */
    var lastUpdateCount: nat
    /** The sanitised payloads of every write handled so far. */
    ghost var requests: seq<string>

    /** The handler every write goes through. */
    function Handle(): string -> Outcome {
      s => HandlePut(hmac, s, loads(s))
    }

    /** The log holds exactly what the handled writes stored, and the counter never passes it. */
    ghost predicate Valid()
      reads this
    {
      lastUpdateCount <= |log| && Temperatures(log) == Accepted(Handle(), requests)
    }

    constructor (loads: string -> Loaded, hmac: MacFn)
      ensures Valid() && this.loads == loads && this.hmac == hmac
      ensures log == [] && lastUpdateCount == 0 && requests == []
    {
      this.loads := loads;
      this.hmac := hmac;
      log := [];
      lastUpdateCount := 0;
      requests := [];
    }

    /** Every logged temperature came with a tag that verified for it. */
    lemma LogIsAuthenticated(k: nat)
      requires Valid() && k < |log|
      ensures exists j :: 0 <= j < |requests| && AuthenticatedParse(hmac, SECRET_KEY, loads(requests[j]), log[k].temperature)
    {
      AcceptedFromRequests(Handle(), requests, k);
    }

    /**
     * `TemperatureResource.render_put`: answer a write with the payload of its reply
     * (none when it crashes), appending at most one entry at the tail.
     */
    method Put(raw: string, now: string) returns (r: Response, reply: Option<string>)
      requires Valid()
      modifies this`log, this`requests
      ensures Valid()
      ensures reply == Body(r)
      ensures var s := Sanitize(raw);
        var o := HandlePut(hmac, s, loads(s));
        && r == o.response
        && log == old(log) + (if o.stored.Some? then [Entry(now, o.stored.value)] else [])
        && requests == old(requests) + [s]
    {
      var s := Sanitize(raw);
      var o := HandlePut(hmac, s, loads(s));
      assert Handle()(s) == o;
      LogStep(Handle(), requests, log, s, now);
      log := log + (if o.stored.Some? then [Entry(now, o.stored.value)] else []);
      requests := requests + [s];
      r := o.response;
      reply := Body(r);
    }

    /** One call of `update_plot`. */
    method UpdatePlot(figPresent: bool, renderOk: bool) returns (step: Step)
      requires Valid()
      modifies this`lastUpdateCount
      ensures Valid()
      ensures step == Decide(|log|, old(lastUpdateCount), figPresent, renderOk)
      ensures lastUpdateCount == NextCount(step, |log|, old(lastUpdateCount))
    {
      if log == [] {
        return SkippedEmpty;
      }
      if |log| == lastUpdateCount {
        return SkippedUnchanged;
      }
      if !figPresent {
        return SkippedNoFigure;
      }
      if !renderOk {
        return RenderFailed;
      }
      lastUpdateCount := |log|;
      step := Redrawn;
    }
  }
}
