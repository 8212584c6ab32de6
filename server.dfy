/**
 * server.py: the first revision of the gateway. Its state — the log, the redraw
 * counter, and the sliding window of `moving_average` — lives in objects instead of
 * module globals; `json.loads` and the keyed hash are the constants `loads` and `hmac`.
 */
module Server {
  import opened Wrappers
  import opened Text
  import opened Json
  import opened Auth
  import opened Recovery
  import opened Fields
  import opened Ingest
  import opened Clean
  import opened Refresh

  /** `SECRET_KEY = b"super_secret_key"`. */
  const SECRET_KEY: seq<byte> := AsciiBytes("super_secret_key")

  /** Sanitisation of this revision: remove NUL, drop control characters, then strip. */
  function Sanitize(raw: string): (s: string)
    ensures NoControl(s) && Unpadded(s)
    ensures forall c :: c in s ==> c in raw
  {
    Strip(KeepPrintable(RemoveNul(raw)))
  }

  /** Every printable character of the payload that is not whitespace survives sanitisation. */
  lemma SanitizeKeepsPayload(raw: string)
    ensures forall c :: c in raw && Printable(c) && !IsPySpace(c) ==> c in Sanitize(raw)
  {
    StripKeepsNonSpace(KeepPrintable(RemoveNul(raw)));
  }

  /** Sanitising what is already sanitised changes nothing. */
  lemma SanitizeIdempotent(raw: string)
    ensures Sanitize(Sanitize(raw)) == Sanitize(raw)
  {
  }

  /**
   * `render_put` on the sanitised text `s`, where `parsed` is what `json.loads(s)` did.
   * Only `JSONDecodeError` is caught; in its handler `int()` of the digits or of the
   * captured group raises past the digit limit, uncaught. A value that is not an object
   * reaches `"Temperature" in payload` (or `payload.keys()`) unguarded, which raises.
   */
  function HandlePut(h: MacFn, s: string, parsed: Loaded): (o: Outcome)
    ensures parsed.DecodeError? ==> o.stored.None? && o.response in {Ok, InvalidJson, Crash}
    ensures parsed.Raised? ==> o == Outcome(Crash, None)
    ensures parsed.Parsed? && !parsed.value.JObj? ==> o == Outcome(Crash, None)
    ensures parsed.Parsed? && parsed.value.JObj? ==> o == HandleObject(h, SECRET_KEY, parsed.value.pairs)
    ensures o.stored.Some? ==> AuthenticatedParse(h, SECRET_KEY, parsed, o.stored.value)
  {
    match parsed
    case DecodeError =>
      if IsDigitString(s) then
        if IntConverts(s) then Outcome(Ok, None) else Outcome(Crash, None)
      else
        (match Search(s, 0)
         case Some(group) => if IntConverts(group) then Outcome(Ok, None) else Outcome(Crash, None)
         case None => Outcome(InvalidJson, None))
    case Raised => Outcome(Crash, None)
    case Parsed(JObj(ps)) => HandleObject(h, SECRET_KEY, ps)
    case Parsed(_) => Outcome(Crash, None)
  }

  /** What `render_get` answers; the PNG bytes come from the (external) renderer. */
  datatype Content = Text(text: string) | Png(bytes: seq<byte>)
  datatype GetReply = GetReply(code: Option<int>, body: Content, contentFormat: Option<int>)

  /** What the renderer did with a snapshot of the log. */
  datatype Rendering = Rendered(png: seq<byte>) | RenderRaised(message: string)

  /** What `visualize_temperature` does: return a flag, or let a drawing error escape. */
  datatype Shown = Returned(ok: bool) | Threw

  /**
   * The answer to a text that is not JSON: `OK` when the digits, or else the group the
   * pattern captures, convert; `invalid JSON` when neither the digit check nor the pattern
   * applies; and a crash when the conversion raises.
   */
  lemma RecoveredAnswer(h: MacFn, s: string)
    ensures HandlePut(h, s, DecodeError).response == Ok <==>
      if IsDigitString(s) then IntConverts(s) else FindsField(s) && IntConverts(Search(s, 0).value)
    ensures HandlePut(h, s, DecodeError).response == InvalidJson <==> !IsDigitString(s) && !FindsField(s)
  {
  }

  class Gateway {
    const loads: string -> Loaded
    const hmac: MacFn
    /** `temperature_log`. */
    var log: seq<Entry>
    /** `last_update_count`. */
    var lastUpdateCount: nat
    /** The sanitised payloads of every write handled so far. */
    ghost var requests: seq<string>

    /** The handler every write goes through. */
    function Handle(): string -> Outcome {
      s => HandlePut(hmac, s, loads(s))
    }

    /** The log holds exactly what the handled writes stored, and the counter never passes it. */
    ghost predicate Valid()
      reads this
    {
      lastUpdateCount <= |log| && Temperatures(log) == Accepted(Handle(), requests)
    }

    constructor (loads: string -> Loaded, hmac: MacFn)
      ensures Valid() && this.loads == loads && this.hmac == hmac
      ensures log == [] && lastUpdateCount == 0 && requests == []
    {
      this.loads := loads;
      this.hmac := hmac;
      log := [];
      lastUpdateCount := 0;
      requests := [];
    }

    /** Every logged temperature came with a tag that verified for it. */
    lemma LogIsAuthenticated(k: nat)
      requires Valid() && k < |log|
      ensures exists j :: 0 <= j < |requests| && AuthenticatedParse(hmac, SECRET_KEY, loads(requests[j]), log[k].temperature)
    {
      AcceptedFromRequests(Handle(), requests, k);
    }

    /**
     * `TemperatureResource.render_put`: answer a write with the payload of its reply
     * (none when it crashes), appending at most one entry at the tail.
     */
    method Put(raw: string, now: string) returns (r: Response, reply: Option<string>)
      requires Valid()
      modifies this`log, this`requests
      ensures Valid()
      ensures reply == Body(r)
      ensures var s := Sanitize(raw);
        var o := HandlePut(hmac, s, loads(s));
        && r == o.response
        && log == old(log) + (if o.stored.Some? then [Entry(now, o.stored.value)] else [])
        && requests == old(requests) + [s]
    {
      var s := Sanitize(raw);
      var o := HandlePut(hmac, s, loads(s));
      assert Handle()(s) == o;
      LogStep(Handle(), requests, log, s, now);
      log := log + (if o.stored.Some? then [Entry(now, o.stored.value)] else []);
      requests := requests + [s];
      r := o.response;
      reply := Body(r);
    }

    /** One call of `update_plot`. */
    method UpdatePlot(figPresent: bool, renderOk: bool) returns (step: Step)
      requires Valid()
      modifies this`lastUpdateCount
      ensures Valid()
      ensures step == Decide(|log|, old(lastUpdateCount), figPresent, renderOk)
      ensures lastUpdateCount == NextCount(step, |log|, old(lastUpdateCount))
    {
      if log == [] {
        return SkippedEmpty;
      }
      if |log| == lastUpdateCount {
        return SkippedUnchanged;
      }
      if !figPresent {
        return SkippedNoFigure;
      }
      if !renderOk {
        return RenderFailed;
      }
      lastUpdateCount := |log|;
      step := Redrawn;
    }

    /** `VisualizationResource.render_get`, where `render` stands for the drawing and `savefig`. */
    method RenderGet(render: seq<Entry> -> Rendering) returns (reply: GetReply)
      ensures log == [] <==> reply.code == Some(404)
      ensures log == [] ==> reply.body == Text("ERROR: No temperature data available")
      ensures log != [] && render(log).Rendered? ==> reply == GetReply(None, Png(render(log).png), Some(50))
      ensures log != [] && render(log).RenderRaised? ==>
        reply == GetReply(Some(500), Text("ERROR: " + render(log).message), None)
    {
      if log == [] {
        return GetReply(Some(404), Text("ERROR: No temperature data available"), None);
      }
      match render(log)
      case Rendered(png) => reply := GetReply(None, Png(png), Some(50));
      case RenderRaised(m) => reply := GetReply(Some(500), Text("ERROR: " + m), None);
    }

    /** `visualize_temperature`, where `drawn` says whether plotting the log succeeds. */
    method VisualizeTemperature(drawn: seq<Entry> -> bool) returns (shown: Shown)
      ensures shown == Returned(false) <==> log == []
      ensures log != [] ==> shown == (if drawn(log) then Returned(true) else Threw)
    {
      if log == [] {
        return Returned(false);
      }
      shown := if drawn(log) then Returned(true) else Threw;
    }
  }

  /** `deque(maxlen=10)`. */
  const WINDOW_SIZE: nat := 10

  /** The last `n` elements of `s` (all of them when there are fewer). */
  function LastN(s: seq<int>, n: nat): (r: seq<int>)
    ensures |r| == (if |s| < n then |s| else n)
    ensures r == s[|s| - |r|..]
  {
    if |s| <= n then s else s[|s| - n..]
  }

  /** Keeping the last `n` after each append is keeping the last `n` of everything. */
  lemma LastNAppend(s: seq<int>, x: int, n: nat)
    requires n > 0
    ensures LastN(LastN(s, n) + [x], n) == LastN(s + [x], n)
  {
    var w := LastN(s, n);
    var t := s + [x];
    assert w + [x] == t[|t| - |w| - 1..];
  }

  function Sum(s: seq<int>): int
    decreases |s|
  {
    if s == [] then 0 else Sum(s[..|s| - 1]) + s[|s| - 1]
  }

  /** The sliding window behind `moving_average`. */
  class MovingWindow {
    /** `window`. */
    var window: seq<int>
    /** Every value appended so far. */
    ghost var appended: seq<int>

    ghost predicate Valid()
      reads this
    {
      window == LastN(appended, WINDOW_SIZE)
    }

    constructor ()
      ensures Valid() && window == [] && appended == []
    {
      window := [];
      appended := [];
    }

    /**
     * `moving_average(value)`: append, dropping the oldest value when full, and give the
     * sum and the length of the window (their float quotient is what is returned).
     */
    method MovingAverage(value: int) returns (total: int, count: nat)
      requires Valid()
      modifies this
      ensures Valid() && appended == old(appended) + [value]
      ensures window == LastN(old(window) + [value], WINDOW_SIZE)
      ensures total == Sum(window) && count == |window| && 0 < count <= WINDOW_SIZE
    {
      LastNAppend(appended, value, WINDOW_SIZE);
      window := LastN(window + [value], WINDOW_SIZE);
      appended := appended + [value];
      total := Sum(window);
      count := |window|;
    }
  }
}
