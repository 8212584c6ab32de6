/**
 * client.py: the sensor side. It tags each reading with `generate_mac` and sends the
 * two-key JSON document built in `send_temperature`; the transport is not modelled.
 */
module Client {
  import opened Wrappers
  import opened Text
  import opened Json
  import opened Auth
  import opened Fields

  /** `SECRET_KEY = b"super_secret_key"`. */
  const SECRET_KEY: seq<byte> := AsciiBytes("super_secret_key")

  /** `range(20)` in `send_random_temperatures`. */
  const SEND_COUNT: nat := 20

  /** `generate_mac(value)`: the tag a server expects for the integer reading. */
  function GenerateMac(h: MacFn, v: int): (m: string)
    ensures m == ExpectedMac(h, SECRET_KEY, JInt(v))
  {
    h(SECRET_KEY, IntToString(v))
  }

  /** The dict `{"Temperature": v, "mac": generate_mac(v)}` of `send_temperature`. */
  function Payload(h: MacFn, v: int): (p: JValue)
    ensures p.JObj? && PairKeys(p.pairs) == [EXACT_KEY, "mac"]
    ensures Get(p.pairs, EXACT_KEY) == Some(JInt(v))
    ensures Get(p.pairs, "mac") == Some(JStr(GenerateMac(h, v)))
  {
    var ps := [(EXACT_KEY, JInt(v)), ("mac", JStr(GenerateMac(h, v)))];
    assert LastIndex(ps, "mac") == Some(1);
    assert LastIndex(ps, EXACT_KEY) == Some(0);
    JObj(ps)
  }

  /**
   * `json.dumps(payload)` for that dict, with the default separators `", "` and `": "`.
   * A hexadecimal tag needs no escaping, so this is the exact text for a `hexdigest()`.
   */
  function PayloadText(h: MacFn, v: int): string {
    "{\"Temperature\": " + IntToString(v) + ", \"mac\": \"" + GenerateMac(h, v) + "\"}"
  }

  /** `random.randint(60, 100)`, driven by an arbitrary draw `r`. */
  function RandomTemperature(r: int): (t: int)
    ensures 60 <= t <= 100
  {
    60 + r % 41
  }

  /** Every temperature of the range can be drawn. */
  lemma RandomTemperatureCoversRange(t: int)
    requires 60 <= t <= 100
    ensures RandomTemperature(t - 60) == t
  {
  }
}
