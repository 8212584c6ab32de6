/**
 * `verify_mac`: a reading is authentic when its tag is the hexadecimal HMAC-SHA256
 * of the decimal text of the value under the shared secret. The keyed hash itself is
 * a parameter `h`, standing for `hmac.new(key, msg.encode(), hashlib.sha256).hexdigest()`.
 */
module Auth {
  import opened Text
  import opened Json

  type MacFn = (seq<byte>, string) -> string

  predicate IsLowerHex(c: char) { ('0' <= c <= '9') || ('a' <= c <= 'f') }

  /** The shape of `hexdigest()` for SHA-256: 64 lower-case hexadecimal digits. */
  predicate IsHexDigest(m: string) {
    |m| == 64 && forall i :: 0 <= i < |m| ==> IsLowerHex(m[i])
  }

  /** `hmac.new(key, str(value).encode(), hashlib.sha256).hexdigest()`. */
  function ExpectedMac(h: MacFn, key: seq<byte>, value: JValue): (m: string)
    ensures value.JInt? ==> m == h(key, IntToString(value.n))
    ensures value.JStr? ==> m == h(key, value.s)
  {
    h(key, PyStr(value))
  }

  /** `verify_mac(value, mac)`: `expected == mac`, false for a tag that is not a string. */
  predicate VerifyMac(h: MacFn, key: seq<byte>, value: JValue, mac: JValue) {
    mac.JStr? && mac.s == ExpectedMac(h, key, value)
  }

  /** Exactly one tag verifies for a value: the expected digest, as a string. */
  lemma OnlyExpectedTagVerifies(h: MacFn, key: seq<byte>, value: JValue, mac: JValue)
    ensures VerifyMac(h, key, value, mac) <==> mac == JStr(ExpectedMac(h, key, value))
  {
  }

  /** An integer reading is authenticated over its decimal text `str(n)`. */
  lemma IntegerTagIsOverDecimalText(h: MacFn, key: seq<byte>, n: int, mac: JValue)
    ensures VerifyMac(h, key, JInt(n), mac) <==> mac == JStr(h(key, IntToString(n)))
  {
  }
}
