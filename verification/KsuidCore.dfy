/** chronoid/ksuid/ksuid.c: construction, text conversion, and what they promise together. */
module KsuidCore {
  import opened Positional
  import opened Words
  import opened Base62Text
  import Base62

  const EPOCH_SECONDS: int := 1400000000
  const PAYLOAD_LEN: nat := 16

  datatype Err = OK | ERR_STR_SIZE | ERR_STR_VALUE | ERR_PAYLOAD_SIZE | ERR_TIME_RANGE

  predicate TimeInRange(unixSeconds: int) {
    0 <= unixSeconds - EPOCH_SECONDS <= 0xFFFF_FFFF
  }

  function PartsOf(unixSeconds: int, payload: seq<byte>): Ksuid
    requires TimeInRange(unixSeconds) && |payload| == PAYLOAD_LEN
  {
    Be32Store(unixSeconds - EPOCH_SECONDS) + payload
  }

  /** `chronoid_ksuid_from_parts`. */
  method FromParts(out: array<byte>, unixSeconds: int, payload: seq<byte>) returns (e: Err)
    requires out.Length == KSUID_BYTES
    modifies out
    ensures e == if |payload| != PAYLOAD_LEN then ERR_PAYLOAD_SIZE
                 else if !TimeInRange(unixSeconds) then ERR_TIME_RANGE else OK
    ensures out[..] == if e == OK then PartsOf(unixSeconds, payload) else old(out[..])
    // the timestamp is 32 bits wide and counts from 2014-05-13T16:53:20Z
    ensures e == OK <==> |payload| == 16 && 0 <= unixSeconds - 1400000000 < Pow(2, 32)
    ensures e == OK ==> Value(out[..4], 0x100) == unixSeconds - 1400000000 && out[4..] == payload
  {
    Powers();
    if |payload| != PAYLOAD_LEN {
      return ERR_PAYLOAD_SIZE;
    }
    var corrected := unixSeconds - EPOCH_SECONDS;
    if corrected < 0 || corrected > 0xFFFF_FFFF {
      return ERR_TIME_RANGE;
    }
    var stamp := Be32Store(corrected);
    forall i | 0 <= i < KSUID_BYTES {
      out[i] := if i < 4 then stamp[i] else payload[i - 4];
    }
    assert out[..] == stamp + payload;
    Be32StoreIsDigits(corrected);
    Be32IsValue(stamp);
    assert out[..4] == stamp && out[4..] == payload;
    return OK;
  }

  /** `chronoid_ksuid_time_unix`. */
  function TimeUnix(id: Ksuid): int {
    Be32Load(id[..4]) as int + EPOCH_SECONDS
  }

  /** On any 20 bytes, the time read is the leading 32-bit number counted from the epoch. */
  lemma {:induction false} TimeOfAnyKsuid(id: Ksuid)
    ensures TimeUnix(id) == 1400000000 + Value(id[..4], 0x100)
  {
    Be32IsValue(id[..4]);
  }

  lemma {:induction false} PartsRoundTrip(unixSeconds: int, payload: seq<byte>)
    requires TimeInRange(unixSeconds) && |payload| == PAYLOAD_LEN
    ensures TimeUnix(PartsOf(unixSeconds, payload)) == unixSeconds
    ensures PartsOf(unixSeconds, payload)[4..] == payload
  {
    var stamp := Be32Store(unixSeconds - EPOCH_SECONDS);
    Be32StoreIsDigits(unixSeconds - EPOCH_SECONDS);
    assert (stamp + payload)[..4] == stamp;
  }

  /** Identifiers stamped with an earlier second print as an earlier string, whatever the payloads. */
  lemma {:induction false} TextSortsByTime(s: int, t: int, p: seq<byte>, q: seq<byte>)
    requires TimeInRange(s) && TimeInRange(t) && |p| == |q| == PAYLOAD_LEN
    requires s < t
    ensures LexLess(Encoding(PartsOf(s, p)), Encoding(PartsOf(t, q)))
  {
    hide Encoding, PartsOf, Value;
    var a, b := PartsOf(s, p), PartsOf(t, q);
    StampValue(s, p);
    StampValue(t, q);
    ValueBound(p, 0x100);
    ValueBound(q, 0x100);
    LexIffValue(a, b, 0x100);
    HigherStamp(s - EPOCH_SECONDS, t - EPOCH_SECONDS, Pow(0x100, PAYLOAD_LEN), Value(p, 0x100), Value(q, 0x100));
    EncodingOrder(a, b);
  }

  lemma {:induction false} HigherStamp(x: int, y: int, p: int, u: int, v: int)
    requires x < y && 0 <= u < p && 0 <= v < p
    ensures x * p + u < y * p + v
  {
    MulMono(x + 1, y, p);
    assert (x + 1) * p == x * p + p;
  }

  lemma {:induction false} StampValue(t: int, p: seq<byte>)
    requires TimeInRange(t) && |p| == PAYLOAD_LEN
    ensures Value(PartsOf(t, p), 0x100) == (t - EPOCH_SECONDS) * Pow(0x100, PAYLOAD_LEN) + Value(p, 0x100)
  {
    var stamp := Be32Store(t - EPOCH_SECONDS);
    ValueConcat(stamp, p, 0x100);
    Be32StoreIsDigits(t - EPOCH_SECONDS);
    Be32IsValue(stamp);
  }

  /** `chronoid_ksuid_parse`: a failure leaves `out` as it was. */
  method Parse(out: array<byte>, s: seq<byte>) returns (e: Err)
    requires out.Length == KSUID_BYTES
    modifies out
    ensures e == if |s| != STRING_LEN then ERR_STR_SIZE else if Decoding(s).Ok? then OK else ERR_STR_VALUE
    ensures out[..] == if e == OK then Decoding(s).b else old(out[..])
  {
    if |s| != STRING_LEN {
      return ERR_STR_SIZE;
    }
    var tmp := new byte[KSUID_BYTES];
    var d := Base62.Decode(tmp, s);
    if d != Base62.OK {
      return ERR_STR_VALUE;
    }
    forall i | 0 <= i < KSUID_BYTES {
      out[i] := tmp[i];
    }
    assert out[..] == tmp[..];
    return OK;
  }

  /** `chronoid_ksuid_format` followed by `chronoid_ksuid_parse` restores the bytes. */
  method FormatThenParse(id: Ksuid, out: array<byte>) returns (e: Err)
    requires out.Length == KSUID_BYTES
    modifies out
    ensures e == OK && out[..] == id
  {
    var text := new byte[STRING_LEN];
    Base62.Encode(text, 0, id);
    hide Encoding, Decoding;
    assert text[..] == Encoding(id);
    DecodeEncode(id);
    e := Parse(out, text[..]);
  }
}
