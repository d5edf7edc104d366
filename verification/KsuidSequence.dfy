/** chronoid/ksuid/sequence.c: 65536 ordered KSUIDs from one seed. */
module KsuidSequence {
  import opened Positional
  import opened Words
  import opened Base62Text

  datatype Err = OK | ERR_EXHAUSTED

  const UINT16_MAX: int := 0xFFFF

  /** `chronoid_ksuid_sequence_apply_count`. */
  function ApplyCount(seed: Ksuid, n: u16): Ksuid {
    seed[..18] + [n / 0x100 % 0x100, n % 0x100]
  }

  class Sequence {
    var seed: Ksuid
    var count: u32

    /** `chronoid_ksuid_sequence_init`. */
    constructor (seed: Ksuid)
      ensures this.seed == seed && count == 0
    {
      this.seed := seed;
      this.count := 0;
    }

    /** `chronoid_ksuid_sequence_next`. */
    method Next(out: array<byte>) returns (e: Err)
      requires out.Length == KSUID_BYTES
      modifies this`count, out
      ensures e == if old(count) > UINT16_MAX then ERR_EXHAUSTED else OK
      ensures e == OK ==> count == old(count) + 1 && out[..] == ApplyCount(seed, old(count))
      ensures e == OK ==> Value(out[..], 0x100) == Value(seed, 0x100) / 0x1_0000 * 0x1_0000 + old(count)
      ensures e == ERR_EXHAUSTED ==> count == old(count) && out[..] == old(out[..])
    {
      if count > UINT16_MAX {
        return ERR_EXHAUSTED;
      }
      forall i | 0 <= i < KSUID_BYTES {
        out[i] := seed[i];
      }
      var n: u16 := count;
      out[KSUID_BYTES - 2] := n / 0x100 % 0x100;
      out[KSUID_BYTES - 1] := n % 0x100;
      assert out[..] == ApplyCount(seed, n);
      CountIsLow16Bits(seed, n);
      count := count + 1;
      return OK;
    }

    /** `chronoid_ksuid_sequence_bounds`. */
    method Bounds() returns (min: Ksuid, max: Ksuid)
      ensures min == ApplyCount(seed, if count > UINT16_MAX then UINT16_MAX else count)
      ensures max == ApplyCount(seed, UINT16_MAX)
      ensures forall n: u16 :: count <= n ==> LexLeq(min, ApplyCount(seed, n)) && LexLeq(ApplyCount(seed, n), max)
    {
      hide ApplyCount;
      var lo := count;
      if lo > UINT16_MAX {
        lo := UINT16_MAX;
      }
      min := ApplyCount(seed, lo);
      max := ApplyCount(seed, UINT16_MAX);
      forall n: u16 | count <= n
        ensures LexLeq(min, ApplyCount(seed, n)) && LexLeq(ApplyCount(seed, n), max)
      {
        EmitsInsideBounds(seed, count, n);
      }
    }

    /** Any number of calls: the first 65536 succeed in order, every later one fails and changes nothing. */
    method Drain(calls: nat) returns (ids: seq<Ksuid>, failures: nat)
      requires count == 0
      modifies this`count
      ensures |ids| == (if calls <= 0x1_0000 then calls else 0x1_0000) && failures == calls - |ids|
      ensures count == |ids|
      ensures forall i :: 0 <= i < |ids| ==> ids[i] == ApplyCount(seed, i)
    {
      ids, failures := [], 0;
      var out := new byte[KSUID_BYTES];
      for k := 0 to calls
        invariant |ids| == (if k <= 0x1_0000 then k else 0x1_0000) && failures == k - |ids|
        invariant count == |ids|
        invariant forall i :: 0 <= i < |ids| ==> ids[i] == ApplyCount(seed, i)
      {
        var e := Next(out);
        if e == OK {
          ids := ids + [out[..]];
        } else {
          failures := failures + 1;
        }
      }
    }
  }

  /** As a number, an identifier of the sequence is the seed with its low 16 bits replaced by the count. */
  lemma {:induction false} CountIsLow16Bits(seed: Ksuid, n: u16)
    ensures Value(ApplyCount(seed, n), 0x100) == Value(seed, 0x100) / 0x1_0000 * 0x1_0000 + n as int
  {
    hide Value;
    var head, tail := seed[..18], seed[18..];
    assert seed == head + tail;
    ValueConcat(head, tail, 0x100);
    ValueConcat(head, [n / 0x100 % 0x100, n % 0x100], 0x100);
    TwoBytes(n / 0x100 % 0x100, n % 0x100);
    assert tail == [seed[18], seed[19]];
    TwoBytes(seed[18], seed[19]);
    assert Pow(0x100, 2) == 0x1_0000;
    LowPart(Value(head, 0x100), seed[18] as int * 0x100 + seed[19] as int);
  }

  lemma {:induction false} TwoBytes(hi: int, lo: int)
    ensures Value([hi, lo], 0x100) == hi * 0x100 + lo
  {
    ValueSnoc([], hi, 0x100);
    ValueSnoc([hi], lo, 0x100);
    assert [] + [hi] == [hi] && [hi] + [lo] == [hi, lo];
  }

  lemma {:induction false} LowPart(h: int, l: int)
    requires 0 <= l < 0x1_0000
    ensures (h * 0x1_0000 + l) / 0x1_0000 * 0x1_0000 == h * 0x1_0000
  {
  }

  /** A larger count is a later identifier and a later string, and every emit from `count` on
      lies inside the bounds taken at `count`. */
  lemma {:induction false} EmitsIncrease(seed: Ksuid, m: u16, n: u16)
    requires m < n
    ensures LexLess(ApplyCount(seed, m), ApplyCount(seed, n))
    ensures LexLess(Encoding(ApplyCount(seed, m)), Encoding(ApplyCount(seed, n)))
  {
    var a, b := ApplyCount(seed, m), ApplyCount(seed, n);
    var k := if m / 0x100 < n / 0x100 then 18 else 19;
    assert a[..18] == b[..18];
    if k == 19 {
      assert a[..19] == a[..18] + [a[18]] && b[..19] == b[..18] + [b[18]];
    }
    assert FirstDiff(a, b, k) && a[k] < b[k];
    EncodingOrder(a, b);
  }

  lemma {:induction false} EmitsInsideBounds(seed: Ksuid, count: u32, n: u16)
    requires count <= n
    ensures LexLeq(ApplyCount(seed, count), ApplyCount(seed, n))
    ensures LexLeq(ApplyCount(seed, n), ApplyCount(seed, UINT16_MAX))
  {
    if count < n {
      EmitsIncrease(seed, count, n);
    }
    if n < UINT16_MAX {
      EmitsIncrease(seed, n, UINT16_MAX);
    }
  }
}
