/** chronoid/ksuid/compare_sse2.c: the 20-byte compare. */
module KsuidCompare {
  import opened Positional
  import opened Words
  import opened Base62Text

  /** `_mm_cmpeq_epi8`. */
  function CmpEqEpi8(a: seq<byte>, b: seq<byte>): (r: seq<byte>)
    requires |a| == |b|
    ensures |r| == |a|
  {
    seq(|a|, i requires 0 <= i < |a| => if a[i] == b[i] then 0xff else 0)
  }

  /** `_mm_movemask_epi8`: the top bit of lane i becomes bit i. */
  function MoveMask(v: seq<byte>): nat {
    if v == [] then 0 else v[0] / 0x80 + 2 * MoveMask(v[1..])
  }

  /** `__builtin_ctz`. */
  function Ctz(x: nat): nat
    requires x > 0
  {
    if x % 2 == 1 then 0 else 1 + Ctz(x / 2)
  }

  /** `chronoid_ksuid_first_diff_sse2`. */
  function FirstDiffSse2(eqMask: u32): int {
    var diff := And(0xFFFF_FFFF - eqMask, 0xFFFF);
    if diff == 0 then 16 else Ctz(diff)
  }

  lemma {:induction false} MoveMaskBound(v: seq<byte>)
    ensures MoveMask(v) < Pow(2, |v|)
  {
    if v != [] {
      MoveMaskBound(v[1..]);
    }
  }

  /** The lowest set bit of the complemented mask is the first lane that is not all ones. */
  lemma {:induction false} LowestClearLane(v: seq<byte>)
    requires forall i :: 0 <= i < |v| ==> v[i] == 0 || v[i] == 0xff
    ensures MoveMask(v) < Pow(2, |v|)
    ensures var d := Pow(2, |v|) - 1 - MoveMask(v);
      if d == 0 then forall i :: 0 <= i < |v| ==> v[i] == 0xff
      else Ctz(d) < |v| && v[Ctz(d)] == 0 && forall i :: 0 <= i < Ctz(d) ==> v[i] == 0xff
  {
    MoveMaskBound(v);
    if v != [] {
      var rest := v[1..];
      LowestClearLane(rest);
      MoveMaskBound(rest);
      var d, e := Pow(2, |v|) - 1 - MoveMask(v), Pow(2, |rest|) - 1 - MoveMask(rest);
      assert v == [v[0]] + rest;
      if v[0] == 0xff {
        assert d == 2 * e;
        if e > 0 {
          assert Ctz(d) == 1 + Ctz(e);
          assert v[Ctz(d)] == rest[Ctz(e)];
        }
      } else {
        assert d == 2 * e + 1 && Ctz(d) == 0;
      }
    }
  }

  lemma {:induction false} Complement(m: nat)
    requires m <= 0xFFFF
    ensures And(0xFFFF_FFFF - m, 0xFFFF) == 0xFFFF - m
  {
    hide Bits;
    Powers();
    AndMask(16, 0xFFFF_FFFF - m);
    assert (0xFFFF_FFFF - m) % 0x1_0000 == 0xFFFF - m;
  }

  lemma {:induction false} FirstDiffCorrect(a: seq<byte>, b: seq<byte>)
    requires |a| == |b| == 16
    ensures MoveMask(CmpEqEpi8(a, b)) <= 0xFFFF
    ensures var k := FirstDiffSse2(MoveMask(CmpEqEpi8(a, b)));
      if a == b then k == 16 else 0 <= k < 16 && FirstDiff(a, b, k)
  {
    hide MoveMask, Bits, Ctz;
    var v := CmpEqEpi8(a, b);
    LowestClearLane(v);
    Powers();
    var m := MoveMask(v);
    Complement(m);
    var k := FirstDiffSse2(m);
    if a != b {
      var j := SomeFirstDiff(a, b);
      assert v[j] == 0;
      forall i | 0 <= i < k ensures a[i] == b[i] {
        assert v[i] == 0xff;
      }
      assert a[..k] == b[..k];
    } else {
      assert forall i :: 0 <= i < 16 ==> v[i] == 0xff;
    }
  }

  /** `chronoid_ksuid_compare20_sse2` decides the byte order: 16 lanes at once, then four bytes. */
  method Compare20Sse2(a: Ksuid, b: Ksuid) returns (sign: int)
    ensures sign == -1 || sign == 0 || sign == 1
    ensures sign == -1 <==> LexLess(a, b)
    ensures sign == 0 <==> a == b
    ensures sign == 1 <==> LexLess(b, a)
    ensures sign == -1 <==> Value(a, 0x100) < Value(b, 0x100)
    ensures sign == -1 <==> LexLess(Encoding(a), Encoding(b))
  {
    EncodingOrder(a, b);
    LexIffValue(a, b, 0x100);
    FirstDiffCorrect(a[..16], b[..16]);
    var eqMask := MoveMask(CmpEqEpi8(a[..16], b[..16]));
    var idx := FirstDiffSse2(eqMask);
    if idx < 16 {
      assert a[..16][..idx] == a[..idx] && b[..16][..idx] == b[..idx];
      DecidedAt(a, b, idx);
      return if a[idx] < b[idx] then -1 else 1;
    }
    for i := 16 to 20
      invariant a[..i] == b[..i]
    {
      if a[i] != b[i] {
        DecidedAt(a, b, i);
        return if a[i] < b[i] then -1 else 1;
      }
      assert a[..i + 1] == a[..i] + [a[i]] && b[..i + 1] == b[..i] + [b[i]];
    }
    assert a == a[..20] == b[..20] == b;
    return 0;
  }

  lemma {:induction false} DecidedAt(a: seq<byte>, b: seq<byte>, k: int)
    requires |a| == |b| && FirstDiff(a, b, k)
    ensures a != b
    ensures LexLess(a, b) <==> a[k] < b[k]
    ensures LexLess(b, a) <==> a[k] > b[k]
  {
    assert FirstDiff(b, a, k);
    if a[k] < b[k] {
      assert LexLess(a, b);
      LexAsymmetric(a, b);
    } else {
      assert LexLess(b, a);
      LexAsymmetric(b, a);
    }
  }
}
