/** chronoid/ksuid/encode_avx2.c: eight KSUIDs per iteration, division by 62 through a
    reciprocal multiply-high. */
module EncodeAvx2 {
  import opened Positional
  import opened Words
  import opened Simd64
  import opened Base62Text
  import opened EncodeScalar
  import Base62
  import DivisorMagic

  const DIV62_M: u64 := 0x421084210842108

  // ---- multiply-high ----

  /** `chronoid_ksuid_mulhi64_avx2`. */
  function MulHi64(a: M256, b: M256): M256 {
    var mask32 := Set1(0xFFFF_FFFF);
    var aHi := SrliEpi64(a, 32);
    var bHi := SrliEpi64(b, 32);
    var ll := MulEpu32(a, b);
    var lh := MulEpu32(a, bHi);
    var hl := MulEpu32(aHi, b);
    var hh := MulEpu32(aHi, bHi);
    var llHi := SrliEpi64(ll, 32);
    var lhLo := AndSi256(lh, mask32);
    var hlLo := AndSi256(hl, mask32);
    var lhHi := SrliEpi64(lh, 32);
    var hlHi := SrliEpi64(hl, 32);
    var midLow := AddEpi64(AddEpi64(lhLo, hlLo), llHi);
    var midCarry := SrliEpi64(midLow, 32);
    AddEpi64(AddEpi64(hh, lhHi), AddEpi64(hlHi, midCarry))
  }

  /** The same computation in one lane. */
  function MulHiLane(a: u64, b: u64): u64 {
    var aHi, bHi := WordShr(a, 32), WordShr(b, 32);
    var ll, lh, hl, hh := WordMul32(a, b), WordMul32(a, bHi), WordMul32(aHi, b), WordMul32(aHi, bHi);
    var midLow := WordAdd(WordAdd(WordAnd(lh, 0xFFFF_FFFF), WordAnd(hl, 0xFFFF_FFFF)), WordShr(ll, 32));
    WordAdd(WordAdd(hh, WordShr(lh, 32)), WordAdd(WordShr(hl, 32), WordShr(midLow, 32)))
  }

  /** The schoolbook identity behind the four products. */
  lemma {:induction false} Schoolbook(al: int, ah: int, bl: int, bh: int)
    requires 0 <= al < 0x1_0000_0000 && 0 <= ah < 0x1_0000_0000
    requires 0 <= bl < 0x1_0000_0000 && 0 <= bh < 0x1_0000_0000
    ensures (ah * 0x1_0000_0000 + al) * (bh * 0x1_0000_0000 + bl)
         == ah * bh * 0x1_0000_0000_0000_0000 + (al * bh + ah * bl) * 0x1_0000_0000 + al * bl
  {
    var w := 0x1_0000_0000;
    assert ah * w * (bh * w + bl) == ah * bh * 0x1_0000_0000_0000_0000 + ah * bl * w by {
      assert ah * w * (bh * w) == ah * bh * (w * w);
      assert ah * w * bl == ah * bl * w;
    }
    assert al * (bh * w + bl) == al * bh * w + al * bl;
  }

  /** Recombining the halves of the four products gives the high word, with no lane overflow. */
  lemma {:induction false} HighWord(ll: int, lh: int, hl: int, hh: int, ab: int)
    requires 0 <= ll <= 0xFFFF_FFFE_0000_0001 && 0 <= lh <= 0xFFFF_FFFE_0000_0001
    requires 0 <= hl <= 0xFFFF_FFFE_0000_0001 && 0 <= hh <= 0xFFFF_FFFE_0000_0001
    requires ab == hh * 0x1_0000_0000_0000_0000 + (lh + hl) * 0x1_0000_0000 + ll
    ensures var midLow := lh % 0x1_0000_0000 + hl % 0x1_0000_0000 + ll / 0x1_0000_0000;
      && midLow < 0x4_0000_0000
      && hh + lh / 0x1_0000_0000 < 0x1_0000_0000_0000_0000
      && hh + lh / 0x1_0000_0000 + (hl / 0x1_0000_0000 + midLow / 0x1_0000_0000) == ab / 0x1_0000_0000_0000_0000
  {
    var midLow := lh % 0x1_0000_0000 + hl % 0x1_0000_0000 + ll / 0x1_0000_0000;
    var high := hh + lh / 0x1_0000_0000 + (hl / 0x1_0000_0000 + midLow / 0x1_0000_0000);
    var low := midLow % 0x1_0000_0000 * 0x1_0000_0000 + ll % 0x1_0000_0000;
    assert ab == high * 0x1_0000_0000_0000_0000 + low;
    assert 0 <= low < 0x1_0000_0000_0000_0000;
  }

  lemma {:induction false} HalfWords(x: u64)
    ensures WordShr(x, 32) == x / 0x1_0000_0000
    ensures WordAnd(x, 0xFFFF_FFFF) == x % 0x1_0000_0000
  {
    Powers();
    AndMask(32, x);
  }

  lemma {:induction false} ProductBelow(a: int, b: int)
    requires 0 <= a < 0x1_0000_0000_0000_0000 && 0 <= b < 0x1_0000_0000_0000_0000
    ensures 0 <= a * b / 0x1_0000_0000_0000_0000 < 0x1_0000_0000_0000_0000
  {
    MulMono(0, a, b);
    MulMono(a, 0xFFFF_FFFF_FFFF_FFFF, b);
  }

  /** The four 32x32 products of a lane and how they make up the full product. */
  lemma {:induction false} LaneProducts(a: u64, b: u64)
    ensures WordMul32(a, b) <= 0xFFFF_FFFE_0000_0001 && WordMul32(a, WordShr(b, 32)) <= 0xFFFF_FFFE_0000_0001
    ensures WordMul32(WordShr(a, 32), b) <= 0xFFFF_FFFE_0000_0001
    ensures WordMul32(WordShr(a, 32), WordShr(b, 32)) <= 0xFFFF_FFFE_0000_0001
    ensures a as int * b as int
         == WordMul32(WordShr(a, 32), WordShr(b, 32)) as int * 0x1_0000_0000_0000_0000
          + (WordMul32(a, WordShr(b, 32)) as int + WordMul32(WordShr(a, 32), b) as int) * 0x1_0000_0000
          + WordMul32(a, b) as int
  {
    hide WordMul32, WordShr, WordAnd;
    var al, ah, bl, bh := a % 0x1_0000_0000, a / 0x1_0000_0000, b % 0x1_0000_0000, b / 0x1_0000_0000;
    HalfWords(a);
    HalfWords(b);
    LaneProduct(a, b, al, bl);
    LaneProduct(a, WordShr(b, 32), al, bh);
    LaneProduct(WordShr(a, 32), b, ah, bl);
    LaneProduct(WordShr(a, 32), WordShr(b, 32), ah, bh);
    Schoolbook(al, ah, bl, bh);
  }

  lemma {:induction false} LaneProduct(x: u64, y: u64, lx: int, ly: int)
    requires lx == x % 0x1_0000_0000 && ly == y % 0x1_0000_0000
    ensures WordMul32(x, y) == lx * ly <= 0xFFFF_FFFE_0000_0001
  {
    LowProduct(lx, ly);
  }

  lemma {:induction false} LaneSums(ll: u64, lh: u64, hl: u64, hh: u64, ab: int)
    requires ll <= 0xFFFF_FFFE_0000_0001 && lh <= 0xFFFF_FFFE_0000_0001
    requires hl <= 0xFFFF_FFFE_0000_0001 && hh <= 0xFFFF_FFFE_0000_0001
    requires ab == hh as int * 0x1_0000_0000_0000_0000 + (lh as int + hl as int) * 0x1_0000_0000 + ll as int
    requires ab / 0x1_0000_0000_0000_0000 < 0x1_0000_0000_0000_0000
    ensures var midLow := WordAdd(WordAdd(WordAnd(lh, 0xFFFF_FFFF), WordAnd(hl, 0xFFFF_FFFF)), WordShr(ll, 32));
      WordAdd(WordAdd(hh, WordShr(lh, 32)), WordAdd(WordShr(hl, 32), WordShr(midLow, 32)))
        == ab / 0x1_0000_0000_0000_0000
  {
    HighWord(ll, lh, hl, hh, ab);
    HalfWords(ll);
    HalfWords(lh);
    HalfWords(hl);
    MiddleSum(WordAnd(lh, 0xFFFF_FFFF), WordAnd(hl, 0xFFFF_FFFF), WordShr(ll, 32));
    var midLow := WordAdd(WordAdd(WordAnd(lh, 0xFFFF_FFFF), WordAnd(hl, 0xFFFF_FFFF)), WordShr(ll, 32));
    HalfWords(midLow);
    HighSum(hh, WordShr(lh, 32), WordShr(hl, 32), WordShr(midLow, 32));
  }

  lemma {:induction false} MiddleSum(x: u64, y: u64, z: u64)
    requires x < 0x1_0000_0000 && y < 0x1_0000_0000 && z < 0x1_0000_0000
    ensures WordAdd(WordAdd(x, y), z) == x as int + y as int + z as int
  {
  }

  lemma {:induction false} HighSum(hh: u64, x: u64, y: u64, z: u64)
    requires hh as int + x as int + (y as int + z as int) < 0x1_0000_0000_0000_0000
    ensures WordAdd(WordAdd(hh, x), WordAdd(y, z)) == hh as int + x as int + (y as int + z as int)
  {
    NoWrapAdd(hh, x);
    NoWrapAdd(y, z);
  }

  /** Each lane holds the exact high word of the 128-bit product, for all 64-bit operands. */
  lemma {:induction false} MulHiLaneExact(a: u64, b: u64)
    ensures MulHiLane(a, b) == a as int * b as int / 0x1_0000_0000_0000_0000
  {
    LaneProducts(a, b);
    ProductBelow(a, b);
    var aHi, bHi := WordShr(a, 32), WordShr(b, 32);
    LaneSums(WordMul32(a, b), WordMul32(a, bHi), WordMul32(aHi, b), WordMul32(aHi, bHi), a as int * b as int);
  }

  lemma {:induction false} MulHi64Exact(a: M256, b: M256)
    ensures forall t :: 0 <= t < 4 ==> MulHi64(a, b)[t] == a[t] as int * b[t] as int / 0x1_0000_0000_0000_0000
  {
    forall t | 0 <= t < 4
      ensures MulHi64(a, b)[t] == a[t] as int * b[t] as int / 0x1_0000_0000_0000_0000
    {
      assert MulHi64(a, b)[t] == MulHiLane(a[t], b[t]);
      MulHiLaneExact(a[t], b[t]);
    }
  }

  // ---- division by 62 ----

  datatype DivMod = DivMod(q: M256, r: M256)

  /** `chronoid_ksuid_divmod62_avx2`. */
  function DivMod62(value: M256, mag: M256): DivMod {
    var q := MulHi64(value, mag);
    var q62 := SubEpi64(SlliEpi64(q, 6), SlliEpi64(q, 1));
    var r := SubEpi64(value, q62);
    var ge62 := CmpGtEpi64(r, Set1(61));
    DivMod(AddEpi64(q, AndSi256(ge62, Set1(1))), SubEpi64(r, AndSi256(ge62, Set1(62))))
  }

  /** The committed constant is the one the deriver computes. */
  lemma {:induction false} MagicIsDerived()
    ensures DivisorMagic.DeriveMagic(64, 62) == DivisorMagic.Magic(DIV62_M)
    ensures 0x1_0000_0000_0000_0000 - DIV62_M * 62 == 16
  {
    Powers();
  }

  /** q * 62 through two shifts, exact although q << 6 may wrap. */
  lemma {:induction false} ShiftedTimes62(q: u64)
    requires q * 62 < 0x1_0000_0000_0000_0000
    ensures WordSub(WordShl(q, 6), WordShl(q, 1)) == q * 62
  {
    Powers();
    assert Pow(2, 1) == 2;
    WrappedDifference(q as int * 64, q as int * 2);
  }

  lemma {:induction false} WrappedDifference(x: nat, y: nat)
    requires y <= x && x - y < 0x1_0000_0000_0000_0000 && y < 0x1_0000_0000_0000_0000
    ensures (x % 0x1_0000_0000_0000_0000 - y % 0x1_0000_0000_0000_0000) % 0x1_0000_0000_0000_0000 == x - y
  {
  }

  lemma {:induction false} MaskSelect(x: u64)
    ensures WordAnd(0xFFFF_FFFF_FFFF_FFFF, x) == x && WordAnd(0, x) == 0
  {
    Powers();
    AndOnes(64, x);
    BitsZero(x);
  }

  /** The correction step, from an estimate that is exact or one too small. */
  lemma {:induction false} DivModLane(v: u64, q: u64)
    requires q == v / 62 || q == v / 62 - 1
    ensures var r := WordSub(v, WordSub(WordShl(q, 6), WordShl(q, 1)));
      && WordAdd(q, WordAnd(WordGt(r, 61), 1)) == v / 62
      && WordSub(r, WordAnd(WordGt(r, 61), 62)) == v % 62
  {
    ShiftedTimes62(q);
    var q62 := WordSub(WordShl(q, 6), WordShl(q, 1));
    NoWrapSub(v, q62);
    MaskSelect(1);
    MaskSelect(62);
    Correct(v, q, WordSub(v, q62));
  }

  lemma {:induction false} Correct(v: u64, q: u64, r: u64)
    requires (q == v / 62 || q == v / 62 - 1) && r == v as int - q as int * 62
    ensures r < 124 && WordGt(r, 61) == if r > 61 then 0xFFFF_FFFF_FFFF_FFFF else 0
    ensures WordAdd(q, if r > 61 then 1 else 0) == v / 62
    ensures WordSub(r, if r > 61 then 62 else 0) == v % 62
  {
    var k := v / 62;
    assert v == k * 62 + v % 62;
    NoWrapAdd(q, if r > 61 then 1 else 0);
    NoWrapSub(r, if r > 61 then 62 else 0);
  }

  lemma {:induction false} Estimate(v: u64)
    ensures var q := v as int * DIV62_M as int / 0x1_0000_0000_0000_0000;
      q == v / 62 || q == v / 62 - 1
  {
    Powers();
    MagicIsDerived();
    DivisorMagic.MulHighExact(64, 62, v);
  }

  /** Exact quotient and remainder in every lane, for every 64-bit value; the kernel's own
      domain is only value < 62 * 2^32. */
  lemma {:induction false} DivMod62Exact(value: M256)
    ensures var d := DivMod62(value, Set1(DIV62_M));
      forall t :: 0 <= t < 4 ==> d.q[t] == value[t] / 62 && d.r[t] == value[t] % 62
  {
    var mag := Set1(DIV62_M);
    MulHi64Exact(value, mag);
    hide MulHi64, WordAdd, WordSub, WordAnd, WordShl, WordGt;
    forall t | 0 <= t < 4
      ensures DivMod62(value, mag).q[t] == value[t] / 62 && DivMod62(value, mag).r[t] == value[t] % 62
    {
      Estimate(value[t]);
      DivModLane(value[t], MulHi64(value, mag)[t]);
    }
  }

  // ---- one output column: five limbs of four lanes divided by 62 ----

  /** Lane `t` of a pack of limb registers. */
  function Lane(pack: seq<M256>, t: int): (ls: seq<u64>)
    requires 0 <= t < 4
    ensures |ls| == |pack|
  {
    seq(|pack|, j requires 0 <= j < |pack| => pack[j][t])
  }

  ghost predicate LimbPack(pack: seq<M256>) {
    forall j, t :: 0 <= j < |pack| && 0 <= t < 4 ==> pack[j][t] < 0x1_0000_0000
  }

  ghost predicate RemaindersBelow62(rem: M256) {
    forall t :: 0 <= t < 4 ==> rem[t] < 62
  }

  lemma {:induction false} ComposeValue(limb: u64, rem: u64)
    requires limb < 0x1_0000_0000 && rem < 62
    ensures WordOr(limb, WordShl(rem, 32)) == limb as int + rem as int * 0x1_0000_0000
  {
    Powers();
    OrDisjoint(32, rem, limb);
  }

  ghost predicate LaneDivision(limb: M256, rem: M256, d: DivMod) {
    forall t :: 0 <= t < 4 ==>
      var value := limb[t] as int + rem[t] as int * 0x1_0000_0000;
      value < 62 * 0x1_0000_0000 && d.q[t] == value / 62 && d.r[t] == value % 62
  }

  /** `value = limb | (rem << 32)`, then the corrected division.  With the value below 62 * 2^32
      the quotient is again a limb, so the next OR does not overlap either. */
  method DivideLimb(limb: M256, rem: M256) returns (d: DivMod)
    requires forall t :: 0 <= t < 4 ==> limb[t] < 0x1_0000_0000 && rem[t] < 62
    ensures LaneDivision(limb, rem, d)
  {
    var value := OrSi256(limb, SlliEpi64(rem, 32));
    forall t | 0 <= t < 4
      ensures value[t] == limb[t] as int + rem[t] as int * 0x1_0000_0000
    {
      ComposeValue(limb[t], rem[t]);
    }
    d := DivideBy62(value);
  }

  method DivideBy62(value: M256) returns (d: DivMod)
    ensures forall t :: 0 <= t < 4 ==> d.q[t] == value[t] / 62 && d.r[t] == value[t] % 62
  {
    DivMod62Exact(value);
    d := DivMod62(value, Set1(DIV62_M));
  }

  /** The first `j` limbs of every lane have been divided: quotient so far and carried remainder. */
  ghost predicate Divided(before: seq<M256>, now: seq<M256>, rem: M256, j: nat) {
    && |before| == |now| && j <= |now| && LimbPack(now) && RemaindersBelow62(rem) && now[j..] == before[j..]
    && forall t :: 0 <= t < 4 ==>
         Value(Lane(before[..j], t), W32) == Value(Lane(now[..j], t), W32) * 62 + rem[t]
  }

  lemma {:induction false} DividedStep(before: seq<M256>, now: seq<M256>, rem: M256, j: nat, d: DivMod)
    requires Divided(before, now, rem, j) && j < |now| && LaneDivision(now[j], rem, d)
    ensures Divided(before, now[j := d.q], d.r, j + 1)
  {
    var next := now[j := d.q];
    assert before[j] == before[j..][0] == now[j..][0] == now[j];
    assert next[j + 1..] == now[j..][1..] && before[j + 1..] == before[j..][1..];
    forall t | 0 <= t < 4
      ensures Value(Lane(before[..j + 1], t), W32) == Value(Lane(next[..j + 1], t), W32) * 62 + d.r[t]
    {
      assert Lane(before[..j + 1], t) == Lane(before[..j], t) + [now[j][t]];
      assert Lane(next[..j + 1], t) == Lane(now[..j], t) + [d.q[t]];
      ValueSnoc(Lane(before[..j], t), now[j][t], W32);
      ValueSnoc(Lane(now[..j], t), d.q[t], W32);
    }
  }

  /** Every lane has been divided by 62. */
  ghost predicate DividedBy62(before: seq<M256>, now: seq<M256>, rem: M256) {
    && LimbPack(now) && RemaindersBelow62(rem)
    && forall t :: 0 <= t < 4 ==>
         && Value(Lane(now, t), W32) == Value(Lane(before, t), W32) / 62
         && rem[t] == Value(Lane(before, t), W32) % 62
  }

  lemma {:induction false} DividedAll(before: seq<M256>, now: seq<M256>, rem: M256)
    requires |now| == 5 && Divided(before, now, rem, 5)
    ensures DividedBy62(before, now, rem)
  {
    assert before[..5] == before && now[..5] == now;
  }

  /** The inner loop over the five limbs, both packs. */
  method DivideColumn(Llo: array<M256>, Lhi: array<M256>) returns (remLo: M256, remHi: M256)
    requires Llo != Lhi && Llo.Length == Lhi.Length == 5 && LimbPack(Llo[..]) && LimbPack(Lhi[..])
    modifies Llo, Lhi
    ensures DividedBy62(old(Llo[..]), Llo[..], remLo) && DividedBy62(old(Lhi[..]), Lhi[..], remHi)
  {
    ghost var lo0, hi0 := Llo[..], Lhi[..];
    remLo, remHi := SetZero(), SetZero();
    for j := 0 to 5
      invariant Divided(lo0, Llo[..], remLo, j) && Divided(hi0, Lhi[..], remHi, j)
    {
      ghost var lo, hi := Llo[..], Lhi[..];
      assert forall t :: 0 <= t < 4 ==> lo[j][t] < 0x1_0000_0000 && hi[j][t] < 0x1_0000_0000;
      var dLo := DivideLimb(Llo[j], remLo);
      var dHi := DivideLimb(Lhi[j], remHi);
      DividedStep(lo0, lo, remLo, j, dLo);
      DividedStep(hi0, hi, remHi, j, dHi);
      Llo[j] := dLo.q;
      Lhi[j] := dHi.q;
      remLo := dLo.r;
      remHi := dHi.r;
      assert Llo[..] == lo[j := dLo.q] && Lhi[..] == hi[j := dHi.q];
    }
    DividedAll(lo0, Llo[..], remLo);
    DividedAll(hi0, Lhi[..], remHi);
  }

  // ---- eight identifiers ----

  /** The five limbs of one of the eight lanes, the low pack holding lanes 0..3. */
  function LaneOf(lo: seq<M256>, hi: seq<M256>, lane: int): seq<u64>
    requires 0 <= lane < 8
  {
    if lane < 4 then Lane(lo, lane) else Lane(hi, lane - 4)
  }

  /** The structure-of-arrays pack: limb `j` of identifier `lane` goes to lane `lane` of register `j`. */
  method PackLimbs(ids: seq<Ksuid>, Llo: array<M256>, Lhi: array<M256>)
    requires |ids| == 8 && Llo != Lhi && Llo.Length == Lhi.Length == 5
    modifies Llo, Lhi
    ensures LimbPack(Llo[..]) && LimbPack(Lhi[..])
    ensures forall lane :: 0 <= lane < 8 ==> Value(LaneOf(Llo[..], Lhi[..], lane), W32) == Value(ids[lane], 0x100)
  {
    hide Value, Be32Load;
    for j := 0 to 5
      invariant LimbPack(Llo[..j]) && LimbPack(Lhi[..j])
      invariant forall lane :: 0 <= lane < 8 ==> LaneOf(Llo[..j], Lhi[..j], lane) == Base62.Limbs(ids[lane], j)
    {
      ghost var lo, hi := Llo[..j], Lhi[..j];
      var plo, phi := PackRegisters(ids, j);
      Llo[j] := plo;
      Lhi[j] := phi;
      assert Llo[..j + 1] == lo + [plo] && Lhi[..j + 1] == hi + [phi];
      forall lane | 0 <= lane < 8
        ensures LaneOf(Llo[..j + 1], Lhi[..j + 1], lane) == Base62.Limbs(ids[lane], j + 1)
      {
        var limb := Be32Load(ids[lane][4 * (j + 1) - 4..4 * (j + 1)]);
        assert Base62.Limbs(ids[lane], j + 1) == Base62.Limbs(ids[lane], j) + [limb];
        if lane < 4 {
          assert Lane(lo + [plo], lane) == Lane(lo, lane) + [plo[lane]];
        } else {
          assert Lane(hi + [phi], lane - 4) == Lane(hi, lane - 4) + [phi[lane - 4]];
        }
      }
    }
    assert Llo[..5] == Llo[..] && Lhi[..5] == Lhi[..];
    forall lane | 0 <= lane < 8
      ensures Value(LaneOf(Llo[..], Lhi[..], lane), W32) == Value(ids[lane], 0x100)
    {
      Base62.LimbsValue(ids[lane], 5);
      assert ids[lane][..20] == ids[lane];
    }
  }

  /** Limb `j` of all eight identifiers, through two four-word buffers. */
  method PackRegisters(ids: seq<Ksuid>, j: nat) returns (lo: M256, hi: M256)
    requires |ids| == 8 && j < 5
    ensures forall t :: 0 <= t < 4 ==> lo[t] == Be32Load(ids[t][4 * (j + 1) - 4..4 * (j + 1)])
    ensures forall t :: 0 <= t < 4 ==> hi[t] == Be32Load(ids[t + 4][4 * (j + 1) - 4..4 * (j + 1)])
    ensures forall t :: 0 <= t < 4 ==> lo[t] < 0x1_0000_0000 && hi[t] < 0x1_0000_0000
  {
    hide Be32Load;
    var plo := new u64[4];
    var phi := new u64[4];
    for lane := 0 to 4
      invariant forall l :: 0 <= l < lane ==> plo[l] == Be32Load(ids[l][4 * (j + 1) - 4..4 * (j + 1)])
      invariant forall l :: 0 <= l < lane ==> phi[l] == Be32Load(ids[l + 4][4 * (j + 1) - 4..4 * (j + 1)])
      invariant forall l :: 0 <= l < lane ==> plo[l] < 0x1_0000_0000 && phi[l] < 0x1_0000_0000
    {
      plo[lane] := Be32Load(ids[lane][4 * j..4 * j + 4]);
      phi[lane] := Be32Load(ids[lane + 4][4 * j..4 * j + 4]);
    }
    lo, hi := plo[..], phi[..];
  }

  /** Output position of character `c` of lane `l`. */
  function Cell(start: nat, l: nat, c: nat): nat {
    start + STRING_LEN * l + c
  }

  predicate InColumn(start: nat, col: nat, j: int) {
    start <= j < start + 8 * STRING_LEN && (j - start) % STRING_LEN == col
  }

  lemma {:induction false} CellInColumn(start: nat, l: nat, col: nat)
    requires l < 8 && col < STRING_LEN
    ensures InColumn(start, col, Cell(start, l, col)) && Cell(start, l, col) < start + 8 * STRING_LEN
    ensures forall k: nat :: k < l ==> Cell(start, k, col) != Cell(start, l, col)
  {
    CellIndex(l, col);
  }

  /** Alphabet lookup and scatter of one column into the eight output slices. */
  method ScatterColumn(out: array<byte>, start: nat, col: nat, remLo: M256, remHi: M256)
    requires start + 8 * STRING_LEN <= out.Length && col < STRING_LEN
    requires RemaindersBelow62(remLo) && RemaindersBelow62(remHi)
    modifies out
    ensures forall lane: nat :: lane < 8 ==>
      out[Cell(start, lane, col)] == AlphabetChar(if lane < 4 then remLo[lane] else remHi[lane - 4])
    ensures forall j | 0 <= j < out.Length && !InColumn(start, col, j) :: out[j] == old(out[j])
  {
    var rems := new u64[8](i requires 0 <= i < 8 => if i < 4 then remLo[i] else remHi[i - 4]);
    hide AlphabetChar, InColumn;
    for lane := 0 to 8
      invariant forall i :: 0 <= i < 8 ==> rems[i] == if i < 4 then remLo[i] else remHi[i - 4]
      invariant forall l: nat :: l < lane ==>
        out[Cell(start, l, col)] == AlphabetChar(if l < 4 then remLo[l] else remHi[l - 4])
      invariant forall j | 0 <= j < out.Length && !InColumn(start, col, j) :: out[j] == old(out[j])
    {
      CellInColumn(start, lane, col);
      out[Cell(start, lane, col)] := AlphabetChar(rems[lane]);
    }
  }

  ghost predicate Towers(towers: seq<seq<int>>, texts: seq<seq<byte>>) {
    && |towers| == |texts|
    && forall l :: 0 <= l < |towers| ==>
         |towers[l]| == STRING_LEN + 1 && |texts[l]| == STRING_LEN && Tower(towers[l], texts[l])
  }

  lemma {:induction false} TowersEndInZero(towers: seq<seq<int>>, texts: seq<seq<byte>>)
    requires Towers(towers, texts)
    ensures forall l :: 0 <= l < |towers| ==> towers[l][0] == 0
  {
  }

  /** Every lane's slice holds its text from column `from` on. */
  ghost predicate ColumnsFrom(s: seq<byte>, start: nat, from: nat, texts: seq<seq<byte>>)
    requires start + 8 * STRING_LEN <= |s| && |texts| == 8 && forall l :: 0 <= l < 8 ==> |texts[l]| == STRING_LEN
  {
    forall l, c :: 0 <= l < 8 && from <= c < STRING_LEN ==> s[Cell(start, l, c)] == texts[l][c]
  }

  lemma {:induction false} NoColumns(s: seq<byte>, start: nat, texts: seq<seq<byte>>)
    requires start + 8 * STRING_LEN <= |s| && |texts| == 8 && forall l :: 0 <= l < 8 ==> |texts[l]| == STRING_LEN
    ensures ColumnsFrom(s, start, STRING_LEN, texts)
  {
  }

  lemma {:induction false} ColumnAdded(was: seq<byte>, now: seq<byte>, start: nat, col: nat, texts: seq<seq<byte>>)
    requires start + 8 * STRING_LEN <= |was| == |now| && col < STRING_LEN
    requires |texts| == 8 && forall l :: 0 <= l < 8 ==> |texts[l]| == STRING_LEN
    requires ColumnsFrom(was, start, col + 1, texts)
    requires forall l: nat :: l < 8 ==> now[Cell(start, l, col)] == texts[l][col]
    requires forall j | 0 <= j < |now| && !InColumn(start, col, j) :: now[j] == was[j]
    ensures ColumnsFrom(now, start, col, texts)
  {
    forall l, c | 0 <= l < 8 && col <= c < STRING_LEN
      ensures now[Cell(start, l, c)] == texts[l][c]
    {
      CellIndex(l, c);
      if c > col {
        assert was[Cell(start, l, c)] == texts[l][c];
        assert !InColumn(start, col, Cell(start, l, c));
      }
    }
  }

  /** The 27 unconditional columns of one group of eight, with no early stop. */
  method EncodeEight(out: array<byte>, start: nat, Llo: array<M256>, Lhi: array<M256>,
                     ghost towers: seq<seq<int>>, ghost texts: seq<seq<byte>>)
    requires start + 8 * STRING_LEN <= out.Length
    requires Llo != Lhi && Llo.Length == Lhi.Length == 5 && LimbPack(Llo[..]) && LimbPack(Lhi[..])
    requires |towers| == 8 && Towers(towers, texts)
    requires forall l :: 0 <= l < 8 ==> Value(LaneOf(Llo[..], Lhi[..], l), W32) == towers[l][STRING_LEN]
    modifies out, Llo, Lhi
    ensures forall l :: 0 <= l < 8 ==> Value(LaneOf(Llo[..], Lhi[..], l), W32) == 0
    ensures ColumnsFrom(out[..], start, 0, texts)
    ensures forall j :: 0 <= j < start || start + 8 * STRING_LEN <= j < out.Length ==> out[j] == old(out[j])
  {
    hide Tower, Value, Lane, ColumnsFrom;
    NoColumns(out[..], start, texts);
    var col: int := STRING_LEN - 1;
    while col >= 0
      invariant -1 <= col < STRING_LEN
      invariant LimbPack(Llo[..]) && LimbPack(Lhi[..])
      invariant forall l :: 0 <= l < 8 ==> Value(LaneOf(Llo[..], Lhi[..], l), W32) == towers[l][col + 1]
      invariant ColumnsFrom(out[..], start, col + 1, texts)
      invariant forall j :: 0 <= j < start || start + 8 * STRING_LEN <= j < out.Length ==> out[j] == old(out[j])
    {
      ghost var lo, hi, was := Llo[..], Lhi[..], out[..];
      var remLo, remHi := DivideColumn(Llo, Lhi);
      ColumnStep(lo, hi, Llo[..], Lhi[..], remLo, remHi, towers, texts, col);
      ScatterColumn(out, start, col, remLo, remHi);
      ColumnAdded(was, out[..], start, col, texts);
      col := col - 1;
    }
    TowersEndInZero(towers, texts);
  }

  /** Dividing all lanes takes every tower down one floor and yields its character. */
  lemma {:induction false} ColumnStep(lo: seq<M256>, hi: seq<M256>, lo': seq<M256>, hi': seq<M256>, remLo: M256,
                                      remHi: M256, towers: seq<seq<int>>, texts: seq<seq<byte>>, col: int)
    requires 0 <= col < STRING_LEN && |towers| == 8 && Towers(towers, texts)
    requires DividedBy62(lo, lo', remLo) && DividedBy62(hi, hi', remHi)
    requires forall l :: 0 <= l < 8 ==> Value(LaneOf(lo, hi, l), W32) == towers[l][col + 1]
    ensures forall l :: 0 <= l < 8 ==> Value(LaneOf(lo', hi', l), W32) == towers[l][col]
    ensures forall l :: 0 <= l < 8 ==> texts[l][col] == AlphabetChar(if l < 4 then remLo[l] else remHi[l - 4])
  {
    forall l | 0 <= l < 8
      ensures Value(LaneOf(lo', hi', l), W32) == towers[l][col]
      ensures texts[l][col] == AlphabetChar(if l < 4 then remLo[l] else remHi[l - 4])
    {
      assert Tower(towers[l], texts[l]);
      assert towers[l][col + 1 - 1] == towers[l][col + 1] / 62;
      assert Value(LaneOf(lo, hi, l), W32) == towers[l][col + 1];
      if l < 4 {
        assert Value(Lane(lo', l), W32) == Value(Lane(lo, l), W32) / 62;
      } else {
        assert Value(Lane(hi', l - 4), W32) == Value(Lane(hi, l - 4), W32) / 62;
      }
    }
  }

  /** `chronoid_ksuid_string_batch_avx2`: groups of eight, then the scalar batch on the tail; the
      output is the scalar output and nothing else is written. */
  method StringBatchAvx2(ids: seq<Ksuid>, out: array<byte>, off: nat)
    requires off + STRING_LEN * |ids| <= out.Length
    modifies out
    ensures out[off..off + STRING_LEN * |ids|] == BatchText(ids)
    ensures forall p :: 0 <= p < off || off + STRING_LEN * |ids| <= p < out.Length ==> out[p] == old(out[p])
  {
    hide BatchText, Encoding;
    var bulk := |ids| - |ids| % 8;
    var base := 0;
    while base < bulk
      invariant 0 <= base <= bulk && base % 8 == 0
      invariant forall p :: off <= p < off + STRING_LEN * base ==> out[p] == BatchText(ids)[p - off]
      invariant forall p :: 0 <= p < off || off + STRING_LEN * |ids| <= p < out.Length ==> out[p] == old(out[p])
    {
      GroupOfEight(ids, base, out, off);
      base := base + 8;
    }
    if bulk < |ids| {
      StringBatchScalar(ids, bulk, out, off);
    }
  }

  method GroupOfEight(ids: seq<Ksuid>, base: nat, out: array<byte>, off: nat)
    requires base + 8 <= |ids| && off + STRING_LEN * |ids| <= out.Length
    modifies out
    ensures forall p | off + STRING_LEN * base <= p < off + STRING_LEN * (base + 8) ::
      out[p] == BatchText(ids)[p - off]
    ensures forall p | 0 <= p < off + STRING_LEN * base || off + STRING_LEN * (base + 8) <= p < out.Length ::
      out[p] == old(out[p])
  {
    hide BatchText, Encoding, Tower;
    var Llo := new M256[5](_ => SetZero());
    var Lhi := new M256[5](_ => SetZero());
    PackLimbs(ids[base..base + 8], Llo, Lhi);
    ghost var towers, texts := GroupTowers(ids[base..base + 8]);
    EncodeEight(out, off + STRING_LEN * base, Llo, Lhi, towers, texts);
    forall p | off + STRING_LEN * base <= p < off + STRING_LEN * (base + 8)
      ensures out[p] == BatchText(ids)[p - off]
    {
      var k, c := (p - off) / STRING_LEN, (p - off) % STRING_LEN;
      BatchSlice(ids, k);
      assert p == Cell(off + STRING_LEN * base, k - base, c);
      assert out[p] == texts[k - base][c];
      assert texts[k - base] == Encoding(ids[base..base + 8][k - base]);
    }
  }

  lemma {:induction false} GroupTowers(ids: seq<Ksuid>) returns (towers: seq<seq<int>>, texts: seq<seq<byte>>)
    ensures |towers| == |ids| && Towers(towers, texts)
    ensures forall l :: 0 <= l < |ids| ==> texts[l] == Encoding(ids[l]) && towers[l][STRING_LEN] == Value(ids[l], 0x100)
  {
    if ids == [] {
      return [], [];
    }
    var last := ids[|ids| - 1];
    var ts, xs := GroupTowers(ids[..|ids| - 1]);
    var t := EncodingTower(last);
    towers, texts := ts + [t], xs + [Encoding(last)];
  }
}
