/** chronoid/uuidv7/hex_ssse3.c and chronoid/uuidv7/hex_avx2.c: hex encoding by shuffle. */
module HexSimd {
  import opened Words
  import opened UuidLayout
  import opened HexText

  // ---- intrinsics on a register of sixteen bytes ----

  type V128 = v: seq<byte> | |v| == 16 witness seq(16, _ => 0)

  /** `_mm_srli_epi16 (v, 4)`: eight little-endian 16-bit words shifted right. */
  function SrliEpi16By4(v: V128): V128 {
    seq<byte>(16, i requires 0 <= i < 16 =>
      var word := v[i - i % 2] as int + v[i - i % 2 + 1] as int * 0x100;
      if i % 2 == 0 then word / 16 % 0x100 else word / 16 / 0x100)
  }

  function AndSi128(v: V128, mask: byte): V128 {
    seq<byte>(16, i requires 0 <= i < 16 => AndByte(v[i], mask))
  }

  function AndByte(x: byte, y: byte): byte {
    Powers();
    BitsBound(AND, 8, x, y);
    And(x, y)
  }

  /** `_mm_shuffle_epi8`: a set top bit selects zero, else the low four bits index the table. */
  function ShuffleEpi8(lut: V128, idx: V128): V128 {
    seq<byte>(16, i requires 0 <= i < 16 => if idx[i] >= 0x80 then 0 else lut[idx[i] as int % 16])
  }

  function UnpackLoEpi8(a: V128, b: V128): V128 {
    seq<byte>(16, i requires 0 <= i < 16 => if i % 2 == 0 then a[i / 2] else b[i / 2])
  }

  function UnpackHiEpi8(a: V128, b: V128): V128 {
    seq<byte>(16, i requires 0 <= i < 16 => if i % 2 == 0 then a[8 + i / 2] else b[8 + i / 2])
  }

  function HexLut(): V128 {
    seq<byte>(16, i requires 0 <= i < 16 => HexChar(i))
  }

  // ---- one register ----

  datatype Halves = Halves(lo: V128, hi: V128)

  /** Nibble extraction, table lookup and interleave, as both kernels do in each 128-bit lane. */
  function HexLane(v: V128): Halves {
    var hiNibbles := AndSi128(SrliEpi16By4(v), 0x0F);
    var loNibbles := AndSi128(v, 0x0F);
    var asciiHi := ShuffleEpi8(HexLut(), hiNibbles);
    var asciiLo := ShuffleEpi8(HexLut(), loNibbles);
    Halves(UnpackLoEpi8(asciiHi, asciiLo), UnpackHiEpi8(asciiHi, asciiLo))
  }

  /** The bits that a 16-bit shift drags across the byte boundary are exactly those the mask drops. */
  lemma {:induction false} ShiftAndMask(even: byte, odd: byte)
    ensures var word := even as int + odd as int * 0x100;
      && AndByte(word / 16 % 0x100, 0x0F) == even as int / 16
      && AndByte(word / 16 / 0x100, 0x0F) == odd as int / 16
  {
    hide AndByte;
    var word := even as int + odd as int * 0x100;
    LowNibble(word / 16 % 0x100);
    LowNibble(word / 16 / 0x100);
    WordNibbles(even, odd);
  }

  lemma {:induction false} WordNibbles(even: int, odd: int)
    requires 0 <= even < 0x100 && 0 <= odd < 0x100
    ensures (even + odd * 0x100) / 16 % 0x100 % 16 == even / 16
    ensures (even + odd * 0x100) / 16 / 0x100 % 16 == odd / 16
  {
    assert (even + odd * 0x100) / 16 == even / 16 + odd * 16;
  }

  lemma {:induction false} LaneNibbles(v: V128, i: nat)
    requires i < 16
    ensures AndSi128(SrliEpi16By4(v), 0x0F)[i] == v[i] as int / 16
    ensures AndSi128(v, 0x0F)[i] == v[i] as int % 16
  {
    hide AndByte;
    ShiftAndMask(v[i - i % 2], v[i - i % 2 + 1]);
    LowNibble(v[i]);
  }

  lemma {:induction false} LowNibble(x: byte)
    ensures AndByte(x, 0x0F) == x as int % 16
  {
    hide Bits;
    Powers();
    AndMask(4, x);
  }

  lemma {:induction false} Looked(idx: V128, i: nat)
    requires i < 16 && idx[i] < 16
    ensures ShuffleEpi8(HexLut(), idx)[i] == HexChar(idx[i])
  {
    hide HexChar;
  }

  /** The two stored halves are the 32 digits, high nibble first. */
  lemma {:induction false} HexLaneIsHex(v: V128)
    ensures HexLane(v).lo + HexLane(v).hi == Hex(v)
  {
    hide HexChar, AndSi128, SrliEpi16By4, ShuffleEpi8;
    var h := HexLane(v);
    forall j | 0 <= j < 32
      ensures (h.lo + h.hi)[j] == Hex(v)[j]
    {
      var i := j / 2;
      LaneNibbles(v, i);
      Looked(AndSi128(SrliEpi16By4(v), 0x0F), i);
      Looked(AndSi128(v, 0x0F), i);
    }
  }

  // ---- a register of two 128-bit lanes ----

  type V256 = v: seq<byte> | |v| == 32 witness seq(32, _ => 0)

  /** `_mm256_broadcastsi128_si256`. */
  function Broadcast128(v: V128): V256 { v + v }

  /** `_mm256_castsi256_si128` for lane 0, `_mm256_extracti128_si256` for lane 1. */
  function Extract128(v: V256, lane: nat): V128
    requires lane < 2
  {
    v[16 * lane..16 * lane + 16]
  }

  /** `_mm256_srli_epi16 (v, 4)`. */
  function SrliEpi16By4Wide(v: V256): V256 {
    seq<byte>(32, i requires 0 <= i < 32 =>
      var word := v[i - i % 2] as int + v[i - i % 2 + 1] as int * 0x100;
      if i % 2 == 0 then word / 16 % 0x100 else word / 16 / 0x100)
  }

  function AndSi256(v: V256, mask: byte): V256 {
    seq<byte>(32, i requires 0 <= i < 32 => AndByte(v[i], mask))
  }

  /** `_mm256_shuffle_epi8`: an index reaches only the sixteen table bytes of its own lane. */
  function ShuffleEpi8Wide(lut: V256, idx: V256): V256 {
    seq<byte>(32, i requires 0 <= i < 32 => if idx[i] >= 0x80 then 0 else lut[i - i % 16 + idx[i] as int % 16])
  }

  /** `_mm256_unpacklo_epi8`: interleaves the low halves of each lane. */
  function UnpackLoEpi8Wide(a: V256, b: V256): V256 {
    seq<byte>(32, i requires 0 <= i < 32 =>
      if i % 2 == 0 then a[i - i % 16 + i % 16 / 2] else b[i - i % 16 + i % 16 / 2])
  }

  function UnpackHiEpi8Wide(a: V256, b: V256): V256 {
    seq<byte>(32, i requires 0 <= i < 32 =>
      if i % 2 == 0 then a[i - i % 16 + 8 + i % 16 / 2] else b[i - i % 16 + 8 + i % 16 / 2])
  }

  datatype WideHalves = WideHalves(lo: V256, hi: V256)

  /** The body of `chronoid_uuidv7_hex32_avx2` up to the stores. */
  function HexRegister(v: V256): WideHalves {
    var lut := Broadcast128(HexLut());
    var hiNibbles := AndSi256(SrliEpi16By4Wide(v), 0x0F);
    var loNibbles := AndSi256(v, 0x0F);
    var asciiHi := ShuffleEpi8Wide(lut, hiNibbles);
    var asciiLo := ShuffleEpi8Wide(lut, loNibbles);
    WideHalves(UnpackLoEpi8Wide(asciiHi, asciiLo), UnpackHiEpi8Wide(asciiHi, asciiLo))
  }

  lemma {:induction false} LaneIndex(lane: nat, j: nat)
    requires lane < 2 && j < 16
    ensures (16 * lane + j) % 16 == j && (16 * lane + j) % 2 == j % 2
  {
    assert lane == 0 || lane == 1;
    assert 16 * lane + j == 2 * (8 * lane + j / 2) + j % 2;
  }

  lemma {:induction false} LaneOfShift(v: V256, lane: nat)
    requires lane < 2
    ensures Extract128(SrliEpi16By4Wide(v), lane) == SrliEpi16By4(Extract128(v, lane))
  {
    forall j | 0 <= j < 16
      ensures Extract128(SrliEpi16By4Wide(v), lane)[j] == SrliEpi16By4(Extract128(v, lane))[j]
    {
      LaneIndex(lane, j);
    }
  }

  lemma {:induction false} LaneOfAnd(v: V256, mask: byte, lane: nat)
    requires lane < 2
    ensures Extract128(AndSi256(v, mask), lane) == AndSi128(Extract128(v, lane), mask)
  {
    hide AndByte;
  }

  lemma {:induction false} LaneOfShuffle(table: V128, idx: V256, lane: nat)
    requires lane < 2
    ensures Extract128(ShuffleEpi8Wide(Broadcast128(table), idx), lane) == ShuffleEpi8(table, Extract128(idx, lane))
  {
    forall j | 0 <= j < 16
      ensures Extract128(ShuffleEpi8Wide(Broadcast128(table), idx), lane)[j]
           == ShuffleEpi8(table, Extract128(idx, lane))[j]
    {
      LaneIndex(lane, j);
    }
  }

  lemma {:induction false} LaneOfUnpack(a: V256, b: V256, lane: nat)
    requires lane < 2
    ensures Extract128(UnpackLoEpi8Wide(a, b), lane) == UnpackLoEpi8(Extract128(a, lane), Extract128(b, lane))
    ensures Extract128(UnpackHiEpi8Wide(a, b), lane) == UnpackHiEpi8(Extract128(a, lane), Extract128(b, lane))
  {
    forall j | 0 <= j < 16
      ensures Extract128(UnpackLoEpi8Wide(a, b), lane)[j] == UnpackLoEpi8(Extract128(a, lane), Extract128(b, lane))[j]
      ensures Extract128(UnpackHiEpi8Wide(a, b), lane)[j] == UnpackHiEpi8(Extract128(a, lane), Extract128(b, lane))[j]
    {
      var c := if j % 2 == 0 then a else b;
      LaneIndex(lane, j);
      assert Extract128(c, lane)[j / 2] == c[16 * lane + j / 2];
      assert Extract128(c, lane)[8 + j / 2] == c[16 * lane + 8 + j / 2];
      assert UnpackLoEpi8Wide(a, b)[16 * lane + j] == c[16 * lane + j / 2];
      assert UnpackHiEpi8Wide(a, b)[16 * lane + j] == c[16 * lane + 8 + j / 2];
    }
  }

  /** No instruction of the kernel moves a byte across the lanes: each lane is encoded as a register of
      its own. */
  lemma {:induction false} LanesDoNotMix(v: V256, lane: nat)
    requires lane < 2
    ensures Extract128(HexRegister(v).lo, lane) == HexLane(Extract128(v, lane)).lo
    ensures Extract128(HexRegister(v).hi, lane) == HexLane(Extract128(v, lane)).hi
  {
    hide Extract128, SrliEpi16By4Wide, SrliEpi16By4, AndSi256, AndSi128, ShuffleEpi8Wide, ShuffleEpi8, Broadcast128,
      UnpackLoEpi8Wide, UnpackLoEpi8, UnpackHiEpi8Wide, UnpackHiEpi8, HexLut;
    var hiNibbles, loNibbles := AndSi256(SrliEpi16By4Wide(v), 0x0F), AndSi256(v, 0x0F);
    LaneOfShift(v, lane);
    LaneOfAnd(SrliEpi16By4Wide(v), 0x0F, lane);
    LaneOfAnd(v, 0x0F, lane);
    LaneOfShuffle(HexLut(), hiNibbles, lane);
    LaneOfShuffle(HexLut(), loNibbles, lane);
    var lut := Broadcast128(HexLut());
    LaneOfUnpack(ShuffleEpi8Wide(lut, hiNibbles), ShuffleEpi8Wide(lut, loNibbles), lane);
  }

  // ---- stores and splice ----

  method MemCpy(dst: array<byte>, d: nat, src: array<byte>, s: nat, n: nat)
    requires dst != src && d + n <= dst.Length && s + n <= src.Length
    modifies dst
    ensures forall p :: d <= p < d + n ==> dst[p] == src[p - d + s]
    ensures forall p :: 0 <= p < d || d + n <= p < dst.Length ==> dst[p] == old(dst[p])
  {
    forall i | 0 <= i < n {
      dst[d + i] := src[s + i];
    }
  }

  method Store(dst: array<byte>, d: nat, v: V128)
    requires d + 16 <= dst.Length
    modifies dst
    ensures forall p :: d <= p < d + 16 ==> dst[p] == v[p - d]
    ensures forall p :: 0 <= p < d || d + 16 <= p < dst.Length ==> dst[p] == old(dst[p])
  {
    forall i | 0 <= i < 16 {
      dst[d + i] := v[i];
    }
  }

  /** `chronoid_uuidv7_dash_splice`: five copies and four hyphens. */
  method DashSplice(out: array<byte>, off: nat, hex: array<byte>, s: nat)
    requires out != hex && off + TEXT_LEN <= out.Length && s + 32 <= hex.Length
    modifies out
    ensures forall p :: off <= p < off + TEXT_LEN ==> out[p] == Splice(hex[s..s + 32])[p - off]
    ensures forall p :: 0 <= p < off || off + TEXT_LEN <= p < out.Length ==> out[p] == old(out[p])
  {
    MemCpy(out, off + 0, hex, s + 0, 8);
    out[off + 8] := DASH;
    MemCpy(out, off + 9, hex, s + 8, 4);
    out[off + 13] := DASH;
    MemCpy(out, off + 14, hex, s + 12, 4);
    out[off + 18] := DASH;
    MemCpy(out, off + 19, hex, s + 16, 4);
    out[off + 23] := DASH;
    MemCpy(out, off + 24, hex, s + 20, 12);
  }

  /** `chronoid_hex_encode_lower_ssse3`. */
  method EncodeLowerSsse3(out: array<byte>, off: nat, id: Uuid)
    requires off + TEXT_LEN <= out.Length
    modifies out
    ensures forall p :: off <= p < off + TEXT_LEN ==> out[p] == Text(id)[p - off]
    ensures forall p :: 0 <= p < off || off + TEXT_LEN <= p < out.Length ==> out[p] == old(out[p])
  {
    hide HexLane, Hex, Splice;
    var h := HexLane(id);
    HexLaneIsHex(id);
    var tmp := new byte[32];
    Store(tmp, 0, h.lo);
    Store(tmp, 16, h.hi);
    assert tmp[0..32] == h.lo + h.hi;
    DashSplice(out, off, tmp, 0);
  }

  /** `chronoid_uuidv7_hex32_avx2`: two identifiers, one per 128-bit lane, stored lane by lane. */
  method Hex32Avx2(out: array<byte>, off: nat, first: Uuid, second: Uuid)
    requires off + 64 <= out.Length
    modifies out
    ensures out[off..off + 32] == Hex(first) && out[off + 32..off + 64] == Hex(second)
    ensures forall p :: 0 <= p < off || off + 64 <= p < out.Length ==> out[p] == old(out[p])
  {
    hide HexRegister, HexLane, Hex;
    var v: V256 := first + second;
    var h := HexRegister(v);
    assert Extract128(v, 0) == first && Extract128(v, 1) == second;
    LanesDoNotMix(v, 0);
    LanesDoNotMix(v, 1);
    HexLaneIsHex(first);
    HexLaneIsHex(second);
    hide Extract128;
    Store(out, off + 0, Extract128(h.lo, 0));
    Store(out, off + 16, Extract128(h.hi, 0));
    Store(out, off + 32, Extract128(h.lo, 1));
    Store(out, off + 48, Extract128(h.hi, 1));
    assert out[off..off + 32] == HexLane(first).lo + HexLane(first).hi;
    assert out[off + 32..off + 64] == HexLane(second).lo + HexLane(second).hi;
  }

  // ---- batches ----

  /** The texts one after the other. */
  function BatchText(ids: seq<Uuid>): (s: seq<byte>)
    ensures |s| == TEXT_LEN * |ids|
  {
    seq<byte>(TEXT_LEN * |ids|, i requires 0 <= i < TEXT_LEN * |ids| =>
      assert 0 <= i / TEXT_LEN < |ids|;
      Text(ids[i / TEXT_LEN])[i % TEXT_LEN])
  }

  /** Slice [36k, 36k + 36) of the batch is the text of identifier `k`. */
  lemma {:induction false} BatchSlice(ids: seq<Uuid>, k: nat)
    requires k < |ids|
    ensures forall i | TEXT_LEN * k <= i < TEXT_LEN * k + TEXT_LEN ::
      BatchText(ids)[i] == Text(ids[k])[i - TEXT_LEN * k]
  {
    hide Text;
    forall i | TEXT_LEN * k <= i < TEXT_LEN * k + TEXT_LEN
      ensures BatchText(ids)[i] == Text(ids[k])[i - TEXT_LEN * k]
    {
      assert i / TEXT_LEN == k && i % TEXT_LEN == i - TEXT_LEN * k;
    }
  }

  /** `chronoid_uuidv7_string_batch_scalar`, from identifier `first` on: one formatter call each. */
  method StringBatchScalar(ids: seq<Uuid>, first: nat, out: array<byte>, off: nat)
    requires first <= |ids| && off + TEXT_LEN * |ids| <= out.Length
    modifies out
    ensures forall p :: off + TEXT_LEN * first <= p < off + TEXT_LEN * |ids| ==> out[p] == BatchText(ids)[p - off]
    ensures forall p | 0 <= p < off + TEXT_LEN * first || off + TEXT_LEN * |ids| <= p < out.Length ::
      out[p] == old(out[p])
  {
    hide Text, BatchText;
    for i := first to |ids|
      invariant forall p :: off + TEXT_LEN * first <= p < off + TEXT_LEN * i ==> out[p] == BatchText(ids)[p - off]
      invariant forall p | 0 <= p < off + TEXT_LEN * first || off + TEXT_LEN * |ids| <= p < out.Length ::
        out[p] == old(out[p])
    {
      EncodeLowerSsse3(out, off + TEXT_LEN * i, ids[i]);
      BatchSlice(ids, i);
    }
  }

  /** `chronoid_uuidv7_string_batch_avx2`: groups of four, then the scalar batch on the tail; the
      output is the scalar texts and nothing else is written. */
  method StringBatchAvx2(ids: seq<Uuid>, out: array<byte>, off: nat)
    requires off + TEXT_LEN * |ids| <= out.Length
    modifies out
    ensures out[off..off + TEXT_LEN * |ids|] == BatchText(ids)
    ensures forall p :: 0 <= p < off || off + TEXT_LEN * |ids| <= p < out.Length ==> out[p] == old(out[p])
  {
    hide Text, BatchText;
    var bulk := |ids| - |ids| % 4;
    var base := 0;
    while base < bulk
      invariant 0 <= base <= bulk && base % 4 == 0
      invariant forall p :: off <= p < off + TEXT_LEN * base ==> out[p] == BatchText(ids)[p - off]
      invariant forall p :: 0 <= p < off || off + TEXT_LEN * |ids| <= p < out.Length ==> out[p] == old(out[p])
    {
      GroupOfFour(ids, base, out, off);
      base := base + 4;
    }
    if bulk < |ids| {
      StringBatchScalar(ids, bulk, out, off);
    }
  }

  method GroupOfFour(ids: seq<Uuid>, base: nat, out: array<byte>, off: nat)
    requires base + 4 <= |ids| && off + TEXT_LEN * |ids| <= out.Length
    modifies out
    ensures forall p :: off + TEXT_LEN * base <= p < off + TEXT_LEN * (base + 4) ==> out[p] == BatchText(ids)[p - off]
    ensures forall p | 0 <= p < off + TEXT_LEN * base || off + TEXT_LEN * (base + 4) <= p < out.Length ::
      out[p] == old(out[p])
  {
    hide Hex, Splice, BatchText;
    var hex := new byte[128];
    Hex32Avx2(hex, 0, ids[base], ids[base + 1]);
    ghost var was := hex[0..64];
    Hex32Avx2(hex, 64, ids[base + 2], ids[base + 3]);
    assert hex[0..64] == was;
    assert hex[0..32] == hex[0..64][..32] && hex[32..64] == hex[0..64][32..];
    DashSplice(out, off + TEXT_LEN * base, hex, 0);
    DashSplice(out, off + TEXT_LEN * (base + 1), hex, 32);
    DashSplice(out, off + TEXT_LEN * (base + 2), hex, 64);
    DashSplice(out, off + TEXT_LEN * (base + 3), hex, 96);
    BatchSlice(ids, base);
    BatchSlice(ids, base + 1);
    BatchSlice(ids, base + 2);
    BatchSlice(ids, base + 3);
    assert hex[0..32] == Hex(ids[base]) && hex[32..64] == Hex(ids[base + 1]);
    assert hex[64..96] == Hex(ids[base + 2]) && hex[96..128] == Hex(ids[base + 3]);
  }
}
