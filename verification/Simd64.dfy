/** The AVX2 intrinsics that chronoid/ksuid/encode_avx2.c uses, on a register seen as
    four 64-bit lanes. */
module Simd64 {
  import opened Positional
  import opened Words

  type M256 = v: seq<u64> | |v| == 4 witness [0, 0, 0, 0]

  const W32: int := 0x1_0000_0000

  function Map1(f: u64 -> u64, a: M256): (r: M256)
    ensures forall t :: 0 <= t < 4 ==> r[t] == f(a[t])
  {
    [f(a[0]), f(a[1]), f(a[2]), f(a[3])]
  }

  function Map2(f: (u64, u64) -> u64, a: M256, b: M256): (r: M256)
    ensures forall t :: 0 <= t < 4 ==> r[t] == f(a[t], b[t])
  {
    [f(a[0], b[0]), f(a[1], b[1]), f(a[2], b[2]), f(a[3], b[3])]
  }

  function WordAdd(x: u64, y: u64): u64 { (x as int + y as int) % 0x1_0000_0000_0000_0000 }
  function WordSub(x: u64, y: u64): u64 { (x as int - y as int) % 0x1_0000_0000_0000_0000 }
  function WordMul32(x: u64, y: u64): u64 {
    var lx, ly := x as int % 0x1_0000_0000, y as int % 0x1_0000_0000;
    LowProduct(lx, ly);
    lx * ly
  }
  function WordAnd(x: u64, y: u64): u64 { WordBitsBound(AND, x, y); And(x, y) }
  function WordOr(x: u64, y: u64): u64 { WordBitsBound(OR, x, y); Or(x, y) }
  function WordShl(x: u64, k: nat): u64 { (x as int * Pow(2, k)) % 0x1_0000_0000_0000_0000 }
  function WordShr(x: u64, k: nat): u64 {
    DivBelow(x, Pow(2, k), 1);
    QuotientAtMost(x, Pow(2, k));
    x as int / Pow(2, k)
  }

  lemma {:induction false} NoWrapAdd(x: u64, y: u64)
    requires x as int + y as int < 0x1_0000_0000_0000_0000
    ensures WordAdd(x, y) == x as int + y as int
  {
  }

  lemma {:induction false} NoWrapSub(x: u64, y: u64)
    requires y <= x
    ensures WordSub(x, y) == x as int - y as int
  {
  }

  /** The two's-complement reading of a word. */
  function Signed(x: u64): int {
    if x < 0x8000_0000_0000_0000 then x else x as int - 0x1_0000_0000_0000_0000
  }

  function WordGt(x: u64, y: u64): u64 {
    if Signed(x) > Signed(y) then 0xFFFF_FFFF_FFFF_FFFF else 0
  }

  lemma {:induction false} LowProduct(x: int, y: int)
    requires 0 <= x < 0x1_0000_0000 && 0 <= y < 0x1_0000_0000
    ensures 0 <= x * y <= 0xFFFF_FFFE_0000_0001
  {
    MulMono(0, x, y);
    MulMono(x, 0xFFFF_FFFF, y);
  }

  lemma {:induction false} WordBitsBound(g: Gate, x: u64, y: u64)
    ensures Bits(g, x, y) < 0x1_0000_0000_0000_0000
  {
    Powers();
    BitsBound(g, 64, x, y);
  }

  lemma {:induction false} QuotientAtMost(x: int, p: int)
    requires x >= 0 && p > 0
    ensures x / p <= x
  {
    assert x == (x / p) * p + x % p;
    DivBelow(x, p, 1);
    MulMono(1, p, x / p);
  }

  function Set1(x: u64): M256 { [x, x, x, x] }
  function SetZero(): M256 { [0, 0, 0, 0] }
  function AddEpi64(a: M256, b: M256): M256 { Map2(WordAdd, a, b) }
  function SubEpi64(a: M256, b: M256): M256 { Map2(WordSub, a, b) }
  function MulEpu32(a: M256, b: M256): M256 { Map2(WordMul32, a, b) }
  function AndSi256(a: M256, b: M256): M256 { Map2(WordAnd, a, b) }
  function OrSi256(a: M256, b: M256): M256 { Map2(WordOr, a, b) }
  function CmpGtEpi64(a: M256, b: M256): M256 { Map2(WordGt, a, b) }
  function SlliEpi64(a: M256, k: nat): M256 { Map1((x: u64) => WordShl(x, k), a) }
  function SrliEpi64(a: M256, k: nat): M256 { Map1((x: u64) => WordShr(x, k), a) }
}
