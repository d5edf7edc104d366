/** Fixed-width machine words as bounded integers.  Arithmetic wraps explicitly;
    the bitwise operators are defined bit by bit, so that every mask, shift and
    OR of the C code has its own meaning and is not silently read as arithmetic. */
module Words {
  import opened Positional

  type byte = x: int | 0 <= x < 0x100
  type u16 = x: int | 0 <= x < 0x1_0000
  type u32 = x: int | 0 <= x < 0x1_0000_0000
  type u64 = x: int | 0 <= x < 0x1_0000_0000_0000_0000

  datatype Gate = AND | OR | XOR {
    function Bit(x: int, y: int): int
      requires 0 <= x <= 1 && 0 <= y <= 1
    {
      match this
      case AND => x * y
      case OR => if x + y > 0 then 1 else 0
      case XOR => if x == y then 0 else 1
    }
  }

  /** Apply a gate to every pair of bits of two naturals. */
  function Bits(g: Gate, a: nat, b: nat): nat
    decreases a + b
  {
    if a == 0 && b == 0 then 0
    else 2 * Bits(g, a / 2, b / 2) + g.Bit(a % 2, b % 2)
  }

  function And(a: nat, b: nat): nat { Bits(AND, a, b) }
  function Or(a: nat, b: nat): nat { Bits(OR, a, b) }
  function Xor(a: nat, b: nat): nat { Bits(XOR, a, b) }

  /** Left shift without a width. */
  function Shl(a: nat, k: nat): nat {
    if k == 0 then a else 2 * Shl(a, k - 1)
  }

  lemma {:induction false} ShlIsTimes(a: nat, k: nat)
    ensures Shl(a, k) == a * Pow(2, k)
  {
    if k > 0 {
      ShlIsTimes(a, k - 1);
    }
  }

  /** Bitwise operators act on the bits above and below any position separately. */
  lemma {:induction false} BitsSplit(g: Gate, k: nat, a: nat, b: nat, c: nat, d: nat)
    requires b < Pow(2, k) && d < Pow(2, k)
    ensures Bits(g, Shl(a, k) + b, Shl(c, k) + d) == Shl(Bits(g, a, c), k) + Bits(g, b, d)
    decreases k
  {
    if k == 0 {
      assert b == 0 && d == 0 && Bits(g, 0, 0) == 0;
    } else {
      BitsSplit(g, k - 1, a, b / 2, c, d / 2);
      BitsSplitStep(g, Shl(a, k - 1), b, Shl(c, k - 1), d);
    }
  }

  lemma {:induction false} BitsSplitStep(g: Gate, ah: nat, b: nat, ch: nat, d: nat)
    ensures Bits(g, 2 * ah + b, 2 * ch + d)
         == 2 * Bits(g, ah + b / 2, ch + d / 2) + g.Bit(b % 2, d % 2)
    ensures Bits(g, b, d) == 2 * Bits(g, b / 2, d / 2) + g.Bit(b % 2, d % 2)
  {
    var x, y := 2 * ah + b, 2 * ch + d;
    assert x / 2 == ah + b / 2 && y / 2 == ch + d / 2 && x % 2 == b % 2 && y % 2 == d % 2;
    BitsStep(g, x, y);
    BitsStep(g, b, d);
  }

  lemma {:induction false} BitsStep(g: Gate, x: nat, y: nat)
    ensures Bits(g, x, y) == 2 * Bits(g, x / 2, y / 2) + g.Bit(x % 2, y % 2)
  {
    if x == 0 && y == 0 {
      assert Bits(g, 0, 0) == 0;
    }
  }

  lemma {:induction false} BitsBound(g: Gate, k: nat, a: nat, b: nat)
    requires a < Pow(2, k) && b < Pow(2, k)
    ensures Bits(g, a, b) < Pow(2, k)
    decreases k
  {
    if k > 0 {
      BitsBound(g, k - 1, a / 2, b / 2);
      BitsStep(g, a, b);
    }
  }

  lemma {:induction false} BitsZero(a: nat)
    ensures Or(a, 0) == a && Or(0, a) == a && And(a, 0) == 0 && And(0, a) == 0 && Xor(a, 0) == a && Xor(0, a) == a
  {
    if a > 0 {
      BitsZero(a / 2);
    }
  }

  lemma {:induction false} BitsCommute(g: Gate, a: nat, b: nat)
    ensures Bits(g, a, b) == Bits(g, b, a)
    decreases a + b
  {
    if a + b > 0 {
      BitsCommute(g, a / 2, b / 2);
    }
  }

  lemma {:induction false} XorSelfInverse(a: nat, b: nat)
    ensures Xor(Xor(a, b), b) == a
    decreases a + b
  {
    if a + b > 0 {
      XorSelfInverse(a / 2, b / 2);
      var x := Xor(a, b);
      assert x / 2 == Xor(a / 2, b / 2) && x % 2 == XOR.Bit(a % 2, b % 2);
      BitsStep(XOR, x, b);
    }
  }

  lemma {:induction false} AndOnes(k: nat, a: nat)
    requires a < Pow(2, k)
    ensures And(a, Pow(2, k) - 1) == a && And(Pow(2, k) - 1, a) == a
    decreases k
  {
    if k > 0 {
      AndOnes(k - 1, a / 2);
      var m := Pow(2, k) - 1;
      assert m / 2 == Pow(2, k - 1) - 1 && m % 2 == 1;
      BitsStep(AND, a, m);
      BitsStep(AND, m, a);
    }
  }

  /** Masking with 2^k - 1 keeps the low `k` bits. */
  lemma {:induction false} AndMask(k: nat, a: nat)
    ensures And(a, Pow(2, k) - 1) == a % Pow(2, k)
  {
    var p := Pow(2, k);
    var q, r := a / p, a % p;
    assert 0 <= r < p && 0 <= q by {
      ModBound(a, p);
      DivBelow(a, p, 1);
    }
    assert a == q * p + r;
    BitsSplit(AND, k, q, r, 0, p - 1);
    BitsZero(q);
    ShlIsTimes(q, k);
    ShlIsTimes(0, k);
    AndOnes(k, r);
  }

  /** ORing a high part onto a low part that leaves those bits clear is addition. */
  lemma {:induction false} OrDisjoint(k: nat, hi: nat, lo: nat)
    requires lo < Pow(2, k)
    ensures hi * Pow(2, k) >= 0
    ensures Or(hi * Pow(2, k), lo) == hi * Pow(2, k) + lo
    ensures Or(lo, hi * Pow(2, k)) == hi * Pow(2, k) + lo
  {
    BitsSplit(OR, k, hi, 0, 0, lo);
    BitsZero(hi);
    BitsZero(lo);
    ShlIsTimes(hi, k);
    ShlIsTimes(0, k);
    BitsCommute(OR, Shl(hi, k), lo);
  }

  lemma {:induction false} Powers()
    ensures Pow(2, 4) == 0x10 && Pow(2, 6) == 0x40 && Pow(2, 8) == 0x100 && Pow(2, 12) == 0x1000
    ensures Pow(2, 16) == 0x1_0000 && Pow(2, 24) == 0x100_0000 && Pow(2, 32) == 0x1_0000_0000
    ensures Pow(2, 64) == 0x1_0000_0000_0000_0000
    ensures Pow(2, 7) == 0x80 && Pow(2, 20) == 0x10_0000 && Pow(2, 25) == 0x200_0000
  {
    PowAdd(2, 4, 2);
    PowAdd(2, 4, 3);
    PowAdd(2, 4, 4);
    PowAdd(2, 8, 4);
    PowAdd(2, 8, 8);
    PowAdd(2, 16, 4);
    PowAdd(2, 16, 8);
    PowAdd(2, 24, 1);
    PowAdd(2, 16, 16);
    PowAdd(2, 32, 32);
  }

  // ---- byte loads and stores ----

  /** `chronoid_be32_load`. */
  function Be32Load(p: seq<byte>): u32
    requires |p| == 4
  {
    OrBytes(p[0], p[1], p[2], p[3]);
    var a, b, c, d := p[0] as int, p[1] as int, p[2] as int, p[3] as int;
    Or(Or(Or(a * 0x100_0000, b * 0x1_0000), c * 0x100), d)
  }

  /** Four bytes shifted into place and ORed are their base-256 value. */
  lemma {:induction false} OrBytes(a: nat, b: nat, c: nat, d: nat)
    requires a < 0x100 && b < 0x100 && c < 0x100 && d < 0x100
    ensures Or(Or(Or(a * 0x100_0000, b * 0x1_0000), c * 0x100), d)
         == a * 0x100_0000 + b * 0x1_0000 + c * 0x100 + d
  {
    Powers();
    OrDisjoint(24, a, b * 0x1_0000);
    OrDisjoint(16, a * 0x100 + b, c * 0x100);
    OrDisjoint(8, a * 0x1_0000 + b * 0x100 + c, d);
  }

  lemma {:induction false} Be32IsValue(p: seq<byte>)
    requires |p| == 4
    ensures Be32Load(p) == Value(p, 0x100)
  {
    OrBytes(p[0], p[1], p[2], p[3]);
    ValueOfFour(p[0], p[1], p[2], p[3]);
    assert p == [p[0], p[1], p[2], p[3]];
  }

  lemma {:induction false} ValueOfFour(a: int, b: int, c: int, d: int)
    ensures Value([a, b, c, d], 0x100) == a * 0x100_0000 + b * 0x1_0000 + c * 0x100 + d
  {
    ValueSnoc([], a, 0x100);
    ValueSnoc([a], b, 0x100);
    ValueSnoc([a, b], c, 0x100);
    ValueSnoc([a, b, c], d, 0x100);
    assert [] + [a] == [a] && [a] + [b] == [a, b] && [a, b] + [c] == [a, b, c] && [a, b, c] + [d] == [a, b, c, d];
  }

  /** `chronoid_be32_store`, and the four-byte store of the base-62 decoder. */
  function Be32Store(v: u32): seq<byte> {
    [v / 0x100_0000 % 0x100, v / 0x1_0000 % 0x100, v / 0x100 % 0x100, v % 0x100]
  }

  lemma {:induction false} Be32StoreIsDigits(v: u32)
    ensures Be32Store(v) == Digits(v, 0x100, 4)
    ensures Be32Load(Be32Store(v)) == v
  {
    hide Bits;
    assert Digits(v, 0x100, 4) == Digits(v / 0x100, 0x100, 3) + [v % 0x100];
    assert Digits(v / 0x100, 0x100, 3) == Digits(v / 0x1_0000, 0x100, 2) + [v / 0x100 % 0x100];
    assert Digits(v / 0x1_0000, 0x100, 2) == Digits(v / 0x100_0000, 0x100, 1) + [v / 0x1_0000 % 0x100];
    assert Digits(v / 0x100_0000, 0x100, 1) == [v / 0x100_0000 % 0x100];
    var s := Be32Store(v);
    OrBytes(s[0], s[1], s[2], s[3]);
  }
}
