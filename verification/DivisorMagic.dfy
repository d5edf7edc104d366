/** tools/derive-magic.py: division by a constant through a floor reciprocal,
    a multiply-high and one correction step. */
module DivisorMagic {
  import opened Positional

  datatype Derived = Magic(m: int) | ValueError

  /** `derive_magic`.  The script's own deficit assertion cannot fail. */
  function DeriveMagic(nBits: nat, d: int): Derived {
    if !(1 < d < Pow(2, nBits)) then ValueError else Magic(Pow(2, nBits) / d)
  }

  /** The high half of the product. */
  function MulHigh(v: int, m: int, nBits: nat): int {
    v * m / Pow(2, nBits)
  }

  datatype QuotRem = QuotRem(q: int, r: int)

  /** The reciprocal step followed by the single correction. */
  function Corrected(v: int, m: int, d: int, nBits: nat): QuotRem {
    var q := MulHigh(v, m, nBits);
    var r := v - q * d;
    if r >= d then QuotRem(q + 1, r - d) else QuotRem(q, r)
  }

  /** Exactly the divisors strictly between 1 and 2^N are accepted, and their deficit is below the divisor. */
  lemma {:induction false} DeficitInRange(nBits: nat, d: int)
    ensures DeriveMagic(nBits, d).Magic? <==> 1 < d < Pow(2, nBits)
    ensures DeriveMagic(nBits, d).Magic? ==> 0 <= Pow(2, nBits) - DeriveMagic(nBits, d).m * d <= d - 1
  {
    var p := Pow(2, nBits);
    if 1 < d < p {
      assert p == (p / d) * d + p % d;
    }
  }

  /** The product splits into `Q * P` plus a signed error `t` with `t * d == R * P - v * e`. */
  lemma {:induction false} ErrorTerm(v: int, d: int, p: int, m: int, e: int, Q: int, R: int) returns (t: int)
    requires d > 0 && p > 0 && 0 <= v < p && p == m * d + e && 0 <= e < d
    requires v == Q * d + R && 0 <= R < d
    ensures v * m == Q * p + t && t * d == R * p - v * e && -p < t < p
  {
    t := v * m - Q * p;
    ErrorIdentity(v, d, p, m, e, Q, R);
    ProductBound(v, e, p, d);
    ProductBound(R, p, d, p + 1);
    assert R * p <= (d - 1) * p && (d - 1) * p == d * p - p by { MulMono(R, d - 1, p); }
    QuotientBound(t, d, p);
  }

  lemma {:induction false} ErrorIdentity(v: int, d: int, p: int, m: int, e: int, Q: int, R: int)
    requires p == m * d + e && v == Q * d + R
    ensures (v * m - Q * p) * d == R * p - v * e
  {
    assert v * m * d == v * (m * d) == v * p - v * e;
    assert Q * p * d == Q * d * p == v * p - R * p;
  }

  lemma {:induction false} ProductBound(a: int, b: int, c: int, d: int)
    requires 0 <= a < c && 0 <= b < d
    ensures 0 <= a * b < d * c
  {
    MulMono(0, a, b);
    MulMono(a, c - 1, b);
    MulMono(b, d - 1, c - 1);
    assert d * c == (d - 1) * (c - 1) + (c - 1) + d;
  }

  lemma {:induction false} QuotientBound(t: int, d: int, p: int)
    requires d > 0 && -(d * p) < t * d < d * p
    ensures -p < t < p
  {
    if t >= p {
      MulMono(p, t, d);
    }
    if t <= -p {
      MulMono(t, -p, d);
    }
  }

  /** For every width, divisor and value the multiply-high is the quotient or one less,
      and it is one less exactly when the reciprocal's deficit outweighs the remainder. */
  lemma {:induction false} MulHighExact(nBits: nat, d: int, v: int)
    requires 1 < d < Pow(2, nBits) && 0 <= v < Pow(2, nBits)
    ensures var q := MulHigh(v, DeriveMagic(nBits, d).m, nBits);
      && (q == v / d || q == v / d - 1)
      && (q == v / d - 1 <==> (v % d) * Pow(2, nBits) < v * (Pow(2, nBits) % d))
  {
    var p := Pow(2, nBits);
    var m, e, Q, R := p / d, p % d, v / d, v % d;
    assert p == m * d + e && v == Q * d + R;
    var t := ErrorTerm(v, d, p, m, e, Q, R);
    if t >= 0 {
      DivModUnique(v * m, p, Q, t);
      MulMono(0, t, d);
    } else {
      assert (Q - 1) * p == Q * p - p;
      DivModUnique(v * m, p, Q - 1, t + p);
      MulMono(t, -1, d);
    }
  }

  /** The corrected reciprocal is exact division, for every N, d and v < 2^N. */
  lemma {:induction false} CorrectedIsDivision(nBits: nat, d: int, v: int)
    requires 1 < d < Pow(2, nBits) && 0 <= v < Pow(2, nBits)
    ensures Corrected(v, DeriveMagic(nBits, d).m, d, nBits) == QuotRem(v / d, v % d)
  {
    MulHighExact(nBits, d, v);
    Correction(v, d, MulHigh(v, DeriveMagic(nBits, d).m, nBits));
  }

  lemma {:induction false} Correction(v: int, d: int, q: int)
    requires d > 0 && (q == v / d || q == v / d - 1)
    ensures v - q * d >= d <==> q == v / d - 1
    ensures v - (v / d) * d == v % d
    ensures q == v / d - 1 ==> v - q * d - d == v % d
  {
    ModBound(v, d);
    assert v == (v / d) * d + v % d;
    assert (v / d - 1) * d == (v / d) * d - d;
  }

  // ---- the ceiling reciprocal ----

  /** `ceiling(2^N / d)`. */
  function CeilingMagic(nBits: nat, d: int): int
    requires d > 0
  {
    (Pow(2, nBits) + d - 1) / d
  }

  /** By how much the ceiling constant times `d` exceeds 2^N. */
  function Excess(nBits: nat, d: int): int
    requires d > 0
  {
    CeilingMagic(nBits, d) * d - Pow(2, nBits)
  }

  lemma {:induction false} ExcessInRange(nBits: nat, d: int)
    requires d > 0
    ensures 0 <= Excess(nBits, d) < d
  {
    var x := Pow(2, nBits) + d - 1;
    assert x == (x / d) * d + x % d;
  }

  /** `v * m` is `Q * P` plus a surplus `t` below `2 * P`, with `t * d == R * P + v * x`. */
  lemma {:induction false} SurplusTerm(v: int, d: int, p: int, m: int, x: int, Q: int, R: int) returns (t: int)
    requires d > 0 && p > 0 && 0 <= v < p && p + x == m * d && 0 <= x < d
    requires v == Q * d + R && 0 <= R < d
    ensures v * m == Q * p + t && t * d == R * p + v * x && 0 <= t < 2 * p
  {
    t := v * m - Q * p;
    SurplusIdentity(v, d, p, m, x, Q, R);
    ProductBound(v, x, p, d);
    MulMono(0, R, p);
    MulMono(R, d, p);
    SurplusBound(t, d, p, R * p, v * x);
  }

  lemma {:induction false} SurplusIdentity(v: int, d: int, p: int, m: int, x: int, Q: int, R: int)
    requires p + x == m * d && v == Q * d + R
    ensures (v * m - Q * p) * d == R * p + v * x
  {
    assert v * m * d == v * (m * d) == v * p + v * x;
    assert Q * p * d == Q * d * p == v * p - R * p;
  }

  lemma {:induction false} SurplusBound(t: int, d: int, p: int, a: int, b: int)
    requires d > 0 && p > 0 && t * d == a + b && 0 <= a <= d * p && 0 <= b < d * p
    ensures 0 <= t < 2 * p
  {
    assert 2 * p * d == d * p + d * p;
    if t >= 2 * p {
      MulMono(2 * p, t, d);
    }
    if t < 0 {
      MulMono(t, -1, d);
    }
  }

  /** For every width, divisor and value the ceiling constant gives the quotient or one more, and one
      more exactly when remainder and excess together reach a whole divisor. */
  lemma {:induction false} CeilingMulHigh(nBits: nat, d: int, v: int)
    requires 1 < d < Pow(2, nBits) && 0 <= v < Pow(2, nBits)
    ensures var q := MulHigh(v, CeilingMagic(nBits, d), nBits);
      && (q == v / d || q == v / d + 1)
      && (q == v / d + 1 <==> (v % d) * Pow(2, nBits) + v * Excess(nBits, d) >= d * Pow(2, nBits))
  {
    var p, m, x := Pow(2, nBits), CeilingMagic(nBits, d), Excess(nBits, d);
    var Q, R := v / d, v % d;
    ExcessInRange(nBits, d);
    assert v == Q * d + R;
    var t := SurplusTerm(v, d, p, m, x, Q, R);
    if t < p {
      DivModUnique(v * m, p, Q, t);
      MulMono(t + 1, p, d);
    } else {
      assert (Q + 1) * p == Q * p + p;
      DivModUnique(v * m, p, Q + 1, t - p);
      MulMono(p, t, d);
    }
  }

  /** The comment in the script says the ceiling reciprocal makes the `r >= d` check fire when it should
      not.  In the script's unbounded integers the check never fires: an overestimate leaves a negative
      remainder and survives, and the result is exact otherwise. */
  lemma {:induction false} CeilingOverestimates(nBits: nat, d: int, v: int)
    requires 1 < d < Pow(2, nBits) && 0 <= v < Pow(2, nBits)
    ensures Corrected(v, CeilingMagic(nBits, d), d, nBits) ==
      if (v % d) * Pow(2, nBits) + v * Excess(nBits, d) >= d * Pow(2, nBits) then QuotRem(v / d + 1, v % d - d)
      else QuotRem(v / d, v % d)
  {
    hide MulHigh, CeilingMagic, Excess;
    CeilingMulHigh(nBits, d, v);
    NoCorrection(v, d, MulHigh(v, CeilingMagic(nBits, d), nBits));
  }

  lemma {:induction false} NoCorrection(v: int, d: int, q: int)
    requires d > 0 && (q == v / d || q == v / d + 1)
    ensures v - q * d < d && v - q * d == if q == v / d then v % d else v % d - d
  {
    ModBound(v, d);
    assert v == (v / d) * d + v % d;
    assert (v / d + 1) * d == (v / d) * d + d;
  }

  /** A ceiling constant divides every value exactly when it does so at the largest value of remainder
      `d - 1`, that is when its excess is small enough. */
  lemma {:induction false} CeilingIsExactIff(nBits: nat, d: int)
    requires 1 < d < Pow(2, nBits)
    ensures (forall v :: 0 <= v < Pow(2, nBits) ==>
               Corrected(v, CeilingMagic(nBits, d), d, nBits) == QuotRem(v / d, v % d))
       <==> (Pow(2, nBits) / d * d - 1) * Excess(nBits, d) < Pow(2, nBits)
  {
    var p, x := Pow(2, nBits), Excess(nBits, d);
    var top := p / d * d - 1;
    ExcessInRange(nBits, d);
    ModBound(p, d);
    MulMono(1, p / d, d);
    assert top == (p / d - 1) * d + (d - 1);
    DivModUnique(top, d, p / d - 1, d - 1);
    CeilingOverestimates(nBits, d, top);
    assert (d - 1) * p == d * p - p;
    if top * x < p {
      forall v | 0 <= v < p
        ensures Corrected(v, CeilingMagic(nBits, d), d, nBits) == QuotRem(v / d, v % d)
      {
        CeilingOverestimates(nBits, d, v);
        TopIsWorst(nBits, d, v);
      }
    }
  }

  lemma {:induction false} TopIsWorst(nBits: nat, d: int, v: int)
    requires 1 < d < Pow(2, nBits) && 0 <= v < Pow(2, nBits)
    requires (Pow(2, nBits) / d * d - 1) * Excess(nBits, d) < Pow(2, nBits)
    ensures (v % d) * Pow(2, nBits) + v * Excess(nBits, d) < d * Pow(2, nBits)
  {
    var p := Pow(2, nBits);
    ExcessInRange(nBits, d);
    ExcessIsComplement(nBits, d);
    ModBound(v, d);
    if v >= p / d * d {
      LastMultiple(p, d, v);
    }
    Worst(p, d, p / d * d - 1, p % d, Excess(nBits, d), v, v % d);
  }

  lemma {:induction false} Worst(p: int, d: int, top: int, e: int, x: int, v: int, R: int)
    requires p > 0 && d > 0 && 0 <= R < d && 0 <= x && 0 <= v < p && top * x < p
    requires v <= top || (R < e && x == d - e)
    ensures R * p + v * x < d * p
  {
    if v <= top {
      MulMono(v, top, x);
      BelowWhole(p, d, R, d - 1, v * x);
    } else {
      MulMono(v, p, x);
      BelowWhole(p, d, R, d - 1 - x, v * x);
    }
  }

  lemma {:induction false} BelowWhole(p: int, d: int, R: int, top: int, y: int)
    requires p > 0 && R <= top && y < (d - top) * p
    ensures R * p + y < d * p
  {
    MulMono(R, top, p);
    assert (d - top) * p == d * p - top * p;
  }

  lemma {:induction false} LastMultiple(p: int, d: int, v: int)
    requires d > 0 && p / d * d <= v < p
    ensures p % d != 0 && v % d < p % d
  {
    assert p == p / d * d + p % d;
    assert v == p / d * d + (v - p / d * d);
    DivModUnique(v, d, p / d, v - p / d * d);
  }

  /** Unless `d` divides 2^N the ceiling constant is the floor constant plus one. */
  lemma {:induction false} ExcessIsComplement(nBits: nat, d: int)
    requires d > 0
    ensures if Pow(2, nBits) % d == 0 then CeilingMagic(nBits, d) == Pow(2, nBits) / d && Excess(nBits, d) == 0
            else CeilingMagic(nBits, d) == Pow(2, nBits) / d + 1 && Excess(nBits, d) == d - Pow(2, nBits) % d
  {
    var p := Pow(2, nBits);
    assert p == p / d * d + p % d;
    if p % d != 0 {
      assert p + d - 1 == (p / d + 1) * d + (p % d - 1);
      DivModUnique(p + d - 1, d, p / d + 1, p % d - 1);
    } else {
      assert p + d - 1 == p / d * d + (d - 1);
      DivModUnique(p + d - 1, d, p / d, d - 1);
    }
  }

  /** The 64-bit ceiling constant for 62 fails near the top of the range. */
  lemma {:induction false} CeilingFailsFor62()
    ensures var v := 0xFFFF_FFFF_FFFF_FFEF;
      Corrected(v, CeilingMagic(64, 62), 62, 64) == QuotRem(v / 62 + 1, -1)
  {
    Pow64();
    CeilingOverestimates(64, 62, 0xFFFF_FFFF_FFFF_FFEF);
  }

  lemma {:induction false} Pow64()
    ensures Pow(2, 64) == 0x1_0000_0000_0000_0000
  {
    PowAdd(2, 8, 8);
    PowAdd(2, 16, 16);
    PowAdd(2, 32, 32);
  }

  /** `verify_against_reference` over any list of sample values. */
  method VerifyAgainstReference(nBits: nat, d: int, m: int, samples: seq<int>) returns (ok: bool)
    requires 1 < d < Pow(2, nBits)
    requires forall i :: 0 <= i < |samples| ==> 0 <= samples[i] < Pow(2, nBits)
    ensures ok <==> forall i :: 0 <= i < |samples| ==> Corrected(samples[i], m, d, nBits).q == samples[i] / d
    ensures DeriveMagic(nBits, d) == Magic(m) ==> ok
  {
    for i := 0 to |samples|
      invariant forall j :: 0 <= j < i ==> Corrected(samples[j], m, d, nBits).q == samples[j] / d
    {
      var v := samples[i];
      var qRef := v / d;
      var qMul := v * m / Pow(2, nBits);
      var r := v - qMul * d;
      if r >= d {
        qMul := qMul + 1;
        r := r - d;
      }
      CorrectedIsDivision(nBits, d, v);
      assert Corrected(v, m, d, nBits).q == qMul;
      if qMul != qRef {
        return false;
      }
    }
    return true;
  }
}
