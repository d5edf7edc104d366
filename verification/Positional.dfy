/** Positional notation, most significant digit first, and the lexicographic
    order that `memcmp` decides.  The byte strings, limb vectors and base-62
    digit strings of the library are all digit sequences in this sense. */
module Positional {

  function Pow(b: int, n: nat): (r: int)
    requires b > 0
    ensures r > 0
  {
    if n == 0 then 1 else PositiveProduct(b, Pow(b, n - 1)); b * Pow(b, n - 1)
  }

  lemma {:induction false} PositiveProduct(a: int, b: int)
    requires a > 0 && b > 0
    ensures a * b > 0
  {
  }

  lemma {:induction false} PowAdd(b: int, m: nat, n: nat)
    requires b > 0
    ensures Pow(b, m + n) == Pow(b, m) * Pow(b, n)
  {
    if m > 0 {
      PowAdd(b, m - 1, n);
      calc {
        Pow(b, m + n);
        b * Pow(b, m + n - 1);
        b * (Pow(b, m - 1) * Pow(b, n));
        (b * Pow(b, m - 1)) * Pow(b, n);
      }
    }
  }

  ghost predicate IsDigits(ds: seq<int>, base: int) {
    forall i :: 0 <= i < |ds| ==> 0 <= ds[i] < base
  }

  /** The number that `ds` denotes. */
  function Value(ds: seq<int>, base: int): int {
    if ds == [] then 0 else Value(ds[..|ds| - 1], base) * base + ds[|ds| - 1]
  }

  /** The `n` low digits of `v`. */
  function Digits(v: int, base: int, n: nat): (ds: seq<int>)
    requires base > 0
    ensures |ds| == n
    decreases n, v
  {
    if n == 0 then [] else Digits(v / base, base, n - 1) + [v % base]
  }

  lemma {:induction false} DigitsInRange(v: int, base: int, n: nat)
    requires base > 0
    ensures IsDigits(Digits(v, base, n), base)
    decreases n
  {
    if n > 0 {
      DigitsInRange(v / base, base, n - 1);
      ModBound(v, base);
    }
  }

  lemma {:induction false} ModBound(v: int, base: int)
    requires base > 0
    ensures 0 <= v % base < base
  {
  }

  lemma {:induction false} ValueSnoc(ds: seq<int>, d: int, base: int)
    ensures Value(ds + [d], base) == Value(ds, base) * base + d
  {
    assert (ds + [d])[..|ds|] == ds;
  }

  lemma {:induction false} ValueConcat(a: seq<int>, c: seq<int>, base: int)
    requires base > 0
    ensures Value(a + c, base) == Value(a, base) * Pow(base, |c|) + Value(c, base)
  {
    if c == [] {
      assert a + c == a;
    } else {
      var c', d := c[..|c| - 1], c[|c| - 1];
      assert a + c == (a + c') + [d] && c == c' + [d];
      assert Pow(base, |c|) == base * Pow(base, |c'|);
      hide Value, Pow;
      ValueConcat(a, c', base);
      ValueSnoc(a + c', d, base);
      ValueSnoc(c', d, base);
      ConcatStep(Value(a, base), Pow(base, |c'|), Value(c', base), base, d);
    }
  }

  lemma {:induction false} ConcatStep(va: int, p: int, vc: int, base: int, d: int)
    ensures (va * p + vc) * base + d == va * (base * p) + (vc * base + d)
  {
    assert va * p * base == va * (base * p);
  }

  lemma {:induction false} ValueBound(ds: seq<int>, base: int)
    requires base > 0 && IsDigits(ds, base)
    ensures 0 <= Value(ds, base) < Pow(base, |ds|)
  {
    if ds != [] {
      var n := |ds| - 1;
      ValueBound(ds[..n], base);
      var v, p := Value(ds[..n], base), Pow(base, n);
      assert v * base <= (p - 1) * base by { MulMono(v, p - 1, base); }
      assert (p - 1) * base == base * p - base;
      assert v * base >= 0 by { MulMono(0, v, base); }
    }
  }

  lemma {:induction false} MulMono(x: int, y: int, k: int)
    requires x <= y && k >= 0
    ensures x * k <= y * k
  {
  }

  /** Euclidean division is characterised by its defining equation. */
  lemma {:induction false} DivModUnique(v: int, d: int, q: int, r: int)
    requires d > 0 && 0 <= r < d && v == q * d + r
    ensures v / d == q && v % d == r
  {
    var k := v / d - q;
    assert v == (v / d) * d + v % d;
    assert k * d == r - v % d;
    if k >= 1 {
      MulMono(1, k, d);
    } else if k <= -1 {
      MulMono(k, -1, d);
    } else {
      assert k * d == 0;
    }
  }

  lemma {:induction false} ValueOfDigits(v: int, base: int, n: nat)
    requires base > 0 && 0 <= v < Pow(base, n)
    ensures Value(Digits(v, base, n), base) == v
    decreases n
  {
    if n > 0 {
      var q, ds := v / base, Digits(v / base, base, n - 1);
      assert 0 <= q < Pow(base, n - 1) by { DivBelow(v, base, Pow(base, n - 1)); }
      assert Digits(v, base, n) == ds + [v % base];
      ValueSnoc(ds, v % base, base);
      assert Value(ds, base) == q by { ValueOfDigits(q, base, n - 1); }
    }
  }

  /** Dropping the last digit of a number below `b * p` leaves one below `p`, and conversely. */
  lemma {:induction false} DivBelow(v: int, b: int, p: int)
    requires b > 0 && p > 0 && v >= 0
    ensures 0 <= v / b && (v < b * p <==> v / b < p)
  {
    var q := v / b;
    assert v == q * b + v % b;
    if q < p {
      MulMono(q, p - 1, b);
      assert (p - 1) * b == b * p - b;
    } else {
      MulMono(p, q, b);
    }
    if q < 0 {
      MulMono(q, -1, b);
    }
  }

  lemma {:induction false} DigitsOfValue(ds: seq<int>, base: int)
    requires base > 0 && IsDigits(ds, base)
    ensures Digits(Value(ds, base), base, |ds|) == ds
  {
    if ds != [] {
      var n := |ds| - 1;
      DigitsOfValue(ds[..n], base);
      DivModUnique(Value(ds, base), base, Value(ds[..n], base), ds[n]);
    }
  }

  lemma {:induction false} LeadingDigitPositive(ds: seq<int>, base: int)
    requires base > 0 && ds != [] && IsDigits(ds, base) && ds[0] != 0
    ensures Value(ds, base) > 0
  {
    var rest := ds[1..];
    assert ds == [ds[0]] + rest;
    ValueConcat([ds[0]], rest, base);
    assert Value([ds[0]], base) == ds[0] by { ValueSnoc([], ds[0], base); }
    ValueBound(rest, base);
    PositiveProduct(ds[0], Pow(base, |rest|));
  }

  /** `memcmp (a, b, n) < 0`. */
  ghost predicate LexLess(a: seq<int>, b: seq<int>) {
    |a| == |b| && exists k :: 0 <= k < |a| && FirstDiff(a, b, k) && a[k] < b[k]
  }

  ghost predicate LexLeq(a: seq<int>, b: seq<int>) { a == b || LexLess(a, b) }

  ghost predicate FirstDiff(a: seq<int>, b: seq<int>, k: int) {
    0 <= k < |a| && k < |b| && a[..k] == b[..k] && a[k] != b[k]
  }

  lemma {:induction false} SomeFirstDiff(a: seq<int>, b: seq<int>) returns (k: int)
    requires |a| == |b| && a != b
    ensures FirstDiff(a, b, k)
  {
    if a[0] != b[0] {
      return 0;
    }
    assert a == [a[0]] + a[1..] && b == [b[0]] + b[1..];
    var j := SomeFirstDiff(a[1..], b[1..]);
    assert a[..j + 1] == [a[0]] + a[1..][..j] && b[..j + 1] == [b[0]] + b[1..][..j];
    return j + 1;
  }

  lemma {:induction false} LexTrichotomy(a: seq<int>, b: seq<int>)
    requires |a| == |b|
    ensures a == b || LexLess(a, b) || LexLess(b, a)
  {
    if a != b {
      var k := SomeFirstDiff(a, b);
      assert FirstDiff(b, a, k);
    }
  }

  lemma {:induction false} PrefixAgrees(a: seq<int>, b: seq<int>, k: int)
    requires FirstDiff(a, b, k)
    ensures forall i :: 0 <= i < k ==> a[i] == b[i]
  {
    assert forall i :: 0 <= i < k ==> a[..k][i] == a[i] && b[..k][i] == b[i];
  }

  lemma {:induction false} LexAsymmetric(a: seq<int>, b: seq<int>)
    requires LexLess(a, b)
    ensures !LexLess(b, a) && a != b
  {
    var i :| 0 <= i < |a| && FirstDiff(a, b, i) && a[i] < b[i];
    PrefixAgrees(a, b, i);
    forall j | 0 <= j < |b| && FirstDiff(b, a, j) ensures b[j] > a[j] {
      PrefixAgrees(b, a, j);
    }
  }

  lemma {:induction false} LexToValue(a: seq<int>, b: seq<int>, base: int)
    requires base > 0 && IsDigits(a, base) && IsDigits(b, base) && LexLess(a, b)
    ensures Value(a, base) < Value(b, base)
  {
    var k :| 0 <= k < |a| && FirstDiff(a, b, k) && a[k] < b[k];
    SplitAt(a, k, base);
    SplitAt(b, k, base);
    ValueBound(a[k + 1..], base);
    ValueBound(b[k + 1..], base);
    var hd := Value(a[..k], base);
    HigherPrefix(hd, a[k], b[k], base, Pow(base, |a| - k - 1), Value(a[k + 1..], base), Value(b[k + 1..], base));
  }

  lemma {:induction false} SplitAt(a: seq<int>, k: nat, base: int)
    requires base > 0 && k < |a|
    ensures Value(a, base)
         == (Value(a[..k], base) * base + a[k]) * Pow(base, |a| - k - 1) + Value(a[k + 1..], base)
  {
    assert a == (a[..k] + [a[k]]) + a[k + 1..];
    ValueConcat(a[..k] + [a[k]], a[k + 1..], base);
    ValueSnoc(a[..k], a[k], base);
  }

  lemma {:induction false} HigherPrefix(hd: int, x: int, y: int, base: int, p: int, u: int, v: int)
    requires x < y && 0 <= u < p && 0 <= v < p
    ensures (hd * base + x) * p + u < (hd * base + y) * p + v
  {
    var m, n := hd * base + x, hd * base + y;
    MulMono(m + 1, n, p);
    assert (m + 1) * p == m * p + p;
  }

  /** The byte order that `memcmp` sees is the order of the numbers denoted. */
  lemma {:induction false} LexIffValue(a: seq<int>, b: seq<int>, base: int)
    requires base > 0 && IsDigits(a, base) && IsDigits(b, base) && |a| == |b|
    ensures LexLess(a, b) <==> Value(a, base) < Value(b, base)
  {
    LexTrichotomy(a, b);
    if LexLess(a, b) {
      LexToValue(a, b, base);
    } else if LexLess(b, a) {
      LexToValue(b, a, base);
    }
  }
}
