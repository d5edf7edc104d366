/** chronoid/ksuid/base62.c: the scalar codec, by repeated in-place long division. */
module Base62 {
  import opened Positional
  import opened Words
  import opened Base62Text

  // ---- long division, shared by the two directions ----

  /** Halfway through a pass: the digits `done` so far are `q * d + rem`, and `q` has no
      leading zero digit. */
  ghost predicate LongDivision(done: seq<int>, base: int, d: int, q: seq<int>, rem: int) {
    && Value(done, base) == Value(q, base) * d + rem
    && 0 <= rem < d
    && (q != [] ==> q[0] != 0)
  }

  lemma {:induction false} LongDivisionStart(base: int, d: int)
    requires d > 0
    ensures LongDivision([], base, d, [], 0)
  {
  }

  /** One more digit, dividing `rem * base + c`; a leading zero of the quotient is dropped. */
  lemma {:induction false} LongDivisionStep(done: seq<int>, base: int, d: int, q: seq<int>, rem: int,
                                            c: int, digit: int, rem': int)
    requires LongDivision(done, base, d, q, rem)
    requires c + rem * base == digit * d + rem' && 0 <= rem' < d
    ensures LongDivision(done + [c], base, d, if q != [] || digit != 0 then q + [digit] else [], rem')
  {
    hide Value;
    ValueSnoc(done, c, base);
    ValueSnoc(q, digit, base);
    Regroup(Value(q, base), base, d, rem, c, digit, rem');
    if q == [] && digit == 0 {
      ValueEmpty(base);
    }
  }

  lemma {:induction false} Regroup(v: int, base: int, d: int, rem: int, c: int, digit: int, rem': int)
    requires c + rem * base == digit * d + rem'
    ensures (v * d + rem) * base + c == (v * base + digit) * d + rem'
  {
  }

  lemma {:induction false} ValueEmpty(base: int)
    ensures Value([], base) == 0
  {
  }

  /** A finished pass is the division. */
  lemma {:induction false} LongDivisionEnd(done: seq<int>, base: int, d: int, q: seq<int>, rem: int)
    requires LongDivision(done, base, d, q, rem)
    ensures d > 0 && Value(q, base) == Value(done, base) / d && rem == Value(done, base) % d
    ensures q != [] ==> q[0] != 0
  {
    hide Value;
    DivModUnique(Value(done, base), d, Value(q, base), rem);
  }

  // ---- encoding: five base-2^32 limbs divided by 62 ----

  /** One pass of the inner loop: `bp[..len]` divided by 62, the quotient stored to `bq`
      without leading zero limbs. */
  method DivideLimbs(bp: array<u32>, len: nat, bq: array<u32>) returns (bqLen: nat, remainder: u64)
    requires bp != bq && len <= bp.Length && len <= bq.Length
    modifies bq
    ensures bqLen <= len
    ensures Value(bq[..bqLen], 0x1_0000_0000) == Value(bp[..len], 0x1_0000_0000) / 62
    ensures remainder == Value(bp[..len], 0x1_0000_0000) % 62
    ensures bqLen > 0 ==> bq[0] != 0
  {
    hide Value, LongDivision;
    bqLen, remainder := 0, 0;
    LongDivisionStart(0x1_0000_0000, 62);
    assert bp[..0] == [] && bq[..0] == [];
    for i := 0 to len
      invariant bqLen <= i && remainder < 62
      invariant LongDivision(bp[..i], 0x1_0000_0000, 62, bq[..bqLen], remainder)
    {
      ghost var before, rem := bq[..bqLen], remainder;
      assert bp[..i + 1] == bp[..i] + [bp[i]];
      var digit;
      digit, remainder := DivideLimb(bp[i], remainder);
      LongDivisionStep(bp[..i], 0x1_0000_0000, 62, before, rem, bp[i], digit, remainder);
      bqLen := PushLimb(bq, bqLen, digit);
    }
    LongDivisionEnd(bp[..len], 0x1_0000_0000, 62, bq[..bqLen], remainder);
  }

  /** One 64-bit division; the value is below 62 * 2^32, so the digit fits its uint32_t cast. */
  method DivideLimb(limb: u32, rem: u64) returns (digit: u64, remainder: u64)
    requires rem < 62
    ensures digit < 0x1_0000_0000 && remainder < 62
    ensures limb as int + rem as int * 0x1_0000_0000 == digit as int * 62 + remainder as int
  {
    var value: u64 := limb as int + rem as int * 0x1_0000_0000;
    digit := value / 62;
    remainder := value % 62;
  }

  /** Append a quotient limb unless it is a leading zero. */
  method PushLimb(bq: array<u32>, bqLen: nat, digit: u64) returns (n: nat)
    requires bqLen < bq.Length && digit < 0x1_0000_0000
    modifies bq
    ensures n == if bqLen != 0 || digit != 0 then bqLen + 1 else 0
    ensures bq[..n] == if bqLen != 0 || digit != 0 then old(bq[..bqLen]) + [digit] else []
  {
    n := bqLen;
    if n != 0 || digit != 0 {
      bq[n] := digit % 0x1_0000_0000;
      n := n + 1;
    }
  }

  /** A pass followed by the copy of the quotient back over the dividend. */
  method DivideLimbsInPlace(bp: array<u32>, len: nat, bq: array<u32>) returns (bqLen: nat, remainder: u64)
    requires bp != bq && len <= bp.Length && len <= bq.Length
    modifies bp, bq
    ensures bqLen <= len
    ensures Value(bp[..bqLen], 0x1_0000_0000) == old(Value(bp[..len], 0x1_0000_0000)) / 62
    ensures remainder == old(Value(bp[..len], 0x1_0000_0000)) % 62
    ensures bqLen > 0 ==> Value(bp[..bqLen], 0x1_0000_0000) > 0
  {
    bqLen, remainder := DivideLimbs(bp, len, bq);
    if bqLen > 0 {
      LeadingDigitPositive(bq[..bqLen], 0x1_0000_0000);
    }
    ghost var quotient := bq[..bqLen];
    forall i | 0 <= i < bqLen {
      bp[i] := bq[i];
    }
    assert bp[..bqLen] == quotient;
  }

  /** The first `k` base-2^32 limbs, most significant first. */
  function Limbs(id: Ksuid, k: nat): (ls: seq<u32>)
    requires k <= 5
    ensures |ls| == k
  {
    if k == 0 then [] else Limbs(id, k - 1) + [Be32Load(id[4 * k - 4..4 * k])]
  }

  /** Loading big-endian limbs does not change the number. */
  lemma {:induction false} LimbsValue(id: Ksuid, k: nat)
    requires k <= 5
    ensures Value(Limbs(id, k), 0x1_0000_0000) == Value(id[..4 * k], 0x100)
  {
    if k > 0 {
      var limb := id[4 * k - 4..4 * k];
      LimbsValue(id, k - 1);
      assert id[..4 * k] == id[..4 * k - 4] + limb;
      ValueConcat(id[..4 * k - 4], limb, 0x100);
      Be32IsValue(limb);
      ValueSnoc(Limbs(id, k - 1), Be32Load(limb), 0x1_0000_0000);
      assert Pow(0x100, 4) == 0x1_0000_0000;
    }
  }

  /** The division loop of `chronoid_base62_encode`: characters appear from the right until
      no limb is left; `n` is the number of leading characters it did not write. */
  method EncodeDigits(out: array<byte>, off: nat, bp: array<u32>, bq: array<u32>,
                      ghost res: seq<int>, ghost text: seq<byte>) returns (n: nat)
    requires off + STRING_LEN <= out.Length && Tower(res, text)
    requires bp != bq && bp.Length == bq.Length == 5
    requires Value(bp[..5], 0x1_0000_0000) == res[STRING_LEN]
    modifies out, bp, bq
    ensures n <= STRING_LEN && res[n] == 0
    ensures forall p :: off + n <= p < off + STRING_LEN ==> out[p] == text[p - off]
    ensures forall i :: 0 <= i < off || off + STRING_LEN <= i < out.Length ==> out[i] == old(out[i])
  {
    hide Value, AlphabetChar;
    var bpLen: nat := 5;
    n := STRING_LEN;
    while bpLen > 0
      invariant 0 <= n <= STRING_LEN && bpLen <= 5
      invariant Value(bp[..bpLen], 0x1_0000_0000) == res[n]
      invariant n < STRING_LEN && bpLen > 0 ==> res[n] > 0
      invariant forall p :: off + n <= p < off + STRING_LEN ==> out[p] == text[p - off]
      invariant forall i :: 0 <= i < off || off + STRING_LEN <= i < out.Length ==> out[i] == old(out[i])
      decreases n
    {
      var bqLen, remainder := DivideLimbsInPlace(bp, bpLen, bq);
      n := n - 1;
      assert text[n] == AlphabetChar(res[n + 1] % 62);
      out[off + n] := AlphabetChar(remainder);
      bpLen := bqLen;
    }
    ValueEmpty(0x1_0000_0000);
    assert bp[..0] == [];
  }

  method LoadLimbs(bp: array<u32>, id: Ksuid)
    requires bp.Length == 5
    modifies bp
    ensures Value(bp[..5], 0x1_0000_0000) == Value(id, 0x100)
  {
    for i := 0 to 5
      invariant bp[..i] == Limbs(id, i)
    {
      bp[i] := Be32Load(id[4 * i..4 * i + 4]);
      assert bp[..i + 1] == bp[..i] + [bp[i]];
    }
    LimbsValue(id, 5);
    assert id[..20] == id;
  }

  /** `chronoid_base62_encode`, writing at `out + off`. */
  method Encode(out: array<byte>, off: nat, id: Ksuid)
    requires off + STRING_LEN <= out.Length
    modifies out
    ensures forall p :: off <= p < off + STRING_LEN ==> out[p] == Encoding(id)[p - off]
    ensures forall i :: 0 <= i < off || off + STRING_LEN <= i < out.Length ==> out[i] == old(out[i])
  {
    hide Encoding, Tower;
    var bp := new u32[5];
    var bq := new u32[5];
    LoadLimbs(bp, id);
    ghost var res := EncodingTower(id);
    var n := EncodeDigits(out, off, bp, bq, res, Encoding(id));
    TowerZero(res, Encoding(id), n);
    if n > 0 {
      forall i | 0 <= i < n {
        out[off + i] := '0' as int;
      }
    }
  }

  // ---- decoding: 27 base-62 digits divided by 2^32 ----

  datatype Err = OK | ERR_STR_SIZE | ERR_STR_VALUE

  /** `chronoid_base62_translate16_scalar`. */
  method Translate16(out: array<byte>, inp: seq<byte>) returns (valid: bool)
    requires out.Length >= 16 && |inp| >= 16
    modifies out
    ensures out[..16] == Values(inp[..16])
    ensures valid <==> InAlphabet(inp[..16])
  {
    valid := true;
    for i := 0 to 16
      invariant forall j :: 0 <= j < i ==> out[j] == B62Value(inp[j])
      invariant valid <==> forall j :: 0 <= j < i ==> B62Value(inp[j]) != INVALID
    {
      var v := B62Value(inp[i]);
      out[i] := v;
      if v == INVALID {
        valid := false;
      }
    }
    assert forall j :: 0 <= j < 16 ==> inp[..16][j] == inp[j];
  }

  /** One pass of the inner loop: base-62 digits divided by 2^32. */
  method DivideChars(bp: array<byte>, len: nat, bq: array<byte>) returns (bqLen: nat, remainder: u64)
    requires bp != bq && len <= bp.Length && len <= bq.Length
    requires IsDigits(bp[..len], 62)
    modifies bq
    ensures bqLen <= len && IsDigits(bq[..bqLen], 62)
    ensures Value(bq[..bqLen], 62) == Value(bp[..len], 62) / 0x1_0000_0000
    ensures remainder == Value(bp[..len], 62) % 0x1_0000_0000
    ensures bqLen > 0 ==> bq[0] != 0
  {
    hide Value, LongDivision;
    bqLen, remainder := 0, 0;
    LongDivisionStart(62, 0x1_0000_0000);
    assert bp[..0] == [] && bq[..0] == [];
    for i := 0 to len
      invariant bqLen <= i && remainder < 0x1_0000_0000
      invariant IsDigits(bq[..bqLen], 62)
      invariant LongDivision(bp[..i], 62, 0x1_0000_0000, bq[..bqLen], remainder)
    {
      ghost var before, rem := bq[..bqLen], remainder;
      assert 0 <= bp[..len][i] < 62;
      assert bp[..i + 1] == bp[..i] + [bp[i]];
      var digit;
      digit, remainder := DivideChar(bp[i], remainder);
      LongDivisionStep(bp[..i], 62, 0x1_0000_0000, before, rem, bp[i], digit, remainder);
      bqLen := PushChar(bq, bqLen, digit);
    }
    LongDivisionEnd(bp[..len], 62, 0x1_0000_0000, bq[..bqLen], remainder);
  }

  /** One 64-bit division; the quotient is again below 62, so its byte cast keeps it. */
  method DivideChar(c: byte, rem: u64) returns (digit: u64, remainder: u64)
    requires c < 62 && rem < 0x1_0000_0000
    ensures digit < 62 && remainder < 0x1_0000_0000
    ensures c as int + rem as int * 62 == digit as int * 0x1_0000_0000 + remainder as int
  {
    var value: u64 := c as int + rem as int * 62;
    digit := value / 0x1_0000_0000;
    remainder := value % 0x1_0000_0000;
  }

  method PushChar(bq: array<byte>, bqLen: nat, digit: u64) returns (n: nat)
    requires bqLen < bq.Length && digit < 62
    modifies bq
    ensures n == if bqLen != 0 || digit != 0 then bqLen + 1 else 0
    ensures bq[..n] == if bqLen != 0 || digit != 0 then old(bq[..bqLen]) + [digit] else []
  {
    n := bqLen;
    if n != 0 || digit != 0 {
      bq[n] := digit % 0x100;
      n := n + 1;
    }
  }

  method DivideCharsInPlace(bp: array<byte>, len: nat, bq: array<byte>) returns (bqLen: nat, remainder: u64)
    requires bp != bq && len <= bp.Length && len <= bq.Length
    requires IsDigits(bp[..len], 62)
    modifies bp, bq
    ensures bqLen <= len && IsDigits(bp[..bqLen], 62)
    ensures Value(bp[..bqLen], 62) == old(Value(bp[..len], 62)) / 0x1_0000_0000
    ensures remainder == old(Value(bp[..len], 62)) % 0x1_0000_0000
    ensures bqLen > 0 ==> Value(bp[..bqLen], 62) > 0
  {
    bqLen, remainder := DivideChars(bp, len, bq);
    if bqLen > 0 {
      LeadingDigitPositive(bq[..bqLen], 62);
    }
    ghost var quotient := bq[..bqLen];
    forall i | 0 <= i < bqLen {
      bp[i] := bq[i];
    }
    assert bp[..bqLen] == quotient;
  }

  method StoreLimb(out: array<byte>, n: nat, remainder: u64)
    requires 4 <= n <= out.Length && remainder < 0x1_0000_0000
    modifies out
    ensures forall i :: n - 4 <= i < n ==> out[i] == Be32Store(remainder)[i - (n - 4)]
    ensures forall i :: 0 <= i < n - 4 || n <= i < out.Length ==> out[i] == old(out[i])
  {
    out[n - 4] := remainder / 0x100_0000 % 0x100;
    out[n - 3] := remainder / 0x1_0000 % 0x100;
    out[n - 2] := remainder / 0x100 % 0x100;
    out[n - 1] := remainder % 0x100;
  }

  /** The division loop of `chronoid_base62_decode`: four bytes per pass from the right, and an
      overflow when a fifth pass still leaves a quotient. */
  method DecodeLimbs(out: array<byte>, bp: array<byte>, bq: array<byte>,
                     ghost rest: seq<int>, ghost bytes: seq<int>) returns (e: Err)
    requires out.Length == KSUID_BYTES && bp.Length == bq.Length == STRING_LEN
    requires out != bp && out != bq && bp != bq
    requires ByteTower(rest, bytes) && IsDigits(bp[..STRING_LEN], 62) && Value(bp[..STRING_LEN], 62) == rest[0]
    modifies out, bp, bq
    ensures e == if rest[5] == 0 then OK else ERR_STR_VALUE
    ensures e == OK ==> out[..] == bytes
  {
    hide Value, Be32Store;
    var bpLen: nat := STRING_LEN;
    var n := KSUID_BYTES;
    ghost var k := 0;
    while bpLen > 0
      invariant 0 <= k <= 5 && n == 20 - 4 * k && bpLen <= STRING_LEN
      invariant IsDigits(bp[..bpLen], 62) && Value(bp[..bpLen], 62) == rest[k]
      invariant k > 0 && bpLen > 0 ==> rest[k] > 0
      invariant forall i :: n <= i < KSUID_BYTES ==> out[i] == bytes[i]
      decreases n
    {
      var bqLen, remainder := DivideCharsInPlace(bp, bpLen, bq);
      if n < 4 {
        return ERR_STR_VALUE;
      }
      ghost var limb := bytes[16 - 4 * k..20 - 4 * k];
      assert limb == Be32Store(rest[k] % 0x1_0000_0000);
      StoreLimb(out, n, remainder);
      assert forall i :: n - 4 <= i < n ==> bytes[i] == limb[i - (n - 4)];
      n := n - 4;
      k := k + 1;
      bpLen := bqLen;
    }
    ValueEmpty(62);
    assert bp[..0] == [];
    ByteTowerZero(rest, bytes, k);
    if n > 0 {
      forall i | 0 <= i < n {
        out[i] := 0;
      }
    }
    return OK;
  }

  /** `chronoid_base62_decode`.  On an error the contents of `out` are unspecified. */
  method Decode(out: array<byte>, inp: seq<byte>) returns (e: Err)
    requires out.Length == KSUID_BYTES && |inp| == STRING_LEN
    modifies out
    ensures e == if Decoding(inp).Ok? then OK else ERR_STR_VALUE
    ensures e == OK ==> out[..] == Decoding(inp).b
  {
    var bp := new byte[STRING_LEN];
    var valid := Translate16(bp, inp);
    if !valid {
      NotInAlphabet(inp, 16);
      return ERR_STR_VALUE;
    }
    for i := 16 to STRING_LEN
      invariant bp[..i] == Values(inp[..i]) && InAlphabet(inp[..i])
      invariant out[..] == old(out[..])
    {
      var v := B62Value(inp[i]);
      if v == INVALID {
        return ERR_STR_VALUE;
      }
      bp[i] := v;
      assert bp[..i + 1] == bp[..i] + [v] && inp[..i + 1] == inp[..i] + [inp[i]];
    }
    assert inp[..STRING_LEN] == inp;
    CharsOfValues(inp);
    var bq := new byte[STRING_LEN];
    ValueBound(Values(inp), 62);
    ghost var rest := ByteTowerOf(Value(Values(inp), 62));
    e := DecodeLimbs(out, bp, bq, rest, Digits(Value(Values(inp), 62), 0x100, KSUID_BYTES));
  }

  lemma {:induction false} NotInAlphabet(s: seq<byte>, n: nat)
    requires n <= |s| && !InAlphabet(s[..n])
    ensures !InAlphabet(s)
  {
    var i :| 0 <= i < n && B62Value(s[..n][i]) == INVALID;
    assert s[i] == s[..n][i];
  }
}
