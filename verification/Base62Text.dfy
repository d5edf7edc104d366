/** What the base-62 codec of the 20-byte KSUID computes: its tables, the encoding and
    decoding as positional notation, and the laws that tie them together. */
module Base62Text {
  import opened Positional
  import opened Words

  // ---- tables ----

  const B62_DIGITS: string := "0123456789"
  const B62_UPPER: string := "ABCDEFGHIJKLMNOPQRSTUVWXYZ"
  const B62_LOWER: string := "abcdefghijklmnopqrstuvwxyz"
  const B62_ALPHABET: string := B62_DIGITS + B62_UPPER + B62_LOWER
  const INVALID: byte := 0xff

  /** `kB62Alphabet[d]`, as the character code it stores. */
  function AlphabetChar(d: int): byte
    requires 0 <= d < 62
  {
    AlphabetShape(d);
    B62_ALPHABET[d] as int
  }

  lemma {:induction false} AlphabetShape(d: int)
    requires 0 <= d < 62
    ensures |B62_ALPHABET| == 62
    ensures B62_ALPHABET[d] as int == if d < 10 then d + 0x30 else if d < 36 then d - 10 + 0x41 else d - 36 + 0x61
  {
    if d < 10 {
      DigitCode(d);
    } else if d < 36 {
      UpperCode(d - 10);
    } else {
      LowerCode(d - 36);
    }
  }

  lemma {:induction false} DigitCode(d: nat)
    requires d < 10
    ensures B62_DIGITS[d] as int == d + 0x30
  {
  }

  lemma {:induction false} UpperCode(d: nat)
    requires d < 26
    ensures B62_UPPER[d] as int == d + 0x41
  {
  }

  lemma {:induction false} LowerCode(d: nat)
    requires d < 26
    ensures B62_LOWER[d] as int == d + 0x61
  {
  }

  lemma {:induction false} AlphabetCode(d: int)
    requires 0 <= d < 62
    ensures AlphabetChar(d) == if d < 10 then d + 0x30 else if d < 36 then d - 10 + 0x41 else d - 36 + 0x61
  {
    AlphabetShape(d);
  }

  /** `kB62Value[c]`. */
  function B62Value(c: byte): byte {
    if 0x30 <= c <= 0x39 then c - 0x30
    else if 0x41 <= c <= 0x5a then c - 0x41 + 10
    else if 0x61 <= c <= 0x7a then c - 0x61 + 36
    else INVALID
  }

  /** The value table inverts the alphabet on its 62 characters and rejects every other byte;
      the alphabet is in ASCII order. */
  lemma {:induction false} TablesAreInverse()
    ensures forall d :: 0 <= d < 62 ==> B62Value(AlphabetChar(d)) == d
    ensures forall c: byte :: B62Value(c) != INVALID ==> B62Value(c) < 62 && AlphabetChar(B62Value(c)) == c
    ensures forall d, e :: 0 <= d < e < 62 ==> AlphabetChar(d) < AlphabetChar(e)
  {
    hide AlphabetChar;
    forall d | 0 <= d < 62
      ensures AlphabetChar(d) == if d < 10 then d + 0x30 else if d < 36 then d - 10 + 0x41 else d - 36 + 0x61
    {
      AlphabetCode(d);
    }
  }

  predicate Within(c: byte, first: char, last: char) { first as int <= c <= last as int }

  /** The alphabet is exactly the ASCII digits and letters. */
  lemma {:induction false} AlphabetIsAlphanumeric(c: byte)
    ensures B62Value(c) != INVALID <==> Within(c, '0', '9') || Within(c, 'A', 'Z') || Within(c, 'a', 'z')
  {
  }

  // ---- what the codec computes ----

  type Ksuid = b: seq<byte> | |b| == KSUID_BYTES witness seq(20, _ => 0)

  const KSUID_BYTES: nat := 20
  const STRING_LEN: nat := 27
  const TWO_160: nat := 0x1_00000000_00000000_00000000_00000000_00000000

  function Chars(ds: seq<int>): seq<byte>
    requires IsDigits(ds, 62)
  {
    seq(|ds|, i requires 0 <= i < |ds| => AlphabetChar(ds[i]))
  }

  /** The 27 base-62 digits of the big-endian number, as characters. */
  function Encoding(b: Ksuid): (s: seq<byte>)
    ensures |s| == STRING_LEN
  {
    DigitsInRange(Value(b, 0x100), 62, STRING_LEN);
    Chars(Digits(Value(b, 0x100), 62, STRING_LEN))
  }

  /** The repeated divisions behind a text: `res[n]` is what is left of the number when only
      the `n` leading characters remain, and each division yields the next one from the right. */
  ghost predicate Tower(res: seq<int>, text: seq<byte>) {
    && |res| == STRING_LEN + 1 && |text| == STRING_LEN && res[0] == 0
    && (forall n :: 0 < n <= STRING_LEN ==> res[n] >= 0 && res[n - 1] == res[n] / 62)
    && (forall n :: 0 <= n < STRING_LEN ==> text[n] == AlphabetChar(res[n + 1] % 62))
  }

  lemma {:induction false} TowerOf(v: int, n: nat) returns (res: seq<int>)
    requires 0 <= v < Pow(62, n)
    ensures |res| == n + 1 && res[0] == 0 && res[n] == v
    ensures forall i :: 0 < i <= n ==> res[i] >= 0 && res[i - 1] == res[i] / 62
    ensures forall i :: 0 <= i < n ==> Digits(v, 62, n)[i] == res[i + 1] % 62
    decreases n
  {
    if n == 0 {
      res := [0];
    } else {
      DivBelow(v, 62, Pow(62, n - 1));
      var below := TowerOf(v / 62, n - 1);
      res := below + [v];
    }
  }

  lemma {:induction false} EncodingTower(id: Ksuid) returns (res: seq<int>)
    ensures Tower(res, Encoding(id)) && res[STRING_LEN] == Value(id, 0x100)
  {
    KsuidRange(id);
    DigitsInRange(Value(id, 0x100), 62, STRING_LEN);
    res := TowerOf(Value(id, 0x100), STRING_LEN);
  }

  /** Once nothing is left, every remaining character is the zero digit. */
  lemma {:induction false} TowerZero(res: seq<int>, text: seq<byte>, n: nat)
    requires Tower(res, text) && n <= STRING_LEN && res[n] == 0
    ensures forall i :: 0 <= i < n ==> text[i] == '0' as int
  {
    if n > 0 {
      assert res[n - 1] == 0 / 62 == 0 && text[n - 1] == AlphabetChar(res[n - 1 + 1] % 62);
      AlphabetCode(0);
      TowerZero(res, text, n - 1);
    }
  }

  datatype Decoded = Ok(b: Ksuid) | StrValue

  predicate InAlphabet(s: seq<byte>) {
    forall i :: 0 <= i < |s| ==> B62Value(s[i]) != INVALID
  }

  function Values(s: seq<byte>): seq<byte> {
    seq(|s|, i requires 0 <= i < |s| => B62Value(s[i]))
  }

  /** Accepts exactly the 27-character alphabet strings that denote a number below 2^160. */
  function Decoding(s: seq<byte>): Decoded
    requires |s| == STRING_LEN
  {
    var v := Value(Values(s), 62);
    if !InAlphabet(s) || v >= TWO_160 then StrValue
    else
      DigitsInRange(v, 0x100, KSUID_BYTES);
      Ok(AsBytes(Digits(v, 0x100, KSUID_BYTES)))
  }

  function AsBytes(ds: seq<int>): (b: seq<byte>)
    requires IsDigits(ds, 0x100)
    ensures b == ds
  {
    seq(|ds|, i requires 0 <= i < |ds| => ds[i])
  }

  /** The divisions by 2^32 behind a decoded value: each yields four more bytes from the right,
      and what is left after five is zero exactly when the value fits in 160 bits. */
  ghost predicate ByteTower(rest: seq<int>, bytes: seq<int>) {
    && |rest| == 6 && |bytes| == KSUID_BYTES
    && (forall k :: 0 <= k < 6 ==> rest[k] >= 0)
    && (forall k :: 0 <= k < 5 ==> rest[k + 1] == rest[k] / 0x1_0000_0000)
    && (forall k :: 0 <= k < 5 ==> bytes[16 - 4 * k..20 - 4 * k] == Be32Store(rest[k] % 0x1_0000_0000))
  }

  lemma {:induction false} ShiftRight(v: int)
    requires v >= 0
    ensures v / 0x100 / 0x100 == v / 0x1_0000
    ensures v / 0x1_0000 / 0x100 == v / 0x100_0000
    ensures v / 0x100_0000 / 0x100 == v / 0x1_0000_0000
  {
  }

  lemma {:induction false} LowLimb(v: int)
    requires v >= 0
    ensures var r := v % 0x1_0000_0000;
      && r % 0x100 == v % 0x100
      && r / 0x100 % 0x100 == v / 0x100 % 0x100
      && r / 0x1_0000 % 0x100 == v / 0x1_0000 % 0x100
      && r / 0x100_0000 % 0x100 == v / 0x100_0000 % 0x100
  {
    var q, r := v / 0x1_0000_0000, v % 0x1_0000_0000;
    assert v / 0x100 == q * 0x100_0000 + r / 0x100;
    assert v / 0x1_0000 == q * 0x1_0000 + r / 0x1_0000;
    assert v / 0x100_0000 == q * 0x100 + r / 0x100_0000;
    DropMultiple(r, q * 0x100_0000);
    DropMultiple(r / 0x100, q * 0x1_0000);
    DropMultiple(r / 0x1_0000, q * 0x100);
    DropMultiple(r / 0x100_0000, q);
  }

  lemma {:induction false} DropMultiple(x: int, k: int)
    ensures (k * 0x100 + x) % 0x100 == x % 0x100
  {
  }

  lemma {:induction false} DigitsByLimb(v: int, n: nat)
    requires v >= 0
    ensures Digits(v, 0x100, n + 4) == Digits(v / 0x1_0000_0000, 0x100, n) + Be32Store(v % 0x1_0000_0000)
  {
    var d3, d2, d1 := v / 0x100, v / 0x1_0000, v / 0x100_0000;
    ShiftRight(v);
    LowLimb(v);
    assert Digits(v, 0x100, n + 4) == Digits(d3, 0x100, n + 3) + [v % 0x100];
    assert Digits(d3, 0x100, n + 3) == Digits(d2, 0x100, n + 2) + [d3 % 0x100];
    assert Digits(d2, 0x100, n + 2) == Digits(d1, 0x100, n + 1) + [d2 % 0x100];
    assert Digits(d1, 0x100, n + 1) == Digits(v / 0x1_0000_0000, 0x100, n) + [d1 % 0x100];
  }

  lemma {:induction false} LimbTower(v: int, m: nat) returns (rest: seq<int>)
    requires v >= 0
    ensures |rest| == m + 1 && rest[0] == v && forall k :: 0 <= k <= m ==> rest[k] >= 0
    ensures forall k :: 0 <= k < m ==> rest[k + 1] == rest[k] / 0x1_0000_0000
    ensures forall k :: 0 <= k < m ==>
      Digits(v, 0x100, 4 * m)[4 * (m - 1 - k)..4 * (m - k)] == Be32Store(rest[k] % 0x1_0000_0000)
    ensures rest[m] == 0 <==> v < Pow(0x1_0000_0000, m)
    decreases m
  {
    if m == 0 {
      return [v];
    }
    var above := LimbTower(v / 0x1_0000_0000, m - 1);
    rest := [v] + above;
    DivBelow(v, 0x1_0000_0000, Pow(0x1_0000_0000, m - 1));
    DigitsByLimb(v, 4 * (m - 1));
    var ds, da := Digits(v, 0x100, 4 * m), Digits(v / 0x1_0000_0000, 0x100, 4 * (m - 1));
    forall k | 0 <= k < m
      ensures rest[k + 1] == rest[k] / 0x1_0000_0000
      ensures ds[4 * (m - 1 - k)..4 * (m - k)] == Be32Store(rest[k] % 0x1_0000_0000)
    {
      if k > 0 {
        assert rest[k + 1] == above[k - 1 + 1] && rest[k] == above[k - 1];
        assert ds[4 * (m - 1 - k)..4 * (m - k)] == da[4 * (m - 2 - (k - 1))..4 * (m - 1 - (k - 1))];
      }
    }
  }

  lemma {:induction false} ByteTowerOf(v: int) returns (rest: seq<int>)
    requires v >= 0
    ensures ByteTower(rest, Digits(v, 0x100, KSUID_BYTES)) && rest[0] == v
    ensures rest[5] == 0 <==> v < TWO_160
  {
    rest := LimbTower(v, 5);
    assert Pow(0x1_0000_0000, 5) == TWO_160;
  }

  lemma {:induction false} ByteTowerZero(rest: seq<int>, bytes: seq<int>, k: nat)
    requires ByteTower(rest, bytes) && k <= 5 && rest[k] == 0
    ensures rest[5] == 0 && forall i :: 0 <= i < 20 - 4 * k ==> bytes[i] == 0
    decreases 5 - k
  {
    if k < 5 {
      assert rest[k + 1] == 0;
      ByteTowerZero(rest, bytes, k + 1);
      var limb := bytes[16 - 4 * k..20 - 4 * k];
      assert limb == Be32Store(0) == [0, 0, 0, 0];
      forall i | 16 - 4 * k <= i < 20 - 4 * k ensures bytes[i] == 0 {
        assert bytes[i] == limb[i - (16 - 4 * k)];
      }
    }
  }

  lemma {:induction false} Ranges()
    ensures Pow(0x100, 20) == TWO_160
    ensures TWO_160 < Pow(62, 27)
  {
    PowAdd(0x100, 10, 10);
    PowAdd(0x100, 5, 5);
    PowAdd(62, 20, 7);
    PowAdd(62, 10, 10);
    PowAdd(62, 5, 5);
    PowAdd(62, 5, 2);
  }

  lemma {:induction false} KsuidRange(b: Ksuid)
    ensures 0 <= Value(b, 0x100) < TWO_160 < Pow(62, 27)
  {
    Ranges();
    ValueBound(b, 0x100);
  }

  // ---- the codec is a bijection ----

  lemma {:induction false} ValuesOfChars(ds: seq<int>)
    requires IsDigits(ds, 62)
    ensures InAlphabet(Chars(ds)) && Values(Chars(ds)) == ds
  {
    TablesAreInverse();
  }

  lemma {:induction false} CharsOfValues(s: seq<byte>)
    requires InAlphabet(s)
    ensures IsDigits(Values(s), 62) && Chars(Values(s)) == s
  {
    TablesAreInverse();
  }

  lemma {:induction false} DecodeEncode(b: Ksuid)
    ensures Decoding(Encoding(b)) == Ok(b)
  {
    var v := Value(b, 0x100);
    KsuidRange(b);
    DigitsInRange(v, 62, STRING_LEN);
    ValuesOfChars(Digits(v, 62, STRING_LEN));
    ValueOfDigits(v, 62, STRING_LEN);
    DigitsOfValue(b, 0x100);
  }

  /** The text denotes, in base 62, the number that the bytes denote. */
  lemma {:induction false} EncodingDenotes(b: Ksuid)
    ensures |Encoding(b)| == 27 && InAlphabet(Encoding(b)) && Value(Values(Encoding(b)), 62) == Value(b, 0x100)
  {
    var v := Value(b, 0x100);
    KsuidRange(b);
    DigitsInRange(v, 62, STRING_LEN);
    ValuesOfChars(Digits(v, 62, STRING_LEN));
    ValueOfDigits(v, 62, STRING_LEN);
  }

  /** A string is accepted exactly when it is alphanumeric and its number fits 160 bits, and then the bytes
      denote that number. */
  lemma {:induction false} DecodingDenotes(s: seq<byte>)
    requires |s| == STRING_LEN
    ensures Decoding(s).Ok? <==> InAlphabet(s) && Value(Values(s), 62) < Pow(2, 160)
    ensures Decoding(s).Ok? ==> Value(Decoding(s).b, 0x100) == Value(Values(s), 62)
  {
    Width160();
    if InAlphabet(s) {
      CharsOfValues(s);
      ValueBound(Values(s), 62);
      if Decoding(s).Ok? {
        Ranges();
        ValueOfDigits(Value(Values(s), 62), 0x100, KSUID_BYTES);
      }
    }
  }

  lemma {:induction false} Width160()
    ensures Pow(2, 160) == TWO_160
  {
    Powers();
    PowAdd(2, 64, 64);
    PowAdd(2, 128, 32);
  }

  lemma {:induction false} EncodeDecode(s: seq<byte>)
    requires |s| == STRING_LEN && Decoding(s).Ok?
    ensures Encoding(Decoding(s).b) == s
  {
    CharsOfValues(s);
    var v := Value(Values(s), 62);
    ValueBound(Values(s), 62);
    Ranges();
    ValueOfDigits(v, 0x100, KSUID_BYTES);
    DigitsOfValue(Values(s), 62);
  }

  /** Decoding succeeds on exactly the strings that encoding produces. */
  lemma {:induction false} AcceptsExactlyEncodings(s: seq<byte>)
    requires |s| == STRING_LEN
    ensures Decoding(s).Ok? <==> exists b: Ksuid :: Encoding(b) == s
  {
    if Decoding(s).Ok? {
      EncodeDecode(s);
    }
    forall b: Ksuid | Encoding(b) == s ensures Decoding(s).Ok? {
      DecodeEncode(b);
    }
  }

  // ---- text order is byte order ----

  lemma {:induction false} CharsOrder(x: seq<int>, y: seq<int>)
    requires IsDigits(x, 62) && IsDigits(y, 62)
    ensures LexLess(Chars(x), Chars(y)) <==> LexLess(x, y)
  {
    if LexLess(x, y) {
      CharsLess(x, y);
    } else if LexLess(y, x) {
      CharsLess(y, x);
      LexAsymmetric(Chars(y), Chars(x));
    } else if |x| == |y| {
      LexTrichotomy(x, y);
    }
  }

  lemma {:induction false} CharsLess(x: seq<int>, y: seq<int>)
    requires IsDigits(x, 62) && IsDigits(y, 62) && LexLess(x, y)
    ensures LexLess(Chars(x), Chars(y))
  {
    TablesAreInverse();
    var k :| 0 <= k < |x| && FirstDiff(x, y, k) && x[k] < y[k];
    CharsFirstDiff(x, y, k);
  }

  lemma {:induction false} CharsFirstDiff(x: seq<int>, y: seq<int>, k: int)
    requires IsDigits(x, 62) && IsDigits(y, 62) && |x| == |y| && FirstDiff(x, y, k)
    ensures FirstDiff(Chars(x), Chars(y), k)
  {
    TablesAreInverse();
    forall i | 0 <= i < k ensures x[i] == y[i] {
      assert x[..k][i] == y[..k][i];
    }
  }

  /** ASCII order of the printed strings is big-endian byte order of the identifiers. */
  lemma {:induction false} EncodingOrder(a: Ksuid, b: Ksuid)
    ensures LexLess(Encoding(a), Encoding(b)) <==> LexLess(a, b)
  {
    var va, vb := Value(a, 0x100), Value(b, 0x100);
    var da, db := Digits(va, 62, STRING_LEN), Digits(vb, 62, STRING_LEN);
    KsuidRange(a);
    KsuidRange(b);
    DigitsInRange(va, 62, STRING_LEN);
    DigitsInRange(vb, 62, STRING_LEN);
    CharsOrder(da, db);
    LexIffValue(da, db, 62);
    ValueOfDigits(va, 62, STRING_LEN);
    ValueOfDigits(vb, 62, STRING_LEN);
    LexIffValue(a, b, 0x100);
  }

  const KSUID_MAX: Ksuid := seq(20, _ => 0xff)

  /** An alphabet string is rejected exactly when it sorts after the encoding of the largest KSUID. */
  lemma {:induction false} OverflowIsTextual(s: seq<byte>)
    requires |s| == STRING_LEN && InAlphabet(s)
    ensures Decoding(s) == StrValue <==> LexLess(Encoding(KSUID_MAX), s)
  {
    var vs := Values(s);
    CharsOfValues(s);
    MaxValue();
    var m := Value(KSUID_MAX, 0x100);
    var dm := Digits(m, 62, STRING_LEN);
    Ranges();
    DigitsInRange(m, 62, STRING_LEN);
    CharsOrder(dm, vs);
    LexIffValue(dm, vs, 62);
    ValueOfDigits(m, 62, STRING_LEN);
  }

  lemma {:induction false} MaxValue()
    ensures Value(KSUID_MAX, 0x100) == TWO_160 - 1
  {
    Ranges();
    ValueOfOnes(20);
    assert KSUID_MAX == seq(20, _ => 0xff);
  }

  lemma {:induction false} ValueOfOnes(n: nat)
    ensures Value(seq(n, _ => 0xff), 0x100) == Pow(0x100, n) - 1
  {
    if n > 0 {
      ValueOfOnes(n - 1);
      assert seq(n, _ => 0xff)[..n - 1] == seq(n - 1, _ => 0xff);
    } else {
      assert seq(n, _ => 0xff) == [];
    }
  }

  // ---- the documented largest string ----

  const MAX_HEAD: string := "aWgEPTl1tmebf"
  const MAX_TAIL: string := "sQzFP4bxwgy80V"
  const MAX_TEXT: string := MAX_HEAD + MAX_TAIL

  const MAX_DIGITS: seq<int> := [
    36, 32, 42, 14, 25, 29, 47, 1, 55, 48, 40, 37, 41, 54, 26, 61, 15, 25, 4, 37, 59, 58, 42, 60, 8, 0, 31]

  lemma {:induction false} Horner(ds: seq<int>, k: nat, v: int)
    requires k < |ds| && Value(ds[..k], 62) == v
    ensures Value(ds[..k + 1], 62) == v * 62 + ds[k]
  {
    assert ds[..k + 1] == ds[..k] + [ds[k]];
    ValueSnoc(ds[..k], ds[k], 62);
  }

  /** The largest KSUID prints as the string the header names. */
  lemma {:induction false} MaxText()
    ensures |MAX_TEXT| == STRING_LEN
    ensures forall i :: 0 <= i < STRING_LEN ==> Encoding(KSUID_MAX)[i] == MAX_TEXT[i] as int
  {
    hide Value, AlphabetChar;
    MaxCharacters();
    var ds := MAX_DIGITS;
    MaxPrefix(ds);
    assert ds[..27] == ds;
    MaxValue();
    DigitsOfValue(ds, 62);
  }

  lemma {:induction false} MaxCharacters()
    ensures |MAX_TEXT| == |MAX_DIGITS| == STRING_LEN && IsDigits(MAX_DIGITS, 62)
    ensures forall i :: 0 <= i < STRING_LEN ==> AlphabetChar(MAX_DIGITS[i]) == MAX_TEXT[i] as int
  {
    hide AlphabetChar;
    forall i | 0 <= i < STRING_LEN
      ensures AlphabetChar(MAX_DIGITS[i]) == MAX_TEXT[i] as int
    {
      if i < 13 {
        HeadCharacter(i);
      } else {
        TailCharacter(i - 13);
      }
    }
  }

  lemma {:induction false} HeadCharacter(i: nat)
    requires i < 13
    ensures |MAX_HEAD| == 13 && 0 <= MAX_DIGITS[i] < 62 && AlphabetChar(MAX_DIGITS[i]) == MAX_HEAD[i] as int
  {
    hide AlphabetChar;
    AlphabetCode(MAX_DIGITS[i]);
  }

  lemma {:induction false} TailCharacter(i: nat)
    requires i < 14
    ensures |MAX_TAIL| == 14 && 0 <= MAX_DIGITS[13 + i] < 62
    ensures AlphabetChar(MAX_DIGITS[13 + i]) == MAX_TAIL[i] as int
  {
    hide AlphabetChar;
    AlphabetCode(MAX_DIGITS[13 + i]);
  }

  lemma {:induction false} MaxPrefix(ds: seq<int>)
    requires ds == MAX_DIGITS
    ensures Value(ds[..27], 62) == TWO_160 - 1
  {
    assert Value(ds[..0], 62) == 0;
    hide Value;
    Horner(ds, 0, 0);
    Horner(ds, 1, 36);
    Horner(ds, 2, 2264);
    Horner(ds, 3, 140410);
    Horner(ds, 4, 8705434);
    Horner(ds, 5, 539736933);
    Horner(ds, 6, 33463689875);
    Horner(ds, 7, 2074748772297);
    Horner(ds, 8, 128634423882415);
    Horner(ds, 9, 7975334280709785);
    Horner(ds, 10, 494470725404006718);
    Horner(ds, 11, 30657184975048416556);
    Horner(ds, 12, 1900745468453001826509);
    Horner(ds, 13, 117846219044086113243599);
    Horner(ds, 14, 7306465580733339021103192);
    Horner(ds, 15, 453000866005467019308397930);
    Horner(ds, 16, 28086053692338955197120671721);
    Horner(ds, 17, 1741335328925015222221481646717);
    Horner(ds, 18, 107962790393350943777731862096479);
    Horner(ds, 19, 6693693004387758514219375449981702);
    Horner(ds, 20, 415008966272041027881601277898865561);
    Horner(ds, 21, 25730555908866543728659279229729664841);
    Horner(ds, 22, 1595294466349725711176875312243239220200);
    Horner(ds, 23, 98908256913682994092966269359080831652442);
    Horner(ds, 24, 6132311928648345633763908700263011562451464);
    Horner(ds, 25, 380203339576197429293362339416306716871990776);
    Horner(ds, 26, 23572607053724240616188465043811016446063428112);
  }
}
