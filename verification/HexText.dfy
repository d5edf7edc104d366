/** chronoid/uuidv7/hex.c: the canonical 8-4-4-4-12 text of a UUID (RFC 9562, section 4). */
module HexText {
  import opened Positional
  import opened Words
  import opened UuidLayout

  const TEXT_LEN: nat := 36
  const DASH: byte := 0x2d
  const INVALID: byte := 0xff

  const HEX_LOWER: string := "0123456789abcdef"

  function HexChar(n: int): byte
    requires 0 <= n < 16
  {
    HexCharShape(n);
    HEX_LOWER[n] as int
  }

  lemma {:induction false} HexCharShape(n: int)
    requires 0 <= n < 16
    ensures |HEX_LOWER| == 16 && HEX_LOWER[n] as int == if n < 10 then n + 0x30 else n - 10 + 0x61
  {
  }

  /** `kHexValue[c]`. */
  function HexValue(c: byte): byte {
    if 0x30 <= c <= 0x39 then c - 0x30
    else if 0x41 <= c <= 0x46 then c - 0x41 + 10
    else if 0x61 <= c <= 0x66 then c - 0x61 + 10
    else INVALID
  }

  function LowerChar(c: byte): byte { if 0x41 <= c <= 0x46 then c as int + 0x20 else c }

  predicate Within(c: byte, first: char, last: char) { first as int <= c <= last as int }

  /** The value table accepts exactly the sixteen digits, in either case. */
  lemma {:induction false} HexAlphabet(c: byte)
    ensures HexValue(c) != INVALID <==> Within(c, '0', '9') || Within(c, 'A', 'F') || Within(c, 'a', 'f')
  {
  }

  lemma {:induction false} HexTablesAreInverse()
    ensures forall n :: 0 <= n < 16 ==> HexValue(HexChar(n)) == n && HexChar(n) != DASH
    ensures forall c: byte :: HexValue(c) != INVALID ==> HexValue(c) < 16 && HexChar(HexValue(c)) == LowerChar(c)
    ensures forall m, n :: 0 <= m < n < 16 ==> HexChar(m) < HexChar(n)
  {
    forall n | 0 <= n < 16
      ensures HexChar(n) == if n < 10 then n + 0x30 else n - 10 + 0x61
    {
      HexCharShape(n);
    }
  }

  // ---- layout ----

  function Nibble(b: seq<byte>, j: int): int
    requires 0 <= j < 2 * |b|
  {
    if j % 2 == 0 then b[j / 2] as int / 16 else b[j / 2] as int % 16
  }

  /** The hyphen-free digits, high nibble first. */
  function Hex(b: seq<byte>): (h: seq<byte>)
    ensures |h| == 2 * |b|
  {
    seq<byte>(2 * |b|, j requires 0 <= j < 2 * |b| => HexChar(Nibble(b, j)))
  }

  predicate IsDash(p: int) { p == 8 || p == 13 || p == 18 || p == 23 }

  /** Index among the 32 digits of the digit at text position `p`. */
  function DigitIndex(p: int): int {
    p - (if p > 8 then 1 else 0) - (if p > 13 then 1 else 0) - (if p > 18 then 1 else 0) - (if p > 23 then 1 else 0)
  }

  function Splice(h: seq<byte>): (s: seq<byte>)
    requires |h| == 32
    ensures |s| == TEXT_LEN
  {
    seq<byte>(TEXT_LEN, p requires 0 <= p < TEXT_LEN => if IsDash(p) then DASH else h[DigitIndex(p)])
  }

  /** The canonical lowercase text. */
  function Text(id: Uuid): (s: seq<byte>)
    ensures |s| == TEXT_LEN
  {
    Splice(Hex(id))
  }

  /** The text is the digits in groups of 8, 4, 4, 4 and 12 with hyphens between, and each byte is two
      lowercase digits, the high one first. */
  lemma {:induction false} TextShape(id: Uuid)
    ensures var h := Hex(id);
      && Text(id) == h[..8] + ['-' as int] + h[8..12] + ['-' as int] + h[12..16] + ['-' as int] + h[16..20]
                     + ['-' as int] + h[20..]
      && forall i :: 0 <= i < 16 ==> DigitPair(h[2 * i], h[2 * i + 1], id[i])
  {
    hide Hex;
    forall i | 0 <= i < 16
      ensures DigitPair(Hex(id)[2 * i], Hex(id)[2 * i + 1], id[i])
    {
      PairOf(id, i);
    }
  }

  /** The two characters are the lowercase hexadecimal digits of the byte. */
  ghost predicate DigitPair(hi: byte, lo: byte, b: byte) {
    && (Within(hi, '0', '9') || Within(hi, 'a', 'f')) && (Within(lo, '0', '9') || Within(lo, 'a', 'f'))
    && DigitOf(hi) * 16 + DigitOf(lo) == b as int
  }

  function DigitOf(c: byte): int {
    if c <= '9' as int then c as int - '0' as int else c as int - 'a' as int + 10
  }

  lemma {:induction false} PairOf(id: Uuid, i: nat)
    requires i < 16
    ensures DigitPair(Hex(id)[2 * i], Hex(id)[2 * i + 1], id[i])
  {
    HexCharShape(id[i] as int / 16);
    HexCharShape(id[i] as int % 16);
    assert Nibble(id, 2 * i) == id[i] as int / 16 && Nibble(id, 2 * i + 1) == id[i] as int % 16;
  }

  /** `kCharOff[i]`: text position of the high nibble of byte `i`. */
  const CHAR_OFF: seq<nat> := [0, 2, 4, 6, 9, 11, 14, 16, 19, 21, 24, 26, 28, 30, 32, 34]

  lemma {:induction false} CharOff(i: nat)
    requires i < 16
    ensures |CHAR_OFF| == 16 && CHAR_OFF[i] + 1 < TEXT_LEN
    ensures !IsDash(CHAR_OFF[i]) && !IsDash(CHAR_OFF[i] + 1)
    ensures DigitIndex(CHAR_OFF[i]) == 2 * i && DigitIndex(CHAR_OFF[i] + 1) == 2 * i + 1
    ensures CHAR_OFF[i] == 2 * i + (if i >= 4 then 1 else 0) + (if i >= 6 then 1 else 0)
                           + (if i >= 8 then 1 else 0) + (if i >= 10 then 1 else 0)
  {
  }

  /** `chronoid_hex_encode_lower_scalar`, writing at `out + off`. */
  method EncodeLowerScalar(out: array<byte>, off: nat, id: Uuid)
    requires off + TEXT_LEN <= out.Length
    modifies out
    ensures forall p :: off <= p < off + TEXT_LEN ==> out[p] == Text(id)[p - off]
    ensures forall p :: 0 <= p < off || off + TEXT_LEN <= p < out.Length ==> out[p] == old(out[p])
  {
    hide Bits, HexChar, Hex;
    ghost var text := Text(id);
    for i := 0 to 16
      invariant forall p | off <= p < off + TEXT_LEN && !IsDash(p - off) && DigitIndex(p - off) < 2 * i ::
        out[p] == text[p - off]
      invariant forall p :: 0 <= p < off || off + TEXT_LEN <= p < out.Length ==> out[p] == old(out[p])
    {
      CharOff(i);
      Nibbles(id, i);
      var b := id[i];
      var o := off + CHAR_OFF[i];
      out[o] := HexChar(And(b / 16, 0x0F));
      out[o + 1] := HexChar(And(b, 0x0F));
    }
    out[off + 8] := DASH;
    out[off + 13] := DASH;
    out[off + 18] := DASH;
    out[off + 23] := DASH;
  }

  lemma {:induction false} Nibbles(id: Uuid, i: nat)
    requires i < 16
    ensures And(id[i] as int / 16, 0x0F) == id[i] as int / 16 && And(id[i], 0x0F) == id[i] as int % 16
    ensures Hex(id)[2 * i] == HexChar(id[i] as int / 16) && Hex(id)[2 * i + 1] == HexChar(id[i] as int % 16)
  {
    hide Bits, HexChar;
    Powers();
    AndMask(4, id[i] as int / 16);
    AndMask(4, id[i]);
  }

  // ---- decoding ----

  /** The shape RFC 9562 prescribes, in either case. */
  predicate Canonical(s: seq<byte>) {
    |s| == TEXT_LEN && forall p :: 0 <= p < TEXT_LEN ==> if IsDash(p) then s[p] == DASH else HexValue(s[p]) != INVALID
  }

  function DecodedByte(s: seq<byte>, i: int): byte
    requires Canonical(s) && 0 <= i < 16
  {
    HexTablesAreInverse();
    CharOff(i);
    HexValue(s[CHAR_OFF[i]]) as int * 16 + HexValue(s[CHAR_OFF[i] + 1]) as int
  }

  function Decoded(s: seq<byte>): Uuid
    requires Canonical(s)
  {
    seq<byte>(16, i requires 0 <= i < 16 => DecodedByte(s, i))
  }

  /** Only the nibble lookups of bytes before `n` have been ORed into `bad`. */
  ghost predicate CleanSoFar(s: seq<byte>, n: nat)
    requires |s| == TEXT_LEN && n <= 16
  {
    forall p :: 0 <= p < TEXT_LEN && !IsDash(p) && DigitIndex(p) < 2 * n ==> HexValue(s[p]) != INVALID
  }

  /** ORing table values: the accumulator leaves the low nibble exactly when an invalid one came in. */
  lemma {:induction false} Accumulate(bad: nat, v: byte)
    requires bad < 16 || bad == 0xff
    requires v < 16 || v == 0xff
    ensures Or(bad, v) < 16 || Or(bad, v) == 0xff
    ensures Or(bad, v) < 16 <==> bad < 16 && v < 16
  {
    hide Bits;
    Powers();
    if bad < 16 && v < 16 {
      BitsBound(OR, 4, bad, v);
    } else {
      OrOnes(8, v);
      OrOnes(8, bad);
      BitsCommute(OR, bad, v);
    }
  }

  lemma {:induction false} OrOnes(k: nat, a: nat)
    requires a < Pow(2, k)
    ensures Or(Pow(2, k) - 1, a) == Pow(2, k) - 1
    decreases k
  {
    if k > 0 {
      OrOnes(k - 1, a / 2);
      var m := Pow(2, k) - 1;
      assert m / 2 == Pow(2, k - 1) - 1 && m % 2 == 1;
      BitsStep(OR, m, a);
    } else {
      assert Bits(OR, 0, 0) == 0;
    }
  }

  lemma {:induction false} HighNibbleTest(bad: nat)
    requires bad < 16 || bad == 0xff
    ensures And(bad, 0xF0) != 0 <==> bad == 0xff
  {
    hide Bits;
    Powers();
    BitsSplit(AND, 4, bad / 16, bad % 16, 15, 0);
    ShlIsTimes(bad / 16, 4);
    ShlIsTimes(15, 4);
    AndOnes(4, bad / 16);
    ShlIsTimes(And(bad / 16, 15), 4);
    BitsZero(bad % 16);
    assert bad / 16 * 16 + bad % 16 == bad;
  }

  /** `(uint8_t) ((hi << 4) | lo)` on two digits. */
  lemma {:induction false} JoinNibbles(hi: byte, lo: byte)
    requires hi < 16 && lo < 16
    ensures Or(hi as int * 16, lo) == hi as int * 16 + lo as int < 0x100
  {
    Powers();
    OrDisjoint(4, hi, lo);
  }

  /** `chronoid_hex_decode`: no early exit in the loop, one test of the accumulator, and `out` written
      only on success. */
  method Decode(out: array<byte>, s: seq<byte>) returns (ok: bool)
    requires out.Length == 16
    modifies out
    ensures ok <==> Canonical(s)
    ensures out[..] == if ok then Decoded(s) else old(out[..])
    ensures ok <==> IsTextInAnyCase(s)
    ensures ok ==> Text(out[..]) == Lowered(s)
  {
    hide Bits, Text, Lowered, IsTextInAnyCase;
    AcceptsTextsInAnyCase(s);
    if |s| != TEXT_LEN {
      return false;
    }
    if s[8] != DASH || s[13] != DASH || s[18] != DASH || s[23] != DASH {
      return false;
    }
    var tmp := new byte[16];
    var bad: nat := 0;
    for i := 0 to 16
      invariant bad < 16 || bad == 0xff
      invariant bad < 16 <==> CleanSoFar(s, i)
      invariant bad < 16 ==> forall j :: 0 <= j < i ==>
        tmp[j] == HexValue(s[CHAR_OFF[j]]) as int * 16 + HexValue(s[CHAR_OFF[j] + 1]) as int
      invariant out[..] == old(out[..])
    {
      var next, byteValue := DecodeStep(s, i, bad);
      bad := next;
      tmp[i] := byteValue;
    }
    HighNibbleTest(bad);
    if And(bad, 0xF0) != 0 {
      return false;
    }
    assert Canonical(s);
    forall i | 0 <= i < 16 {
      out[i] := tmp[i];
    }
    assert out[..] == Decoded(s);
    return true;
  }

  method DecodeStep(s: seq<byte>, i: nat, bad: nat) returns (next: nat, byteValue: byte)
    requires |s| == TEXT_LEN && i < 16 && (bad < 16 || bad == 0xff) && (bad < 16 <==> CleanSoFar(s, i))
    ensures |CHAR_OFF| == 16 && (next < 16 || next == 0xff) && (next < 16 <==> CleanSoFar(s, i + 1))
    ensures next < 16 ==> byteValue == HexValue(s[CHAR_OFF[i]]) as int * 16 + HexValue(s[CHAR_OFF[i] + 1]) as int
  {
    hide Bits, HexValue, HexChar;
    HexTablesAreInverse();
    CharOff(i);
    var off := CHAR_OFF[i];
    var hi, lo := HexValue(s[off]), HexValue(s[off + 1]);
    Accumulate(bad, hi);
    Accumulate(Or(bad, hi), lo);
    next := Or(Or(bad, hi), lo);
    byteValue := Or(hi as int * 16, lo) % 0x100;
    if hi < 16 && lo < 16 {
      JoinNibbles(hi, lo);
    }
    forall p | 0 <= p < TEXT_LEN && !IsDash(p) && 2 * i <= DigitIndex(p) < 2 * (i + 1)
      ensures p == off || p == off + 1
    {
    }
  }

  // ---- laws ----

  lemma {:induction false} DigitOfText(id: Uuid, p: nat)
    requires p < TEXT_LEN
    ensures IsDash(p) ==> Text(id)[p] == DASH
    ensures !IsDash(p) ==> 0 <= DigitIndex(p) < 32 && HexValue(Text(id)[p]) == Nibble(id, DigitIndex(p)) < 16
  {
    hide HexChar, HexValue, Nibble;
    HexTablesAreInverse();
    if !IsDash(p) {
      var n := Nibble(id, DigitIndex(p));
      NibbleRange(id, DigitIndex(p));
      assert Text(id)[p] == Hex(id)[DigitIndex(p)] == HexChar(n);
    }
  }

  lemma {:induction false} NibbleRange(id: Uuid, j: int)
    requires 0 <= j < 32
    ensures 0 <= Nibble(id, j) < 16
  {
  }

  lemma {:induction false} DecodeText(id: Uuid)
    ensures Canonical(Text(id)) && Decoded(Text(id)) == id
  {
    hide HexChar, HexValue, Text;
    var s := Text(id);
    forall p: nat | p < TEXT_LEN
      ensures if IsDash(p) then s[p] == DASH else HexValue(s[p]) != INVALID
    {
      DigitOfText(id, p);
    }
    forall i | 0 <= i < 16
      ensures DecodedByte(s, i) == id[i]
    {
      CharOff(i);
      DigitOfText(id, CHAR_OFF[i]);
      DigitOfText(id, CHAR_OFF[i] + 1);
    }
  }

  /** Decoding and encoding again lowers the case and changes nothing else. */
  lemma {:induction false} EncodeDecoded(s: seq<byte>)
    requires Canonical(s)
    ensures Text(Decoded(s)) == seq<byte>(TEXT_LEN, p requires 0 <= p < TEXT_LEN => LowerChar(s[p]))
  {
    hide HexChar, HexValue, Text, Decoded, DecodedByte;
    assert LowerChar(DASH) == DASH;
    forall p | 0 <= p < TEXT_LEN && !IsDash(p)
      ensures Text(Decoded(s))[p] == LowerChar(s[p])
    {
      DigitRoundTrip(s, p);
    }
    assert forall p :: 0 <= p < TEXT_LEN && IsDash(p) ==> Text(Decoded(s))[p] == DASH by { DashesOf(Decoded(s)); }
  }

  function Lowered(s: seq<byte>): seq<byte> {
    seq(|s|, p requires 0 <= p < |s| => LowerChar(s[p]))
  }

  ghost predicate IsTextInAnyCase(s: seq<byte>) {
    exists id: Uuid :: Text(id) == Lowered(s)
  }

  /** A string is accepted exactly when, with A to F lowered, it is the text of some identifier; and then it
      is decoded to that identifier. */
  lemma {:induction false} AcceptsTextsInAnyCase(s: seq<byte>)
    ensures Canonical(s) <==> IsTextInAnyCase(s)
    ensures Canonical(s) ==> Text(Decoded(s)) == Lowered(s)
  {
    hide Text, Decoded, Canonical;
    if Canonical(s) {
      CanonicalLength(s);
      EncodeDecoded(s);
      assert Text(Decoded(s)) == Lowered(s);
    }
    if id: Uuid :| Text(id) == Lowered(s) {
      LoweredIsCanonical(s, id);
    }
  }

  lemma {:induction false} CanonicalLength(s: seq<byte>)
    requires Canonical(s)
    ensures |s| == TEXT_LEN
  {
  }

  lemma {:induction false} LoweredIsCanonical(s: seq<byte>, id: Uuid)
    requires Text(id) == Lowered(s)
    ensures Canonical(s)
  {
    hide Text, HexValue;
    forall p: nat | p < TEXT_LEN
      ensures if IsDash(p) then s[p] == DASH else HexValue(s[p]) != INVALID
    {
      assert Text(id)[p] == LowerChar(s[p]);
      DigitOfText(id, p);
      HexAlphabet(s[p]);
      HexAlphabet(LowerChar(s[p]));
    }
  }

  lemma {:induction false} DashesOf(id: Uuid)
    ensures forall p :: 0 <= p < TEXT_LEN && IsDash(p) ==> Text(id)[p] == DASH
  {
    hide Hex;
  }

  lemma {:induction false} DigitRoundTrip(s: seq<byte>, p: nat)
    requires Canonical(s) && p < TEXT_LEN && !IsDash(p)
    ensures Text(Decoded(s))[p] == LowerChar(s[p])
  {
    hide HexChar, HexValue, LowerChar;
    HexTablesAreInverse();
    var j := DigitIndex(p);
    var id := Decoded(s);
    CharOff(j / 2);
    assert p == CHAR_OFF[j / 2] + j % 2;
    assert id[j / 2] == DecodedByte(s, j / 2);
    assert Nibble(id, j) == HexValue(s[p]);
    assert Text(id)[p] == Hex(id)[j] == HexChar(Nibble(id, j));
  }

  lemma {:induction false} SameNibble(a: Uuid, b: Uuid, i: nat)
    requires i < 32 && a[i / 2] == b[i / 2]
    ensures Hex(a)[i] == Hex(b)[i]
  {
    hide HexChar;
  }

  lemma {:induction false} HexOrder(a: Uuid, b: Uuid)
    requires LexLess(a, b)
    ensures LexLess(Hex(a), Hex(b))
  {
    hide Bits, HexChar, Nibble;
    HexTablesAreInverse();
    var k :| 0 <= k < 16 && FirstDiff(a, b, k) && a[k] < b[k];
    Nibbles(a, k);
    Nibbles(b, k);
    var j := if a[k] as int / 16 < b[k] as int / 16 then 2 * k else 2 * k + 1;
    forall i | 0 <= i < j ensures Hex(a)[i] == Hex(b)[i] {
      assert i / 2 <= k;
      if i / 2 < k {
        assert a[..k][i / 2] == b[..k][i / 2];
        SameNibble(a, b, i);
      } else {
        assert i == 2 * k && j == 2 * k + 1;
      }
    }
    assert FirstDiff(Hex(a), Hex(b), j) && Hex(a)[j] < Hex(b)[j];
  }

  lemma {:induction false} SpliceOrder(g: seq<byte>, h: seq<byte>)
    requires |g| == |h| == 32 && LexLess(g, h)
    ensures LexLess(Splice(g), Splice(h))
  {
    var j :| 0 <= j < 32 && FirstDiff(g, h, j) && g[j] < h[j];
    CharOff(j / 2);
    var p := CHAR_OFF[j / 2] + j % 2;
    forall q | 0 <= q < p ensures Splice(g)[q] == Splice(h)[q] {
      if !IsDash(q) {
        assert DigitIndex(q) < j;
        assert g[..j][DigitIndex(q)] == h[..j][DigitIndex(q)];
      }
    }
    assert FirstDiff(Splice(g), Splice(h), p) && Splice(g)[p] < Splice(h)[p];
  }

  /** ASCII order of the texts is byte order of the identifiers. */
  lemma {:induction false} TextOrder(a: Uuid, b: Uuid)
    ensures LexLess(Text(a), Text(b)) <==> LexLess(a, b)
  {
    hide Hex, Splice;
    if LexLess(a, b) {
      HexOrder(a, b);
      SpliceOrder(Hex(a), Hex(b));
    } else if LexLess(b, a) {
      HexOrder(b, a);
      SpliceOrder(Hex(b), Hex(a));
      LexAsymmetric(Text(b), Text(a));
    } else {
      LexTrichotomy(a, b);
    }
  }
}
