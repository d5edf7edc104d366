/** chronoid/uuidv7/uuidv7.c: the UUIDv7 byte layout (RFC 9562, section 5.7) and its accessors. */
module UuidLayout {
  import opened Positional
  import opened Words

  type Uuid = b: seq<byte> | |b| == 16 witness seq(16, _ => 0)
  type Tail = b: seq<byte> | |b| == 8 witness seq(8, _ => 0)

  const MAX_UNIX_MS: int := 0xFFFF_FFFF_FFFF

  datatype Err = OK | ERR_TIME_RANGE

  /** The byte composition shared by `from_parts` and the sequence's `emit`. */
  function Layout(ms: nat, counter: u16, randB: Tail): Uuid {
    var c := And(counter, 0x0FFF);
    ByteBounds(c, randB[0]);
    var b6: byte := Or(0x70, And(c / 0x100, 0x0F));
    var b7: byte := And(c, 0xFF);
    var b8: byte := Or(0x80, And(randB[0], 0x3F));
    [ms / 0x100_0000_0000 % 0x100, ms / 0x1_0000_0000 % 0x100, ms / 0x100_0000 % 0x100,
     ms / 0x1_0000 % 0x100, ms / 0x100 % 0x100, ms % 0x100, b6, b7, b8] + randB[1..]
  }

  /** The masks and ORs keep fields apart, so each byte is a plain sum of its fields. */
  lemma {:induction false} ByteBounds(c: nat, r: byte)
    ensures Or(0x70, And(c / 0x100, 0x0F)) == 0x70 + c / 0x100 % 0x10
    ensures And(c, 0xFF) == c % 0x100
    ensures Or(0x80, And(r, 0x3F)) == 0x80 + r % 0x40
  {
    Powers();
    AndMask(4, c / 0x100);
    AndMask(8, c);
    AndMask(6, r);
    OrDisjoint(4, 7, c / 0x100 % 0x10);
    OrDisjoint(6, 2, r % 0x40);
  }

  /** `chronoid_uuidv7_version`, `chronoid_uuidv7_variant`. */
  function Version(id: Uuid): nat { And(id[6] / 0x10, 0x0F) }
  function Variant(id: Uuid): nat { And(id[8] / 0x40, 0x03) }

  /** `chronoid_uuidv7_unix_ms`. */
  function UnixMs(id: Uuid): nat {
    var b0, b1, b2, b3, b4, b5 := id[0] as int, id[1] as int, id[2] as int, id[3] as int, id[4] as int, id[5] as int;
    Or(Or(Or(Or(Or(b0 * 0x100_0000_0000, b1 * 0x1_0000_0000), b2 * 0x100_0000), b3 * 0x1_0000), b4 * 0x100), b5)
  }

  /** The 12-bit counter that a UUID of this library carries in rand_a. */
  function CounterField(id: Uuid): nat { id[6] as int % 0x10 * 0x100 + id[7] as int }

  lemma {:induction false} SixBytes(ms: nat)
    requires ms <= MAX_UNIX_MS
    ensures [ms / 0x100_0000_0000 % 0x100, ms / 0x1_0000_0000 % 0x100, ms / 0x100_0000 % 0x100,
             ms / 0x1_0000 % 0x100, ms / 0x100 % 0x100, ms % 0x100] == Digits(ms, 0x100, 6)
  {
    var d5, d4, d3, d2, d1 := ms / 0x100, ms / 0x1_0000, ms / 0x100_0000, ms / 0x1_0000_0000, ms / 0x100_0000_0000;
    assert d5 / 0x100 == d4;
    assert d4 / 0x100 == d3;
    assert d3 / 0x100 == d2;
    assert d2 / 0x100 == d1;
    assert Digits(ms, 0x100, 6) == Digits(d5, 0x100, 5) + [ms % 0x100];
    assert Digits(d5, 0x100, 5) == Digits(d4, 0x100, 4) + [d5 % 0x100];
    assert Digits(d4, 0x100, 4) == Digits(d3, 0x100, 3) + [d4 % 0x100];
    assert Digits(d3, 0x100, 3) == Digits(d2, 0x100, 2) + [d3 % 0x100];
    assert Digits(d2, 0x100, 2) == Digits(d1, 0x100, 1) + [d2 % 0x100];
    assert Digits(d1, 0x100, 1) == [d1 % 0x100];
  }

  lemma {:induction false} UnixMsIsValue(id: Uuid)
    ensures UnixMs(id) == Value(id[..6], 0x100)
  {
    hide Bits;
    var b0, b1, b2, b3, b4, b5 := id[0] as int, id[1] as int, id[2] as int, id[3] as int, id[4] as int, id[5] as int;
    Powers();
    PowAdd(2, 32, 8);
    OrDisjoint(40, b0, b1 * 0x1_0000_0000);
    OrDisjoint(32, b0 * 0x100 + b1, b2 * 0x100_0000);
    OrDisjoint(24, b0 * 0x1_0000 + b1 * 0x100 + b2, b3 * 0x1_0000);
    OrDisjoint(16, b0 * 0x100_0000 + b1 * 0x1_0000 + b2 * 0x100 + b3, b4 * 0x100);
    OrDisjoint(8, b0 * 0x1_0000_0000 + b1 * 0x100_0000 + b2 * 0x1_0000 + b3 * 0x100 + b4, b5);
    ValueOfFour(b0, b1, b2, b3);
    assert id[..4] == [b0, b1, b2, b3];
    assert id[..5] == id[..4] + [b4] && id[..6] == id[..5] + [b5];
    ValueSnoc(id[..4], b4, 0x100);
    ValueSnoc(id[..5], b5, 0x100);
  }

  lemma {:induction false} LayoutBytes(ms: nat, counter: u16, randB: Tail)
    requires ms <= MAX_UNIX_MS
    ensures var id, c := Layout(ms, counter, randB), counter as int % 0x1000;
      && id[..6] == Digits(ms, 0x100, 6) && id[6] == 0x70 + c / 0x100 && id[7] == c % 0x100
      && id[8] == 0x80 + randB[0] as int % 0x40 && id[9..] == randB[1..]
  {
    hide Bits, Digits;
    Powers();
    AndMask(12, counter);
    ByteBounds(counter as int % 0x1000, randB[0]);
    SixBytes(ms);
  }

  lemma {:induction false} ReadNibbles(b6: byte, b8: byte)
    ensures And(b6 as int / 0x10, 0x0F) == b6 as int / 0x10 && And(b8 as int / 0x40, 0x03) == b8 as int / 0x40
  {
    hide Bits;
    Powers();
    assert Pow(2, 2) == 4;
    AndMask(4, b6 as int / 0x10);
    AndMask(2, b8 as int / 0x40);
  }

  /** Every field reads back, and version and variant are forced. */
  lemma {:induction false} LayoutFields(ms: nat, counter: u16, randB: Tail)
    requires ms <= MAX_UNIX_MS
    ensures var id := Layout(ms, counter, randB);
      && UnixMs(id) == ms && Version(id) == 7 && Variant(id) == 2
      && CounterField(id) == counter as int % 0x1000
      && id[8] == 0x80 + randB[0] as int % 0x40 && id[9..] == randB[1..]
  {
    hide Layout, Digits, Bits, UnixMs;
    var id := Layout(ms, counter, randB);
    LayoutBytes(ms, counter, randB);
    ReadNibbles(id[6], id[8]);
    UnixMsIsValue(id);
    assert Pow(0x100, 6) == 0x1_0000_0000_0000;
    ValueOfDigits(ms, 0x100, 6);
  }

  /** The timestamp field is six bytes wide. */
  lemma {:induction false} TimestampWidth()
    ensures MAX_UNIX_MS + 1 == Pow(2, 48) == Pow(0x100, 6)
  {
    Powers();
    PowAdd(2, 24, 24);
    PowAdd(0x100, 3, 3);
  }

  /** On any 16 bytes, version and variant are the top four and the top two bits of bytes 6 and 8, and the
      counter is what follows the version in bytes 6 and 7. */
  lemma {:induction false} FieldsOfAnyUuid(id: Uuid)
    ensures Version(id) * 0x10 <= id[6] < Version(id) * 0x10 + 0x10
    ensures Variant(id) * 0x40 <= id[8] < Variant(id) * 0x40 + 0x40
    ensures Version(id) * 0x1000 + CounterField(id) == id[6] as int * 0x100 + id[7] as int
  {
    hide Bits;
    ReadNibbles(id[6], id[8]);
  }

  // ---- order ----

  /** Timestamp, version nibble and counter as one number. */
  function Key(id: Uuid): int { Value(id[..8], 0x100) }

  lemma {:induction false} KeyOfLayout(ms: nat, counter: u16, randB: Tail)
    requires ms <= MAX_UNIX_MS && counter <= 0x0FFF
    ensures Key(Layout(ms, counter, randB)) == ms * 0x1_0000 + 0x7000 + counter
  {
    hide Layout, Digits, UnixMs;
    var id := Layout(ms, counter, randB);
    LayoutBytes(ms, counter, randB);
    LayoutFields(ms, counter, randB);
    UnixMsIsValue(id);
    assert id[..7] == id[..6] + [id[6]] && id[..8] == id[..7] + [id[7]];
    ValueSnoc(id[..6], id[6], 0x100);
    ValueSnoc(id[..7], id[7], 0x100);
  }

  lemma {:induction false} KeyOrder(a: Uuid, b: Uuid)
    requires Key(a) < Key(b)
    ensures LexLess(a, b)
  {
    LexIffValue(a[..8], b[..8], 0x100);
    var k :| 0 <= k < 8 && FirstDiff(a[..8], b[..8], k) && a[..8][k] < b[..8][k];
    assert a[..8][..k] == a[..k] && b[..8][..k] == b[..k];
    assert FirstDiff(a, b, k);
  }

  /** A later millisecond, or the same millisecond and a larger counter, is a larger UUID. */
  lemma {:induction false} LayoutOrder(ms: nat, c: u16, r: Tail, ms': nat, c': u16, r': Tail)
    requires ms <= MAX_UNIX_MS && ms' <= MAX_UNIX_MS && c <= 0x0FFF && c' <= 0x0FFF
    requires ms < ms' || (ms == ms' && c < c')
    ensures LexLess(Layout(ms, c, r), Layout(ms', c', r'))
  {
    hide Layout, Key;
    KeyOfLayout(ms, c, r);
    KeyOfLayout(ms', c', r');
    KeyOrder(Layout(ms, c, r), Layout(ms', c', r'));
  }

  /** The six leading bytes are the time, version and variant those of UUIDv7, and all 74 random bits are in place. */
  ghost predicate Carries(id: Uuid, ms: int, randA: u16, randB: Tail) {
    && Value(id[..6], 0x100) == ms && Version(id) == 7 && Variant(id) == 2
    && CounterField(id) == randA as int % 0x1000
    && id[8] as int % 0x40 == randB[0] as int % 0x40 && id[9..] == randB[1..]
  }

  lemma {:induction false} LayoutCarries(ms: nat, randA: u16, randB: Tail)
    requires ms <= MAX_UNIX_MS
    ensures Carries(Layout(ms, randA, randB), ms, randA, randB)
  {
    hide Layout, UnixMs, Version, Variant, CounterField, Value;
    LayoutFields(ms, randA, randB);
    UnixMsIsValue(Layout(ms, randA, randB));
  }

  /** `chronoid_uuidv7_from_parts`. */
  method FromParts(out: array<byte>, unixMs: int, randA: u16, randB: Tail) returns (e: Err)
    requires out.Length == 16
    modifies out
    ensures e == OK <==> 0 <= unixMs < Pow(0x100, 6)
    ensures out[..] == if e == OK then Layout(unixMs, randA, randB) else old(out[..])
    ensures e == OK ==> Carries(out[..], unixMs, randA, randB)
  {
    TimestampWidth();
    if unixMs < 0 || unixMs > MAX_UNIX_MS {
      return ERR_TIME_RANGE;
    }
    hide Layout, Carries;
    var tmp := Layout(unixMs, randA, randB);
    LayoutCarries(unixMs, randA, randB);
    forall i | 0 <= i < 16 {
      out[i] := tmp[i];
    }
    assert out[..] == tmp;
    return OK;
  }
}
