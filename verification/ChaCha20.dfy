/** chronoid/chacha20.c: the block function of RFC 8439, sections 2.1 and 2.3, computed in
    place, and its 64-bit block counter. */
module ChaCha20 {
  import opened Positional
  import opened Words

  type State = s: seq<u32> | |s| == 16 witness seq(16, _ => 0)

  // ---- word operations ----

  function Add32(x: u32, y: u32): u32 { (x as int + y as int) % 0x1_0000_0000 }
  function Sub32(x: u32, y: u32): u32 { (x as int - y as int) % 0x1_0000_0000 }
  function Xor32(x: u32, y: u32): u32 { XorWord(x, y); Xor(x, y) }

  /** `ROTL32`. */
  function Rotl32(x: u32, n: nat): u32
    requires 0 < n < 32
  {
    RotlWord(x, n);
    Or((x as int * Pow(2, n)) % 0x1_0000_0000, x as int / Pow(2, 32 - n))
  }

  lemma {:induction false} XorWord(x: u32, y: u32)
    ensures Xor(x, y) < 0x1_0000_0000
  {
    Powers();
    BitsBound(XOR, 32, x, y);
  }

  lemma {:induction false} HighLow(x: u32, n: nat) returns (hi: int, lo: int)
    requires 0 < n < 32
    ensures Pow(2, n) * Pow(2, 32 - n) == 0x1_0000_0000
    ensures 0 <= hi < Pow(2, n) && 0 <= lo < Pow(2, 32 - n) && x == hi * Pow(2, 32 - n) + lo
  {
    ComplementaryPowers(n);
    hi, lo := Quotient(x, Pow(2, 32 - n), Pow(2, n));
  }

  lemma {:induction false} Quotient(x: int, d: int, p: int) returns (hi: int, lo: int)
    requires d > 0 && p > 0 && 0 <= x < d * p
    ensures 0 <= hi < p && 0 <= lo < d && x == hi * d + lo
  {
    hi, lo := x / d, x % d;
    DivBelow(x, d, p);
    ModBound(x, d);
  }

  lemma {:induction false} ComplementaryPowers(n: nat)
    requires 0 < n < 32
    ensures Pow(2, n) * Pow(2, 32 - n) == 0x1_0000_0000 == Pow(2, 32 - n) * Pow(2, n)
  {
    PowAdd(2, n, 32 - n);
    Powers();
  }

  /** A rotation swaps the high `n` bits with the rest. */
  lemma {:induction false} RotlSwaps(x: int, n: nat, hi: int, lo: int)
    requires 0 < n < 32 && Pow(2, n) * Pow(2, 32 - n) == 0x1_0000_0000
    requires 0 <= hi < Pow(2, n) && 0 <= lo < Pow(2, 32 - n) && x == hi * Pow(2, 32 - n) + lo
    ensures x / Pow(2, 32 - n) == hi && (x * Pow(2, n)) % 0x1_0000_0000 == lo * Pow(2, n) >= 0
    ensures Or(lo * Pow(2, n), hi) == lo * Pow(2, n) + hi < 0x1_0000_0000
  {
    DivModUnique(x, Pow(2, 32 - n), hi, lo);
    Recombine(hi, lo, Pow(2, n), Pow(2, 32 - n));
    OrDisjoint(n, lo, hi);
  }

  lemma {:induction false} Recombine(hi: int, lo: int, p: int, p': int)
    requires p > 0 && p' > 0 && 0 <= hi < p && 0 <= lo < p' && p * p' == 0x1_0000_0000
    ensures ((hi * p' + lo) * p) % 0x1_0000_0000 == lo * p
    ensures 0 <= lo * p && lo * p + hi < 0x1_0000_0000
  {
    MulMono(lo, p' - 1, p);
    MulMono(0, lo, p);
    assert (p' - 1) * p == p * p' - p;
    assert (hi * p' + lo) * p == hi * 0x1_0000_0000 + lo * p by {
      assert hi * p' * p == hi * (p * p');
    }
  }

  lemma {:induction false} RotlWord(x: u32, n: nat)
    requires 0 < n < 32
    ensures 0 <= (x as int * Pow(2, n)) % 0x1_0000_0000 && 0 <= x as int / Pow(2, 32 - n)
    ensures Or((x as int * Pow(2, n)) % 0x1_0000_0000, x as int / Pow(2, 32 - n)) < 0x1_0000_0000
  {
    var hi, lo := HighLow(x, n);
    RotlSwaps(x, n, hi, lo);
  }

  lemma {:induction false} RotateBack(x: u32, n: nat)
    requires 0 < n < 32
    ensures Rotl32(Rotl32(x, n), 32 - n) == x
  {
    var hi, lo := HighLow(x, n);
    RotlSwaps(x, n, hi, lo);
    assert Rotl32(x, n) == lo * Pow(2, n) + hi;
    assert Pow(2, 32 - n) * Pow(2, n) == Pow(2, n) * Pow(2, 32 - n);
    RotlSwaps(lo * Pow(2, n) + hi, 32 - n, lo, hi);
  }

  lemma {:induction false} AddBack(x: u32, y: u32)
    ensures Sub32(Add32(x, y), y) == x && Add32(Sub32(x, y), y) == x
  {
  }

  // ---- quarter round and rounds ----

  /** `a += b; d ^= a; d = ROTL32 (d, r)`, one of the four lines of a quarter round. */
  function Mix(x: State, a: nat, b: nat, d: nat, r: nat): State
    requires a < 16 && b < 16 && d < 16 && 0 < r < 32
  {
    var y := x[a := Add32(x[a], x[b])];
    y[d := Rotl32(Xor32(y[d], y[a]), r)]
  }

  function Unmix(x: State, a: nat, b: nat, d: nat, r: nat): State
    requires a < 16 && b < 16 && d < 16 && 0 < r < 32
  {
    var y := x[d := Xor32(Rotl32(x[d], 32 - r), x[a])];
    y[a := Sub32(y[a], y[b])]
  }

  /** The four word indices of a quarter round. */
  datatype Quad = Quad(a: nat, b: nat, c: nat, d: nat) {
    predicate Valid() {
      a < 16 && b < 16 && c < 16 && d < 16 && a != b && a != c && a != d && b != c && b != d && c != d
    }
  }

  /** The quarter round on words a, b, c, d of the state (RFC 8439, section 2.1). */
  function QuarterRound(x: State, q: Quad): State
    requires q.Valid()
  {
    Mix(Mix(Mix(Mix(x, q.a, q.b, q.d, 16), q.c, q.d, q.b, 12), q.a, q.b, q.d, 8), q.c, q.d, q.b, 7)
  }

  function InverseQuarterRound(x: State, q: Quad): State
    requires q.Valid()
  {
    Unmix(Unmix(Unmix(Unmix(x, q.c, q.d, q.b, 7), q.a, q.b, q.d, 8), q.c, q.d, q.b, 12), q.a, q.b, q.d, 16)
  }

  const COLUMNS: seq<Quad> := [Quad(0, 4, 8, 12), Quad(1, 5, 9, 13), Quad(2, 6, 10, 14), Quad(3, 7, 11, 15)]
  const DIAGONALS: seq<Quad> := [Quad(0, 5, 10, 15), Quad(1, 6, 11, 12), Quad(2, 7, 8, 13), Quad(3, 4, 9, 14)]

  /** The eight quarter rounds of one loop iteration, in order. */
  const SCHEDULE: seq<Quad> := COLUMNS + DIAGONALS

  ghost predicate Quads(qs: seq<Quad>) {
    forall i :: 0 <= i < |qs| ==> qs[i].Valid()
  }

  function Apply(x: State, qs: seq<Quad>): State
    requires Quads(qs)
  {
    if qs == [] then x else QuarterRound(Apply(x, qs[..|qs| - 1]), qs[|qs| - 1])
  }

  function Unapply(x: State, qs: seq<Quad>): State
    requires Quads(qs)
    decreases |qs|, x
  {
    if qs == [] then x else Unapply(InverseQuarterRound(x, qs[|qs| - 1]), qs[..|qs| - 1])
  }

  function Repeat(x: State, qs: seq<Quad>, n: nat): State
    requires Quads(qs)
    decreases n, x
  {
    if n == 0 then x else Apply(Repeat(x, qs, n - 1), qs)
  }

  function Unrepeat(x: State, qs: seq<Quad>, n: nat): State
    requires Quads(qs)
    decreases n, x
  {
    if n == 0 then x else Unrepeat(Unapply(x, qs), qs, n - 1)
  }

  function Rounds(x: State, n: nat): State { Repeat(x, SCHEDULE, n) }
  function InverseRounds(x: State, n: nat): State { Unrepeat(x, SCHEDULE, n) }

  lemma {:induction false} UnmixMix(x: State, a: nat, b: nat, d: nat, r: nat)
    requires a < 16 && b < 16 && d < 16 && 0 < r < 32 && a != b && a != d && b != d
    ensures Unmix(Mix(x, a, b, d, r), a, b, d, r) == x
  {
    var s := Add32(x[a], x[b]);
    AddBack(x[a], x[b]);
    RotateBack(Xor32(x[d], s), r);
    XorSelfInverse(x[d], s);
    assert Unmix(Mix(x, a, b, d, r), a, b, d, r) == x[d := x[d]][a := x[a]];
  }

  lemma {:induction false} MixUnmix(x: State, a: nat, b: nat, d: nat, r: nat)
    requires a < 16 && b < 16 && d < 16 && 0 < r < 32 && a != b && a != d && b != d
    ensures Mix(Unmix(x, a, b, d, r), a, b, d, r) == x
  {
    var u := Rotl32(x[d], 32 - r);
    AddBack(x[a], x[b]);
    RotateBack(x[d], 32 - r);
    XorSelfInverse(u, x[a]);
    assert Mix(Unmix(x, a, b, d, r), a, b, d, r) == x[d := x[d]][a := x[a]];
  }

  /** The inverse quarter round undoes the quarter round, and the other way about. */
  lemma {:induction false} QuarterRoundInverse(x: State, q: Quad)
    requires q.Valid()
    ensures InverseQuarterRound(QuarterRound(x, q), q) == x && QuarterRound(InverseQuarterRound(x, q), q) == x
  {
    hide Mix, Unmix;
    var y1 := Unmix(x, q.c, q.d, q.b, 7);
    var y2 := Unmix(y1, q.a, q.b, q.d, 8);
    var y3 := Unmix(y2, q.c, q.d, q.b, 12);
    MixUnmix(x, q.c, q.d, q.b, 7);
    MixUnmix(y1, q.a, q.b, q.d, 8);
    MixUnmix(y2, q.c, q.d, q.b, 12);
    MixUnmix(y3, q.a, q.b, q.d, 16);
    var x1 := Mix(x, q.a, q.b, q.d, 16);
    var x2 := Mix(x1, q.c, q.d, q.b, 12);
    var x3 := Mix(x2, q.a, q.b, q.d, 8);
    UnmixMix(x, q.a, q.b, q.d, 16);
    UnmixMix(x1, q.c, q.d, q.b, 12);
    UnmixMix(x2, q.a, q.b, q.d, 8);
    UnmixMix(x3, q.c, q.d, q.b, 7);
  }

  lemma {:induction false} UnapplyApply(x: State, qs: seq<Quad>)
    requires Quads(qs)
    ensures Unapply(Apply(x, qs), qs) == x
    decreases |qs|
  {
    hide QuarterRound, InverseQuarterRound;
    if qs != [] {
      QuarterRoundInverse(Apply(x, qs[..|qs| - 1]), qs[|qs| - 1]);
      UnapplyApply(x, qs[..|qs| - 1]);
    }
  }

  lemma {:induction false} ApplyUnapply(x: State, qs: seq<Quad>)
    requires Quads(qs)
    ensures Apply(Unapply(x, qs), qs) == x
    decreases |qs|
  {
    hide QuarterRound, InverseQuarterRound;
    if qs != [] {
      var last := qs[|qs| - 1];
      ApplyUnapply(InverseQuarterRound(x, last), qs[..|qs| - 1]);
      QuarterRoundInverse(x, last);
    }
  }

  lemma {:induction false} UnrepeatRepeat(x: State, qs: seq<Quad>, n: nat)
    requires Quads(qs)
    ensures Unrepeat(Repeat(x, qs, n), qs, n) == x
    decreases n
  {
    if n > 0 {
      UnapplyApply(Repeat(x, qs, n - 1), qs);
      UnrepeatRepeat(x, qs, n - 1);
    }
  }

  lemma {:induction false} RepeatUnrepeat(x: State, qs: seq<Quad>, n: nat)
    requires Quads(qs)
    ensures Repeat(Unrepeat(x, qs, n), qs, n) == x
    decreases n
  {
    hide Apply, Unapply;
    if n > 0 {
      RepeatUnrepeat(Unapply(x, qs), qs, n - 1);
      ApplyUnapply(x, qs);
    }
  }

  /** The rounds are a permutation of the states, with an explicit inverse on both sides. */
  lemma {:induction false} RoundsInverse(x: State, n: nat)
    ensures InverseRounds(Rounds(x, n), n) == x && Rounds(InverseRounds(x, n), n) == x
  {
    hide Repeat, Unrepeat;
    UnrepeatRepeat(x, SCHEDULE, n);
    RepeatUnrepeat(x, SCHEDULE, n);
  }

  // ---- the rounds as the standard draws them ----

  datatype Four = Four(a: u32, b: u32, c: u32, d: u32)

  /** The quarter round on four words (RFC 8439, section 2.1). */
  function QuarterWords(v: Four): Four {
    var a1 := Add32(v.a, v.b);
    var d1 := Rotl32(Xor32(v.d, a1), 16);
    var c1 := Add32(v.c, d1);
    var b1 := Rotl32(Xor32(v.b, c1), 12);
    var a2 := Add32(a1, b1);
    var d2 := Rotl32(Xor32(d1, a2), 8);
    var c2 := Add32(c1, d2);
    var b2 := Rotl32(Xor32(b1, c2), 7);
    Four(a2, b2, c2, d2)
  }

  /** Column `c` of the state seen as a 4x4 matrix in row order. */
  function Column(x: State, c: nat): Four
    requires c < 4
  {
    Four(x[c], x[4 + c], x[8 + c], x[12 + c])
  }

  function Entry(v: Four, r: nat): u32
    requires r < 4
  {
    if r == 0 then v.a else if r == 1 then v.b else if r == 2 then v.c else v.d
  }

  /** Each column goes through the quarter round. */
  function ColumnRound(x: State): State {
    seq(16, i requires 0 <= i < 16 => Entry(QuarterWords(Column(x, i % 4)), i / 4))
  }

  /** Row `r` moves `r` places to the left, so the diagonals become columns. */
  function RotateRows(x: State): State {
    seq(16, i requires 0 <= i < 16 => x[i / 4 * 4 + (i % 4 + i / 4) % 4])
  }

  function RotateRowsBack(x: State): State {
    seq(16, i requires 0 <= i < 16 => x[i / 4 * 4 + (i % 4 + 4 - i / 4) % 4])
  }

  /** A column round, then the same on the diagonals (RFC 8439, section 2.3). */
  function DoubleRound(x: State): State {
    RotateRowsBack(ColumnRound(RotateRows(ColumnRound(x))))
  }

  function DoubleRounds(x: State, n: nat): State
    decreases n, x
  {
    if n == 0 then x else DoubleRound(DoubleRounds(x, n - 1))
  }

  function QuadOf(x: State, q: Quad): Four
    requires q.Valid()
  {
    Four(x[q.a], x[q.b], x[q.c], x[q.d])
  }

  function Put(x: State, q: Quad, v: Four): State
    requires q.Valid()
  {
    x[q.a := v.a][q.b := v.b][q.c := v.c][q.d := v.d]
  }

  /** The quarter round of a quad replaces its four words and keeps the others. */
  lemma {:induction false} QuarterRoundIsWords(x: State, q: Quad)
    requires q.Valid()
    ensures QuarterRound(x, q) == Put(x, q, QuarterWords(QuadOf(x, q)))
  {
    hide Add32, Xor32, Rotl32;
    var x1 := Mix(x, q.a, q.b, q.d, 16);
    var x2 := Mix(x1, q.c, q.d, q.b, 12);
    var x3 := Mix(x2, q.a, q.b, q.d, 8);
    var x4 := Mix(x3, q.c, q.d, q.b, 7);
    var w := QuarterWords(QuadOf(x, q));
    assert x4[q.a] == w.a && x4[q.b] == w.b && x4[q.c] == w.c && x4[q.d] == w.d;
  }

  lemma {:induction false} FourQuarters(x: State, q0: Quad, q1: Quad, q2: Quad, q3: Quad)
    requires q0.Valid() && q1.Valid() && q2.Valid() && q3.Valid()
    ensures Apply(x, [q0, q1, q2, q3]) == QuarterRound(QuarterRound(QuarterRound(QuarterRound(x, q0), q1), q2), q3)
  {
    hide QuarterRound;
    assert [q0, q1, q2, q3][..3] == [q0, q1, q2] && [q0, q1, q2][..2] == [q0, q1] && [q0, q1][..1] == [q0];
    assert Apply(x, [q0][..0]) == x;
    assert Apply(x, [q0]) == QuarterRound(x, q0);
    assert Apply(x, [q0, q1]) == QuarterRound(Apply(x, [q0]), q1);
    assert Apply(x, [q0, q1, q2]) == QuarterRound(Apply(x, [q0, q1]), q2);
  }

  lemma {:induction false} ApplyConcat(x: State, a: seq<Quad>, b: seq<Quad>)
    requires Quads(a) && Quads(b)
    ensures Quads(a + b) && Apply(x, a + b) == Apply(Apply(x, a), b)
    decreases |b|
  {
    hide QuarterRound;
    if b == [] {
      assert a + b == a;
    } else {
      ApplyConcat(x, a, b[..|b| - 1]);
      assert (a + b)[..|a + b| - 1] == a + b[..|b| - 1];
    }
  }

  predicate Apart(q: Quad, p: Quad) {
    && q.a != p.a && q.a != p.b && q.a != p.c && q.a != p.d && q.b != p.a && q.b != p.b && q.b != p.c && q.b != p.d
    && q.c != p.a && q.c != p.b && q.c != p.c && q.c != p.d && q.d != p.a && q.d != p.b && q.d != p.c && q.d != p.d
  }

  lemma {:induction false} OneQuarter(x: State, q: Quad, p: Quad)
    requires q.Valid() && p.Valid()
    ensures QuadOf(QuarterRound(x, q), q) == QuarterWords(QuadOf(x, q))
    ensures Apart(q, p) ==> QuadOf(QuarterRound(x, q), p) == QuadOf(x, p)
  {
    hide QuarterRound, QuarterWords;
    QuarterRoundIsWords(x, q);
  }

  /** Quarter rounds on words of their own do not disturb each other. */
  lemma {:induction false} FourApart(x: State, q0: Quad, q1: Quad, q2: Quad, q3: Quad)
    requires q0.Valid() && q1.Valid() && q2.Valid() && q3.Valid()
    requires Apart(q0, q1) && Apart(q0, q2) && Apart(q0, q3) && Apart(q1, q2) && Apart(q1, q3) && Apart(q2, q3)
    ensures var y := Apply(x, [q0, q1, q2, q3]);
      && QuadOf(y, q0) == QuarterWords(QuadOf(x, q0)) && QuadOf(y, q1) == QuarterWords(QuadOf(x, q1))
      && QuadOf(y, q2) == QuarterWords(QuadOf(x, q2)) && QuadOf(y, q3) == QuarterWords(QuadOf(x, q3))
  {
    hide QuarterRound, QuarterWords, Apply, QuadOf;
    FourQuarters(x, q0, q1, q2, q3);
    var x1 := QuarterRound(x, q0);
    var x2 := QuarterRound(x1, q1);
    var x3 := QuarterRound(x2, q2);
    assert Apart(q1, q0) && Apart(q2, q0) && Apart(q3, q0) && Apart(q2, q1) && Apart(q3, q1) && Apart(q3, q2);
    OneQuarter(x, q0, q1);
    OneQuarter(x, q0, q2);
    OneQuarter(x, q0, q3);
    OneQuarter(x1, q1, q0);
    OneQuarter(x1, q1, q2);
    OneQuarter(x1, q1, q3);
    OneQuarter(x2, q2, q0);
    OneQuarter(x2, q2, q1);
    OneQuarter(x2, q2, q3);
    OneQuarter(x3, q3, q0);
    OneQuarter(x3, q3, q1);
    OneQuarter(x3, q3, q2);
  }

  lemma {:induction false} ColumnsAreColumnRound(x: State)
    ensures Apply(x, COLUMNS) == ColumnRound(x)
  {
    hide QuarterWords, Apply;
    FourApart(x, Quad(0, 4, 8, 12), Quad(1, 5, 9, 13), Quad(2, 6, 10, 14), Quad(3, 7, 11, 15));
    var y := Apply(x, COLUMNS);
    forall i | 0 <= i < 16
      ensures y[i] == Entry(QuarterWords(Column(x, i % 4)), i / 4)
    {
      assert y[i] == Entry(Column(y, i % 4), i / 4);
    }
  }

  lemma {:induction false} RotatedColumns(x: State)
    ensures var y := RotateRows(x);
      && Column(y, 0) == QuadOf(x, Quad(0, 5, 10, 15)) && Column(y, 1) == QuadOf(x, Quad(1, 6, 11, 12))
      && Column(y, 2) == QuadOf(x, Quad(2, 7, 8, 13)) && Column(y, 3) == QuadOf(x, Quad(3, 4, 9, 14))
  {
  }

  lemma {:induction false} RowsRotateBack(x: State)
    ensures RotateRowsBack(RotateRows(x)) == x
  {
  }

  lemma {:induction false} DiagonalsAreRotatedRound(x: State)
    ensures Apply(x, DIAGONALS) == RotateRowsBack(ColumnRound(RotateRows(x)))
  {
    hide QuarterWords, Apply, RotateRows, RotateRowsBack;
    FourApart(x, Quad(0, 5, 10, 15), Quad(1, 6, 11, 12), Quad(2, 7, 8, 13), Quad(3, 4, 9, 14));
    var y := Apply(x, DIAGONALS);
    RotatedColumns(x);
    RotatedColumns(y);
    var z := RotateRows(y);
    forall i | 0 <= i < 16
      ensures z[i] == Entry(QuarterWords(Column(RotateRows(x), i % 4)), i / 4)
    {
      assert z[i] == Entry(Column(z, i % 4), i / 4);
    }
    assert z == ColumnRound(RotateRows(x));
    RowsRotateBack(y);
  }

  /** One pass over the schedule is the standard's column round followed by its diagonal round. */
  lemma {:induction false} ScheduleIsDoubleRound(x: State)
    ensures Apply(x, SCHEDULE) == DoubleRound(x)
  {
    hide Apply, ColumnRound, RotateRows, RotateRowsBack;
    ApplyConcat(x, COLUMNS, DIAGONALS);
    ColumnsAreColumnRound(x);
    DiagonalsAreRotatedRound(ColumnRound(x));
  }

  lemma {:induction false} RoundsAreDoubleRounds(x: State, n: nat)
    ensures Rounds(x, n) == DoubleRounds(x, n)
  {
    hide Apply, DoubleRound;
    if n > 0 {
      RoundsAreDoubleRounds(x, n - 1);
      ScheduleIsDoubleRound(Rounds(x, n - 1));
    }
  }

  // ---- block and counter ----

  /** Byte `k` of a word, little-endian. */
  function LittleEndianByte(w: u32, k: nat): byte
    requires k < 4
  {
    if k == 0 then w % 0x100 else if k == 1 then w / 0x100 % 0x100
    else if k == 2 then w / 0x1_0000 % 0x100 else w / 0x100_0000 % 0x100
  }

  function Serialize(x: State): (s: seq<byte>)
    ensures |s| == 64
  {
    seq(64, i requires 0 <= i < 64 => LittleEndianByte(x[i / 4], i % 4))
  }

  function AddStates(x: State, y: State): State {
    seq(16, i requires 0 <= i < 16 => Add32(x[i], y[i]))
  }

  /** The keystream block of a state (RFC 8439, section 2.3). */
  function BlockBytes(s: State): (b: seq<byte>)
    ensures |b| == 64
  {
    Serialize(AddStates(Rounds(s, 10), s))
  }

  /** Each little-endian word of a block is that word of the state after ten double rounds, plus the
      word of the state itself, modulo 2^32 (RFC 8439, section 2.3). */
  ghost predicate IsStandardBlock(s: State, b: seq<byte>) {
    && |b| == 64
    && forall w :: 0 <= w < 16 ==>
         b[4 * w] as int + b[4 * w + 1] as int * 0x100
         + b[4 * w + 2] as int * 0x1_0000 + b[4 * w + 3] as int * 0x100_0000
         == (DoubleRounds(s, 10)[w] as int + s[w] as int) % 0x1_0000_0000
  }

  lemma {:induction false} BlockIsStandard(s: State)
    ensures IsStandardBlock(s, BlockBytes(s))
  {
    hide BlockBytes, DoubleRounds;
    forall w | 0 <= w < 16
      ensures var b := BlockBytes(s);
        b[4 * w] as int + b[4 * w + 1] as int * 0x100
        + b[4 * w + 2] as int * 0x1_0000 + b[4 * w + 3] as int * 0x100_0000
        == (DoubleRounds(s, 10)[w] as int + s[w] as int) % 0x1_0000_0000
    {
      BlockWord(s, w);
    }
  }

  lemma {:induction false} BlockWord(s: State, w: nat)
    requires w < 16
    ensures var b := BlockBytes(s);
      b[4 * w] as int + b[4 * w + 1] as int * 0x100 + b[4 * w + 2] as int * 0x1_0000 + b[4 * w + 3] as int * 0x100_0000
      == (DoubleRounds(s, 10)[w] as int + s[w] as int) % 0x1_0000_0000
  {
    hide Rounds, DoubleRounds, LittleEndianByte;
    RoundsAreDoubleRounds(s, 10);
    BytesOfWord(AddStates(Rounds(s, 10), s)[w]);
  }

  lemma {:induction false} BytesOfWord(v: u32)
    ensures LittleEndianByte(v, 0) as int + LittleEndianByte(v, 1) as int * 0x100
            + LittleEndianByte(v, 2) as int * 0x1_0000 + LittleEndianByte(v, 3) as int * 0x100_0000 == v as int
  {
    var v1, v2, v3 := v / 0x100, v / 0x1_0000, v / 0x100_0000;
    assert v1 / 0x100 == v2 && v2 / 0x100 == v3 && v3 < 0x100;
    assert v as int == v1 as int * 0x100 + v % 0x100;
    assert v1 as int == v2 as int * 0x100 + v1 % 0x100;
    assert v2 as int == v3 as int * 0x100 + v2 % 0x100;
  }

  /** The state `k` blocks later: words 12 and 13 together count modulo 2^64. */
  function Advance(s: State, k: nat): State {
    var pair := (s[13] as int * 0x1_0000_0000 + s[12] as int + k) % 0x1_0000_0000_0000_0000;
    s[12 := pair % 0x1_0000_0000][13 := pair / 0x1_0000_0000]
  }

  /** `state[12]++; if (state[12] == 0) state[13]++`. */
  function Bump(s: State): State {
    var t := s[12 := Add32(s[12], 1)];
    if t[12] == 0 then t[13 := Add32(t[13], 1)] else t
  }

  /** The 64-bit pair of words 13 and 12 goes up by one and every other word stays. */
  ghost predicate CountsOne(s: State, t: State) {
    && t[13] as int * 0x1_0000_0000 + t[12] as int
       == (s[13] as int * 0x1_0000_0000 + s[12] as int + 1) % 0x1_0000_0000_0000_0000
    && forall w :: 0 <= w < 16 && w != 12 && w != 13 ==> t[w] == s[w]
  }

  lemma {:induction false} BumpCounts(s: State)
    ensures CountsOne(s, Bump(s))
  {
    AdvanceZero(s);
    BumpAdvances(s, 0);
    PairOf((s[13] as int * 0x1_0000_0000 + s[12] as int + 1) % 0x1_0000_0000_0000_0000);
  }

  lemma {:induction false} PairOf(p: nat)
    ensures p / 0x1_0000_0000 * 0x1_0000_0000 + p % 0x1_0000_0000 == p
  {
  }

  lemma {:induction false} AdvanceZero(s: State)
    ensures Advance(s, 0) == s
  {
  }

  /** The increment with carry is one step of the 64-bit counter, from any state. */
  lemma {:induction false} BumpAdvances(s: State, k: nat)
    ensures Bump(Advance(s, k)) == Advance(s, k + 1)
  {
    var p := s[13] as int * 0x1_0000_0000 + s[12] as int + k;
    var x, y := p % 0x1_0000_0000_0000_0000, (p + 1) % 0x1_0000_0000_0000_0000;
    CarryStep(x, y);
    assert y == if x == 0xFFFF_FFFF_FFFF_FFFF then 0 else x + 1;
    var t := Bump(Advance(s, k));
    assert forall i :: 0 <= i < 16 ==> t[i] == Advance(s, k + 1)[i];
  }

  function Bumps(s: State, k: nat): State
    decreases k, s
  {
    if k == 0 then s else Bump(Bumps(s, k - 1))
  }

  /** k block calls add k modulo 2^64 to the pair (word 13, word 12) and touch nothing else. */
  lemma {:induction false} BumpsAreAdvance(s: State, k: nat)
    ensures Bumps(s, k) == Advance(s, k)
  {
    hide Bump, Advance;
    if k == 0 {
      AdvanceZero(s);
    } else {
      BumpsAreAdvance(s, k - 1);
      BumpAdvances(s, k - 1);
    }
  }

  lemma {:induction false} CarryStep(x: int, y: int)
    requires 0 <= x < 0x1_0000_0000_0000_0000
    requires y == if x == 0xFFFF_FFFF_FFFF_FFFF then 0 else x + 1
    ensures var lo, hi := x % 0x1_0000_0000, x / 0x1_0000_0000;
      && y % 0x1_0000_0000 == (lo + 1) % 0x1_0000_0000
      && y / 0x1_0000_0000 == if lo == 0xFFFF_FFFF then (hi + 1) % 0x1_0000_0000 else hi
  {
  }

  /** No block input repeats within 2^64 blocks. */
  lemma {:induction false} AdvanceDistinct(s: State, i: nat, j: nat)
    requires i < j < i + 0x1_0000_0000_0000_0000
    ensures Advance(s, i) != Advance(s, j)
    ensures forall w :: 0 <= w < 16 && w != 12 && w != 13 ==> Advance(s, i)[w] == Advance(s, j)[w] == s[w]
  {
    var p := s[13] as int * 0x1_0000_0000 + s[12] as int;
    var x, y := (p + i) % 0x1_0000_0000_0000_0000, (p + j) % 0x1_0000_0000_0000_0000;
    assert x != y;
    assert x == x / 0x1_0000_0000 * 0x1_0000_0000 + x % 0x1_0000_0000;
    assert y == y / 0x1_0000_0000 * 0x1_0000_0000 + y % 0x1_0000_0000;
    assert Advance(s, i)[12] == x % 0x1_0000_0000 && Advance(s, i)[13] == x / 0x1_0000_0000;
    assert Advance(s, j)[12] == y % 0x1_0000_0000 && Advance(s, j)[13] == y / 0x1_0000_0000;
  }

  /** The `QR` macro, on an array. */
  method Qr(x: array<u32>, q: Quad)
    requires x.Length == 16 && q.Valid()
    modifies x
    ensures x[..] == QuarterRound(old(x[..]), q)
  {
    MixInPlace(x, q.a, q.b, q.d, 16);
    MixInPlace(x, q.c, q.d, q.b, 12);
    MixInPlace(x, q.a, q.b, q.d, 8);
    MixInPlace(x, q.c, q.d, q.b, 7);
  }

  method MixInPlace(x: array<u32>, a: nat, b: nat, d: nat, r: nat)
    requires x.Length == 16 && a < 16 && b < 16 && d < 16 && 0 < r < 32
    modifies x
    ensures x[..] == Mix(old(x[..]), a, b, d, r)
  {
    x[a] := Add32(x[a], x[b]);
    x[d] := Xor32(x[d], x[a]);
    x[d] := Rotl32(x[d], r);
  }

  /** The quarter rounds of one loop iteration, in order. */
  method ApplyInPlace(x: array<u32>, qs: seq<Quad>)
    requires x.Length == 16 && Quads(qs)
    modifies x
    ensures x[..] == Apply(old(x[..]), qs)
  {
    for i := 0 to |qs|
      invariant x[..] == Apply(old(x[..]), qs[..i])
    {
      Qr(x, qs[i]);
      assert qs[..i + 1][..i] == qs[..i];
    }
    assert qs[..|qs|] == qs;
  }

  method TenDoubleRounds(x: array<u32>)
    requires x.Length == 16
    modifies x
    ensures x[..] == Rounds(old(x[..]), 10)
  {
    RepeatInPlace(x, SCHEDULE, 10);
  }

  method RepeatInPlace(x: array<u32>, qs: seq<Quad>, n: nat)
    requires x.Length == 16 && Quads(qs)
    modifies x
    ensures x[..] == Repeat(old(x[..]), qs, n)
  {
    for i := 0 to n
      invariant x[..] == Repeat(old(x[..]), qs, i)
    {
      ApplyInPlace(x, qs);
    }
  }

  /** Feed-forward and little-endian serialization. */
  method AddAndSerialize(out: array<byte>, x: array<u32>, state: array<u32>)
    requires out.Length == 64 && x.Length == 16 && state.Length == 16
    requires out as object != x && out as object != state
    modifies out
    ensures out[..] == Serialize(AddStates(x[..], state[..]))
  {
    hide LittleEndianByte, Add32;
    ghost var sum := AddStates(x[..], state[..]);
    for i := 0 to 16
      invariant sum == AddStates(x[..], state[..])
      invariant forall j :: 0 <= j < 4 * i ==> out[j] == LittleEndianByte(sum[j / 4], j % 4)
    {
      var v := Add32(x[i], state[i]);
      assert v == sum[i];
      out[i * 4 + 0] := LittleEndianByte(v, 0);
      out[i * 4 + 1] := LittleEndianByte(v, 1);
      out[i * 4 + 2] := LittleEndianByte(v, 2);
      out[i * 4 + 3] := LittleEndianByte(v, 3);
    }
  }

  /** `chronoid_chacha20_block`: writes the block of the state, counts it, and wipes the mixing words. */
  method Block(out: array<byte>, state: array<u32>)
    requires out.Length == 64 && state.Length == 16 && out as object != state
    modifies out, state
    ensures out[..] == BlockBytes(old(state[..]))
    ensures IsStandardBlock(old(state[..]), out[..])
    ensures state[..] == Bump(old(state[..]))
    ensures CountsOne(old(state[..]), state[..])
  {
    hide Rounds, Serialize, AddStates, IsStandardBlock, CountsOne;
    ghost var s := state[..];
    var x := new u32[16](i requires 0 <= i < 16 reads state => state[i]);
    assert x[..] == s;
    TenDoubleRounds(x);
    AddAndSerialize(out, x, state);
    state[12] := Add32(state[12], 1);
    if state[12] == 0 {
      state[13] := Add32(state[13], 1);
    }
    forall i | 0 <= i < 16 {
      x[i] := 0;
    }
    BumpCounts(s);
    BlockIsStandard(s);
  }

  // ---- the quarter-round test vector of RFC 8439, section 2.1.1 ----

  function XorDigits(a: seq<int>, b: seq<int>): seq<int>
    requires |a| == |b| && IsDigits(a, 16) && IsDigits(b, 16)
  {
    seq(|a|, i requires 0 <= i < |a| => Xor(a[i], b[i]))
  }

  /** XOR may be computed hexadecimal digit by digit. */
  lemma {:induction false} XorByDigits(a: seq<int>, b: seq<int>)
    requires |a| == |b| && IsDigits(a, 16) && IsDigits(b, 16)
    ensures Value(a, 16) >= 0 && Value(b, 16) >= 0
    ensures Xor(Value(a, 16), Value(b, 16)) == Value(XorDigits(a, b), 16)
  {
    hide Bits;
    ValueBound(a, 16);
    ValueBound(b, 16);
    if a == [] {
      BitsZero(0);
    } else {
      var n := |a| - 1;
      XorByDigits(a[..n], b[..n]);
      var x, y := Value(a[..n], 16), Value(b[..n], 16);
      Powers();
      BitsSplit(XOR, 4, x, a[n], y, b[n]);
      ShlIsTimes(x, 4);
      ShlIsTimes(y, 4);
      ShlIsTimes(Xor(x, y), 4);
      assert XorDigits(a, b)[..n] == XorDigits(a[..n], b[..n]);
    }
  }

  function Hex8(d: seq<int>): int
    requires |d| == 8
  {
    d[0] * 0x1000_0000 + d[1] * 0x100_0000 + d[2] * 0x10_0000 + d[3] * 0x1_0000
    + d[4] * 0x1000 + d[5] * 0x100 + d[6] * 0x10 + d[7]
  }

  /** Eight hexadecimal digits as a word. */
  lemma {:induction false} ValueOfEight(d: seq<int>)
    requires |d| == 8
    ensures Value(d, 16) == Hex8(d)
  {
    ValueSnoc([], d[0], 16);
    ValueSnoc(d[..1], d[1], 16);
    ValueSnoc(d[..2], d[2], 16);
    ValueSnoc(d[..3], d[3], 16);
    ValueSnoc(d[..4], d[4], 16);
    ValueSnoc(d[..5], d[5], 16);
    ValueSnoc(d[..6], d[6], 16);
    ValueSnoc(d[..7], d[7], 16);
    assert [] + [d[0]] == d[..1] && d[..1] + [d[1]] == d[..2] && d[..2] + [d[2]] == d[..3] && d[..3] + [d[3]] == d[..4];
    assert d[..4] + [d[4]] == d[..5] && d[..5] + [d[5]] == d[..6] && d[..6] + [d[6]] == d[..7] && d[..7] + [d[7]] == d;
  }

  /** XOR of two hexadecimal digits, bit by bit. */
  function Nibble(a: int, b: int): int
    requires 0 <= a < 16 && 0 <= b < 16
  {
    8 * XOR.Bit(a / 8, b / 8) + 4 * XOR.Bit(a / 4 % 2, b / 4 % 2)
    + 2 * XOR.Bit(a / 2 % 2, b / 2 % 2) + XOR.Bit(a % 2, b % 2)
  }

  lemma {:induction false} NibbleIsXor(a: nat, b: nat)
    requires a < 16 && b < 16
    ensures Nibble(a, b) == Xor(a, b)
  {
    hide Bits;
    BitsStep(XOR, a, b);
    BitsStep(XOR, a / 2, b / 2);
    BitsStep(XOR, a / 4, b / 4);
    BitsStep(XOR, a / 8, b / 8);
    BitsZero(0);
    assert a / 2 / 2 == a / 4 && a / 4 / 2 == a / 8 && a / 8 / 2 == 0 && a / 8 % 2 == a / 8;
    assert b / 2 / 2 == b / 4 && b / 4 / 2 == b / 8 && b / 8 / 2 == 0 && b / 8 % 2 == b / 8;
  }

  lemma {:induction false} XorEight(a: seq<int>, b: seq<int>, x: u32, y: u32, z: u32)
    requires |a| == |b| == 8 && IsDigits(a, 16) && IsDigits(b, 16)
    requires x == Hex8(a) && y == Hex8(b)
    requires z == Nibble(a[0], b[0]) * 0x1000_0000 + Nibble(a[1], b[1]) * 0x100_0000 + Nibble(a[2], b[2]) * 0x10_0000
                + Nibble(a[3], b[3]) * 0x1_0000 + Nibble(a[4], b[4]) * 0x1000 + Nibble(a[5], b[5]) * 0x100
                + Nibble(a[6], b[6]) * 0x10 + Nibble(a[7], b[7])
    ensures Xor32(x, y) == z
  {
    hide Bits, Nibble;
    XorByDigits(a, b);
    var r := XorDigits(a, b);
    forall i | 0 <= i < 8 ensures Nibble(a[i], b[i]) == r[i] {
      NibbleIsXor(a[i], b[i]);
    }
    ValueOfEight(a);
    ValueOfEight(b);
    ValueOfEight(r);
  }

  lemma {:induction false} RotateVector(x: u32, n: nat, hi: int, lo: int)
    requires 0 < n < 32 && 0 <= hi < Pow(2, n) && 0 <= lo < Pow(2, 32 - n) && x == hi * Pow(2, 32 - n) + lo
    ensures Rotl32(x, n) == lo * Pow(2, n) + hi
  {
    ComplementaryPowers(n);
    RotlSwaps(x, n, hi, lo);
  }

  lemma {:induction false} VectorLine1()
    ensures Add32(0x11111111, 0x01020304) == 0x12131415
    ensures Rotl32(Xor32(0x01234567, 0x12131415), 16) == 0x51721330
  {
    Powers();
    XorEight([0, 1, 2, 3, 4, 5, 6, 7], [1, 2, 1, 3, 1, 4, 1, 5], 0x01234567, 0x12131415, 0x13305172);
    RotateVector(0x13305172, 16, 4912, 20850);
  }

  lemma {:induction false} VectorLine2()
    ensures Add32(0x9b8d6f43, 0x51721330) == 0xecff8273
    ensures Rotl32(Xor32(0x01020304, 0xecff8273), 12) == 0xd8177edf
  {
    Powers();
    XorEight([0, 1, 0, 2, 0, 3, 0, 4], [14, 12, 15, 15, 8, 2, 7, 3], 0x01020304, 0xecff8273, 0xedfd8177);
    RotateVector(0xedfd8177, 12, 3807, 885111);
  }

  lemma {:induction false} VectorLine3()
    ensures Add32(0x12131415, 0xd8177edf) == 0xea2a92f4
    ensures Rotl32(Xor32(0x51721330, 0xea2a92f4), 8) == 0x5881c4bb
  {
    Powers();
    XorEight([5, 1, 7, 2, 1, 3, 3, 0], [14, 10, 2, 10, 9, 2, 15, 4], 0x51721330, 0xea2a92f4, 0xbb5881c4);
    RotateVector(0xbb5881c4, 8, 187, 5800388);
  }

  lemma {:induction false} VectorLine4()
    ensures Add32(0xecff8273, 0x5881c4bb) == 0x4581472e
    ensures Rotl32(Xor32(0xd8177edf, 0x4581472e), 7) == 0xcb1cf8ce
  {
    Powers();
    XorEight([13, 8, 1, 7, 7, 14, 13, 15], [4, 5, 8, 1, 4, 7, 2, 14], 0xd8177edf, 0x4581472e, 0x9d9639f1);
    RotateVector(0x9d9639f1, 7, 78, 26622449);
  }

  /** The published vector: the rotation amounts and the order of the four lines are the standard's. */
  lemma {:induction false} QuarterRoundVector(x: State)
    requires x[0] == 0x11111111 && x[1] == 0x01020304 && x[2] == 0x9b8d6f43 && x[3] == 0x01234567
    ensures QuarterRound(x, Quad(0, 1, 2, 3))
         == x[0 := 0xea2a92f4][1 := 0xcb1cf8ce][2 := 0x4581472e][3 := 0x5881c4bb]
  {
    hide Add32, Xor32, Rotl32;
    VectorLine1();
    VectorLine2();
    VectorLine3();
    VectorLine4();
  }
}
