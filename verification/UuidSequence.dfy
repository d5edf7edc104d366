/** chronoid/uuidv7/uuidv7_sequence.c: the monotonic sequence of RFC 9562, section 6.2 method 1,
    driven by an arbitrary clock and a random source that may fail on any draw. */
module UuidSequence {
  import opened Positional
  import opened Words
  import opened UuidLayout

  const COUNTER_MASK: int := 0x0FFF

  datatype State = State(lastMs: int, counter: u16, randB: Tail)

  datatype TailDraw = NoTail | GotTail(tail: Tail)
  datatype TwoDraw = NoTwo | GotTwo(hi: byte, lo: byte)

  /** What one call observes: the clock, then the 8-byte and the 2-byte draw if they are made. */
  datatype Env = Env(wall: int, tail: TailDraw, two: TwoDraw)

  datatype Outcome = Ok(id: Uuid) | ErrRng | ErrTimeRange

  /** `((two[0] << 8) | two[1]) & 0x0FFF`. */
  function DrawnCounter(hi: byte, lo: byte): (c: u16)
    ensures c == (hi as int * 0x100 + lo as int) % 0x1000
  {
    DrawnBits(hi, lo);
    And(Or(hi as int * 0x100, lo), COUNTER_MASK)
  }

  lemma {:induction false} DrawnBits(hi: byte, lo: byte)
    ensures And(Or(hi as int * 0x100, lo), COUNTER_MASK) == (hi as int * 0x100 + lo as int) % 0x1000
  {
    hide Bits;
    Powers();
    OrDisjoint(8, hi, lo);
    AndMask(12, hi as int * 0x100 + lo as int);
  }

  predicate ValidState(s: State) {
    0 <= s.lastMs <= MAX_UNIX_MS && s.counter <= COUNTER_MASK
  }

  /** The clamped reading of the clock. */
  function EffectiveMs(s: State, wall: int): int {
    if wall < s.lastMs || wall > MAX_UNIX_MS then s.lastMs else wall
  }

  function Redraw(s: State, env: Env, ms: int): (State, Outcome)
    requires 0 <= ms
  {
    if env.tail.NoTail? then (s, ErrRng)
    else if env.two.NoTwo? then (s, ErrRng)
    else
      var c := DrawnCounter(env.two.hi, env.two.lo);
      (State(ms, c, env.tail.tail), Ok(Layout(ms, c, env.tail.tail)))
  }

  /** One call of `chronoid_uuidv7_sequence_next`. */
  function Step(s: State, env: Env): (State, Outcome) {
    var ms := EffectiveMs(s, env.wall);
    if ms < 0 || ms > MAX_UNIX_MS then (s, ErrTimeRange)
    else if ms > s.lastMs then Redraw(s, env, ms)
    else if s.counter as int + 1 > COUNTER_MASK then
      if s.lastMs >= MAX_UNIX_MS then (s, ErrTimeRange) else Redraw(s, env, s.lastMs + 1)
    else
      (s.(counter := s.counter as int + 1), Ok(Layout(ms, s.counter as int + 1, s.randB)))
  }

  // ---- the code ----

  class Sequence {
    var lastMs: int
    var counter: u16
    var randB: Tail

    function Current(): State
      reads this
    {
      State(lastMs, counter, randB)
    }

    /** `chronoid_uuidv7_sequence_init`: the counter is drawn before the tail. */
    method Init(tail: TailDraw, two: TwoDraw) returns (ok: bool)
      modifies this
      ensures ok <==> two.GotTwo? && tail.GotTail?
      ensures ok ==> ValidState(Current()) && Current() == State(0, DrawnCounter(two.hi, two.lo), tail.tail)
      ensures !ok ==> Current() == old(Current())
    {
      if two.NoTwo? {
        return false;
      }
      var c := DrawnCounter(two.hi, two.lo);
      if tail.NoTail? {
        return false;
      }
      lastMs, counter, randB := 0, c, tail.tail;
      return true;
    }

    /** `chronoid_uuidv7_sequence_next`. */
    method Next(out: array<byte>, env: Env) returns (e: Outcome)
      requires out.Length == 16
      modifies this, out
      ensures (Current(), e) == Step(old(Current()), env)
      ensures out[..] == if e.Ok? then e.id else old(out[..])
      // a later 48-bit reading is adopted when both draws succeed; the end is the last 48-bit millisecond
      ensures old(ValidState(Current())) && old(lastMs) < env.wall < Pow(2, 48) ==>
        env.tail.GotTail? && env.two.GotTwo? ==> e.Ok? && lastMs == env.wall
      ensures old(ValidState(Current())) ==>
        (e == ErrTimeRange <==> old(lastMs) == Pow(2, 48) - 1 && old(counter) == 0xFFF)
    {
      hide Layout, DrawnCounter;
      if ValidState(Current()) {
        ReadingsAreAdopted(Current(), env);
        TimeRangeIsTheEnd(Current(), env);
      }
      var effectiveMs := env.wall;
      if effectiveMs < lastMs || effectiveMs > MAX_UNIX_MS {
        effectiveMs := lastMs;
      }
      if effectiveMs < 0 || effectiveMs > MAX_UNIX_MS {
        return ErrTimeRange;
      }
      if effectiveMs > lastMs {
        if env.tail.NoTail? || env.two.NoTwo? {
          return ErrRng;
        }
        lastMs := effectiveMs;
        counter := DrawnCounter(env.two.hi, env.two.lo);
        randB := env.tail.tail;
      } else {
        var bumped := counter as int + 1;
        if bumped > COUNTER_MASK {
          if lastMs >= MAX_UNIX_MS {
            return ErrTimeRange;
          }
          if env.tail.NoTail? || env.two.NoTwo? {
            return ErrRng;
          }
          lastMs := lastMs + 1;
          counter := DrawnCounter(env.two.hi, env.two.lo);
          randB := env.tail.tail;
        } else {
          counter := bumped;
        }
      }
      var id := Layout(lastMs, counter, randB);
      forall i | 0 <= i < 16 {
        out[i] := id[i];
      }
      assert out[..] == id;
      return Ok(id);
    }

    /** `chronoid_uuidv7_sequence_bounds`. */
    method Bounds() returns (min: Uuid, max: Uuid)
      requires ValidState(Current())
      ensures min == MinBound(Current()) && max == MaxBound(Current())
      ensures forall envs: seq<Env>, i: nat :: i < |envs| && Run(Current(), envs).outcomes[i].Ok? ==>
        var id := Run(Current(), envs).outcomes[i].id;
        if UnixMs(id) == lastMs then LexLeq(min, id) && LexLeq(id, max) else LexLess(max, id)
    {
      hide Layout, Step, Run, UnixMs;
      var lo := counter as int + 1;
      if lo > COUNTER_MASK {
        lo := COUNTER_MASK;
      }
      min := Layout(lastMs, lo, seq(8, _ => 0));
      max := Layout(lastMs, COUNTER_MASK, seq(8, _ => 0xff));
      forall envs: seq<Env>, i: nat | i < |envs| && Run(Current(), envs).outcomes[i].Ok?
        ensures var id := Run(Current(), envs).outcomes[i].id;
          if UnixMs(id) == lastMs then LexLeq(min, id) && LexLeq(id, max) else LexLess(max, id)
      {
        BoundsBracket(Current(), envs, i);
      }
    }
  }

  function MinBound(s: State): Uuid
    requires ValidState(s)
  {
    Layout(s.lastMs, if s.counter as int + 1 > COUNTER_MASK then COUNTER_MASK else s.counter as int + 1, seq(8, _ => 0))
  }

  function MaxBound(s: State): Uuid
    requires ValidState(s)
  {
    Layout(s.lastMs, COUNTER_MASK, seq(8, _ => 0xff))
  }

  // ---- one step ----

  /** The state behind an emitted UUID. */
  ghost predicate Emitted(s: State, id: Uuid) {
    ValidState(s) && id == Layout(s.lastMs, s.counter, s.randB)
  }

  /** (milliseconds, counter) in order. */
  predicate Before(s: State, t: State) {
    s.lastMs < t.lastMs || (s.lastMs == t.lastMs && s.counter < t.counter)
  }

  /** Every call keeps the ranges; a success emits the new state, which lies strictly after the old
      one, and a failure changes nothing, so it can be retried. */
  lemma {:induction false} StepKeeps(s: State, env: Env)
    requires ValidState(s)
    ensures var (t, o) := Step(s, env);
      && ValidState(t)
      && (o.Ok? ==> Emitted(t, o.id) && Before(s, t))
      && (!o.Ok? ==> t == s)
  {
    hide Layout;
  }

  /** Exactly when each error is returned.  The bail-out on the clamped time is never taken, and
      TIME_RANGE means the last counter of the last representable millisecond: an absorbing state. */
  lemma {:induction false} StepErrors(s: State, env: Env)
    requires ValidState(s)
    ensures 0 <= EffectiveMs(s, env.wall) <= MAX_UNIX_MS
    ensures Step(s, env).1 == ErrTimeRange <==> s.lastMs == MAX_UNIX_MS && s.counter == COUNTER_MASK
    ensures Step(s, env).1 == ErrRng <==>
      && (env.tail.NoTail? || env.two.NoTwo?)
      && (s.lastMs < env.wall <= MAX_UNIX_MS || (s.counter == COUNTER_MASK && s.lastMs < MAX_UNIX_MS))
  {
    hide Layout;
  }

  /** The state holds a 48-bit millisecond and a 12-bit counter. */
  lemma {:induction false} StateWidths(s: State)
    ensures ValidState(s) <==> 0 <= s.lastMs < Pow(2, 48) && s.counter < Pow(2, 12)
    ensures forall wall :: Usable(wall) <==> 0 <= wall < Pow(2, 48)
  {
    TimestampWidth();
    Powers();
  }

  /** Whatever the state, a later reading that fits 48 bits becomes the embedded millisecond as soon as the
      two draws succeed; an earlier, failed or oversized reading never does. */
  lemma {:induction false} ReadingsAreAdopted(s: State, env: Env)
    requires ValidState(s)
    ensures s.lastMs < env.wall < Pow(2, 48) && env.tail.GotTail? && env.two.GotTwo? ==>
      Step(s, env).1.Ok? && Step(s, env).0.lastMs == env.wall == UnixMs(Step(s, env).1.id)
    ensures !(s.lastMs < env.wall < Pow(2, 48)) ==> Step(s, env).0.lastMs <= s.lastMs + 1
  {
    hide Layout, UnixMs;
    TimestampWidth();
    StepErrors(s, env);
    if Step(s, env).1.Ok? {
      var t := Step(s, env).0;
      StepKeeps(s, env);
      LayoutFields(t.lastMs, t.counter, t.randB);
    }
  }

  /** TIME_RANGE is the last counter of the last millisecond that 48 bits can hold. */
  lemma {:induction false} TimeRangeIsTheEnd(s: State, env: Env)
    requires ValidState(s)
    ensures Step(s, env).1 == ErrTimeRange <==> s.lastMs == Pow(2, 48) - 1 && s.counter == 0xFFF
  {
    hide Step;
    TimestampWidth();
    StepErrors(s, env);
  }

  /** A new millisecond is a usable clock reading or, on a counter overflow, the successor of the old
      one, and comes with a fresh counter and tail; within a millisecond the counter goes up by one
      and the tail stays. */
  lemma {:induction false} StepShape(s: State, env: Env)
    requires ValidState(s) && Step(s, env).1.Ok?
    ensures var t := Step(s, env).0;
      if s.lastMs < env.wall <= MAX_UNIX_MS then
        t == State(env.wall, DrawnCounter(env.two.hi, env.two.lo), env.tail.tail)
      else if s.counter == COUNTER_MASK then
        t == State(s.lastMs + 1, DrawnCounter(env.two.hi, env.two.lo), env.tail.tail)
      else
        t == State(s.lastMs, s.counter + 1, s.randB)
  {
    hide Layout;
  }

  // ---- runs ----

  datatype Trace = Trace(state: State, outcomes: seq<Outcome>)

  /** All calls of a run, whatever the clock and the random source answer. */
  function Run(s: State, envs: seq<Env>): (r: Trace)
    ensures |r.outcomes| == |envs|
  {
    if envs == [] then Trace(s, [])
    else
      var before := Run(s, envs[..|envs| - 1]);
      var (t, o) := Step(before.state, envs[|envs| - 1]);
      Trace(t, before.outcomes + [o])
  }

  lemma {:induction false} RunKeeps(s: State, envs: seq<Env>)
    requires ValidState(s)
    ensures ValidState(Run(s, envs).state)
  {
    hide Layout;
    if envs != [] {
      RunKeeps(s, envs[..|envs| - 1]);
      StepKeeps(Run(s, envs[..|envs| - 1]).state, envs[|envs| - 1]);
    }
  }

  /** The state right after call `i` of a run. */
  function StateAfter(s: State, envs: seq<Env>, i: nat): State
    requires i < |envs|
  {
    Run(s, envs[..i + 1]).state
  }

  lemma {:induction false} RunPrefix(s: State, envs: seq<Env>, n: nat)
    requires n <= |envs|
    ensures Run(s, envs[..n]).outcomes == Run(s, envs).outcomes[..n]
    decreases |envs|
  {
    hide Step;
    if n < |envs| {
      var init := envs[..|envs| - 1];
      RunPrefix(s, init, n);
      assert init[..n] == envs[..n];
    } else {
      assert envs[..n] == envs;
    }
  }

  /** What call `i` returned is what one step from the state before it returns. */
  lemma {:induction false} CallAt(s: State, envs: seq<Env>, i: nat)
    requires i < |envs| && ValidState(s)
    ensures var before := Run(s, envs[..i]).state;
      && ValidState(before) && ValidState(StateAfter(s, envs, i))
      && (StateAfter(s, envs, i), Run(s, envs).outcomes[i]) == Step(before, envs[i])
  {
    hide Step;
    RunKeeps(s, envs[..i]);
    RunKeeps(s, envs[..i + 1]);
    RunPrefix(s, envs, i + 1);
    assert envs[..i + 1][..i] == envs[..i];
  }

  predicate NotAfter(s: State, t: State) { s == t || Before(s, t) }

  /** States never go back. */
  lemma {:induction false} StatesAdvance(s: State, envs: seq<Env>, m: nat, n: nat)
    requires ValidState(s) && m <= n <= |envs|
    ensures NotAfter(Run(s, envs[..m]).state, Run(s, envs[..n]).state)
    decreases n
  {
    hide Layout, Step;
    if m < n {
      StatesAdvance(s, envs, m, n - 1);
      CallAt(s, envs, n - 1);
      StepKeeps(Run(s, envs[..n - 1]).state, envs[n - 1]);
    }
  }

  /** Over every run, under any clock and any pattern of random-source failures, the emitted UUIDs are
      strictly increasing in byte order, all of version 7 and variant 0b10. */
  lemma {:induction false} RunIsMonotonic(s: State, envs: seq<Env>)
    requires ValidState(s)
    ensures var out := Run(s, envs).outcomes;
      && (forall i, j :: 0 <= i < j < |out| && out[i].Ok? && out[j].Ok? ==> LexLess(out[i].id, out[j].id))
      && (forall i :: 0 <= i < |out| && out[i].Ok? ==> Version(out[i].id) == 7 && Variant(out[i].id) == 2)
  {
    hide Layout, Step, Version, Variant;
    var out := Run(s, envs).outcomes;
    forall i | 0 <= i < |out| && out[i].Ok?
      ensures Version(out[i].id) == 7 && Variant(out[i].id) == 2
    {
      EmittedAt(s, envs, i);
      var t := StateAfter(s, envs, i);
      LayoutFields(t.lastMs, t.counter, t.randB);
    }
    forall i, j | 0 <= i < j < |out| && out[i].Ok? && out[j].Ok?
      ensures LexLess(out[i].id, out[j].id)
    {
      EmitsInOrder(s, envs, i, j);
    }
  }

  lemma {:induction false} EmittedAt(s: State, envs: seq<Env>, i: nat)
    requires ValidState(s) && i < |envs| && Run(s, envs).outcomes[i].Ok?
    ensures Emitted(StateAfter(s, envs, i), Run(s, envs).outcomes[i].id)
    ensures Before(Run(s, envs[..i]).state, StateAfter(s, envs, i))
  {
    hide Layout, Step;
    CallAt(s, envs, i);
    StepKeeps(Run(s, envs[..i]).state, envs[i]);
  }

  lemma {:induction false} EmitsInOrder(s: State, envs: seq<Env>, i: nat, j: nat)
    requires ValidState(s) && i < j < |envs|
    requires Run(s, envs).outcomes[i].Ok? && Run(s, envs).outcomes[j].Ok?
    ensures Before(StateAfter(s, envs, i), StateAfter(s, envs, j))
    ensures LexLess(Run(s, envs).outcomes[i].id, Run(s, envs).outcomes[j].id)
  {
    hide Layout, Step, Run;
    EmittedAt(s, envs, i);
    EmittedAt(s, envs, j);
    StatesAdvance(s, envs, i + 1, j);
    var a, b := StateAfter(s, envs, i), StateAfter(s, envs, j);
    assert Before(a, b) by {
      assert NotAfter(Run(s, envs[..i + 1]).state, Run(s, envs[..j]).state);
    }
    LayoutOrder(a.lastMs, a.counter, a.randB, b.lastMs, b.counter, b.randB);
  }

  // ---- counters within a millisecond ----

  function OkCount(outcomes: seq<Outcome>): nat {
    if outcomes == [] then 0
    else OkCount(outcomes[..|outcomes| - 1]) + (if outcomes[|outcomes| - 1].Ok? then 1 else 0)
  }

  /** Between two states of a run with the same millisecond the counter grew by the number of
      successful calls in between, and the tail did not change. */
  lemma {:induction false} SameMillisecond(s: State, envs: seq<Env>, m: nat, n: nat)
    requires ValidState(s) && m <= n <= |envs|
    requires Run(s, envs[..m]).state.lastMs == Run(s, envs[..n]).state.lastMs
    ensures var a, b := Run(s, envs[..m]).state, Run(s, envs[..n]).state;
      b.counter as int == a.counter as int + OkCount(Run(s, envs).outcomes[m..n]) && b.randB == a.randB
    decreases n
  {
    hide Layout, Step, Run;
    if m < n {
      var a, mid, b := Run(s, envs[..m]).state, Run(s, envs[..n - 1]).state, Run(s, envs[..n]).state;
      StatesAdvance(s, envs, m, n - 1);
      StatesAdvance(s, envs, n - 1, n);
      assert mid.lastMs == a.lastMs;
      SameMillisecond(s, envs, m, n - 1);
      CallAt(s, envs, n - 1);
      var out := Run(s, envs).outcomes;
      assert out[m..n][..n - 1 - m] == out[m..n - 1] && out[m..n][n - 1 - m] == out[n - 1];
      if out[n - 1].Ok? {
        StepShape(mid, envs[n - 1]);
        assert Step(mid, envs[n - 1]) == (b, out[n - 1]);
      } else {
        StepKeeps(mid, envs[n - 1]);
        assert Step(mid, envs[n - 1]) == (b, out[n - 1]);
      }
    }
  }

  /** The emitted counters of one millisecond form a gap-free interval with a constant tail. */
  lemma {:induction false} RunIsGapFree(s: State, envs: seq<Env>, i: nat, j: nat)
    requires ValidState(s) && i < j < |envs|
    requires var out := Run(s, envs).outcomes;
      out[i].Ok? && out[j].Ok? && UnixMs(out[i].id) == UnixMs(out[j].id)
    ensures var out := Run(s, envs).outcomes;
      && CounterField(out[j].id) == CounterField(out[i].id) + OkCount(out[i + 1..j + 1])
      && out[j].id[8..] == out[i].id[8..]
  {
    hide Layout, Step, Run, UnixMs, CounterField, OkCount;
    var out := Run(s, envs).outcomes;
    EmittedAt(s, envs, i);
    EmittedAt(s, envs, j);
    var a, b := StateAfter(s, envs, i), StateAfter(s, envs, j);
    LayoutFields(a.lastMs, a.counter, a.randB);
    LayoutFields(b.lastMs, b.counter, b.randB);
    SameMillisecond(s, envs, i + 1, j + 1);
    SameTail(out[i].id, out[j].id);
  }

  lemma {:induction false} SameTail(a: Uuid, b: Uuid)
    requires a[8] == b[8] && a[9..] == b[9..]
    ensures a[8..] == b[8..]
  {
    assert a[8..] == [a[8]] + a[9..] && b[8..] == [b[8]] + b[9..];
  }

  /** The successful call that produced the state after `n` calls, or -1 when there is none. */
  lemma {:induction false} LastEmit(s: State, envs: seq<Env>, n: nat) returns (k: int)
    requires ValidState(s) && n <= |envs|
    ensures -1 <= k < n
    ensures k == -1 ==> Run(s, envs[..n]).state == s
    ensures k >= 0 ==> Run(s, envs).outcomes[k].Ok? && Run(s, envs[..n]).state == StateAfter(s, envs, k)
    decreases n
  {
    hide Layout, Step;
    if n == 0 {
      return -1;
    }
    CallAt(s, envs, n - 1);
    if Run(s, envs).outcomes[n - 1].Ok? {
      return n - 1;
    }
    StepKeeps(Run(s, envs[..n - 1]).state, envs[n - 1]);
    k := LastEmit(s, envs, n - 1);
  }

  /** No earlier call of the run emitted the millisecond that call `i` emits, and the run did not start in it. */
  ghost predicate OpensMillisecond(s: State, envs: seq<Env>, i: nat)
    requires i < |envs|
  {
    var out := Run(s, envs).outcomes;
    && out[i].Ok? && UnixMs(out[i].id) != s.lastMs
    && forall k :: 0 <= k < i && out[k].Ok? ==> UnixMs(out[k].id) != UnixMs(out[i].id)
  }

  /** The first emit of a millisecond carries the counter and the tail drawn in that call. */
  lemma {:induction false} FirstEmitIsDrawn(s: State, envs: seq<Env>, i: nat)
    requires ValidState(s) && i < |envs| && OpensMillisecond(s, envs, i)
    ensures envs[i].two.GotTwo? && envs[i].tail.GotTail?
    ensures CounterField(Run(s, envs).outcomes[i].id) == DrawnCounter(envs[i].two.hi, envs[i].two.lo)
    ensures StateAfter(s, envs, i).randB == envs[i].tail.tail
  {
    hide Layout, Step, Run, UnixMs, CounterField, DrawnCounter;
    var before, t := Run(s, envs[..i]).state, StateAfter(s, envs, i);
    EmittedAt(s, envs, i);
    CallAt(s, envs, i);
    LayoutFields(t.lastMs, t.counter, t.randB);
    var k := LastEmit(s, envs, i);
    if k >= 0 {
      EmittedAt(s, envs, k);
      LayoutFields(before.lastMs, before.counter, before.randB);
    }
    assert before.lastMs != t.lastMs;
    StepErrors(before, envs[i]);
    StepShape(before, envs[i]);
    assert Step(before, envs[i]).0 == t;
  }

  /** The emitted counters of a millisecond are the interval that starts at the counter drawn for it. */
  lemma {:induction false} IntervalStartsAtDraw(s: State, envs: seq<Env>, i: nat, j: nat)
    requires ValidState(s) && i <= j < |envs| && OpensMillisecond(s, envs, i)
    requires var out := Run(s, envs).outcomes; out[j].Ok? && UnixMs(out[j].id) == UnixMs(out[i].id)
    ensures envs[i].two.GotTwo?
    ensures var out := Run(s, envs).outcomes;
      CounterField(out[j].id) == DrawnCounter(envs[i].two.hi, envs[i].two.lo) as int + OkCount(out[i + 1..j + 1])
  {
    hide Layout, Step, Run, UnixMs, CounterField, DrawnCounter, OkCount;
    FirstEmitIsDrawn(s, envs, i);
    if i < j {
      RunIsGapFree(s, envs, i, j);
    } else {
      NothingYet(Run(s, envs).outcomes, i);
    }
  }

  lemma {:induction false} NothingYet(out: seq<Outcome>, i: nat)
    requires i < |out|
    ensures OkCount(out[i + 1..i + 1]) == 0
  {
  }

  /** As long as the starting millisecond lasts, the emits continue from the starting counter plus one;
      for a fresh sequence this is the millisecond-0 band that a failed clock leaves it in. */
  lemma {:induction false} StartingBand(s: State, envs: seq<Env>, j: nat)
    requires ValidState(s) && j < |envs| && Run(s, envs).outcomes[j].Ok?
    requires UnixMs(Run(s, envs).outcomes[j].id) == s.lastMs
    ensures CounterField(Run(s, envs).outcomes[j].id) == s.counter as int + OkCount(Run(s, envs).outcomes[..j + 1])
  {
    hide Layout, Step, UnixMs, CounterField;
    EmittedAt(s, envs, j);
    var b := StateAfter(s, envs, j);
    LayoutFields(b.lastMs, b.counter, b.randB);
    assert envs[..0] == [] && Run(s, []).state == s;
    SameMillisecond(s, envs, 0, j + 1);
    assert Run(s, envs).outcomes[0..j + 1] == Run(s, envs).outcomes[..j + 1];
  }

  // ---- drift from the clock ----

  predicate Usable(wall: int) { 0 <= wall <= MAX_UNIX_MS }

  /** The largest usable reading so far. */
  function MaxReading(start: int, envs: seq<Env>): int {
    if envs == [] then start
    else
      var m, w := MaxReading(start, envs[..|envs| - 1]), envs[|envs| - 1].wall;
      if Usable(w) && w > m then w else m
  }

  /** The last reading that became the embedded millisecond, and the counter overflows since. */
  datatype Clock = Clock(tick: int, rollovers: nat)

  function ClockOf(s: State, envs: seq<Env>): Clock {
    if envs == [] then Clock(s.lastMs, 0)
    else
      var before, e := envs[..|envs| - 1], envs[|envs| - 1];
      var c, st := ClockOf(s, before), Run(s, before).state;
      var (t, o) := Step(st, e);
      if !o.Ok? then c
      else if st.lastMs < e.wall <= MAX_UNIX_MS then Clock(e.wall, 0)
      else if st.counter == COUNTER_MASK then c.(rollovers := c.rollovers + 1)
      else c
  }

  /** The embedded millisecond is the last adopted reading plus the overflows since, so it runs ahead
      of the largest reading seen by no more than those overflows. */
  lemma {:induction false} DriftIsRollovers(s: State, envs: seq<Env>)
    requires ValidState(s)
    ensures var c := ClockOf(s, envs);
      && Run(s, envs).state.lastMs == c.tick + c.rollovers
      && c.tick <= MaxReading(s.lastMs, envs)
  {
    hide Layout, DrawnCounter;
    if envs != [] {
      var before, e := envs[..|envs| - 1], envs[|envs| - 1];
      DriftIsRollovers(s, before);
      RunKeeps(s, before);
      var st := Run(s, before).state;
      StepKeeps(st, e);
      if Step(st, e).1.Ok? {
        StepShape(st, e);
      }
    }
  }

  /** A successful call never embeds a time before the usable reading it was given. */
  lemma {:induction false} EmitsCatchUp(s: State, envs: seq<Env>, i: nat, j: nat)
    requires ValidState(s) && i <= j < |envs| && Run(s, envs).outcomes[i].Ok? && Run(s, envs).outcomes[j].Ok?
    requires Usable(envs[i].wall)
    ensures UnixMs(Run(s, envs).outcomes[j].id) >= envs[i].wall
  {
    hide Layout, Step, Run, UnixMs;
    CallAt(s, envs, i);
    EmittedAt(s, envs, j);
    StepShape(Run(s, envs[..i]).state, envs[i]);
    assert Step(Run(s, envs[..i]).state, envs[i]).0 == StateAfter(s, envs, i);
    StatesAdvance(s, envs, i + 1, j + 1);
    var b := StateAfter(s, envs, j);
    LayoutFields(b.lastMs, b.counter, b.randB);
  }

  // ---- exhaustion ----

  /** At the last counter of the last millisecond every further call fails and changes nothing. */
  lemma {:induction false} LastStateAbsorbs(s: State, envs: seq<Env>)
    requires s.lastMs == MAX_UNIX_MS && s.counter == COUNTER_MASK
    ensures Run(s, envs).state == s
    ensures forall i :: 0 <= i < |envs| ==> Run(s, envs).outcomes[i] == ErrTimeRange
  {
    if envs != [] {
      LastStateAbsorbs(s, envs[..|envs| - 1]);
      StepErrors(s, envs[|envs| - 1]);
      StepKeeps(s, envs[|envs| - 1]);
    }
  }

  /** The header promises only success or an RNG error.  Two calls after initialisation reach TIME_RANGE. */
  lemma {:induction false} TimeRangeIsReachable(tail: Tail, e: Env)
    ensures var s := State(0, DrawnCounter(0, 0), tail);
      var out := Run(s, [Env(MAX_UNIX_MS, GotTail(tail), GotTwo(0x0F, 0xFF)), e]).outcomes;
      out[0].Ok? && out[1] == ErrTimeRange
  {
    hide Layout, DrawnCounter, Bits;
    var s, e0 := State(0, DrawnCounter(0, 0), tail), Env(MAX_UNIX_MS, GotTail(tail), GotTwo(0x0F, 0xFF));
    assert [e0, e][..1] == [e0] && [e0][..0] == [];
    assert Run(s, []) == Trace(s, []);
    StepErrors(s, e0);
    StepShape(s, e0);
    var t := Step(s, e0).0;
    assert t == State(MAX_UNIX_MS, COUNTER_MASK, tail);
    assert Run(s, [e0]) == Trace(t, [Step(s, e0).1]);
    StepErrors(t, e);
  }

  // ---- bounds ----

  lemma {:induction false} PointwiseValue(a: seq<int>, b: seq<int>)
    requires |a| == |b| && IsDigits(a, 0x100) && IsDigits(b, 0x100)
    requires forall i :: 0 <= i < |a| ==> a[i] <= b[i]
    ensures Value(a, 0x100) <= Value(b, 0x100)
  {
    if a != [] {
      PointwiseValue(a[..|a| - 1], b[..|b| - 1]);
    }
  }

  lemma {:induction false} PointwiseLeq(a: Uuid, b: Uuid)
    requires forall i :: 0 <= i < 16 ==> a[i] <= b[i]
    ensures LexLeq(a, b)
  {
    PointwiseValue(a, b);
    LexTrichotomy(a, b);
    LexIffValue(b, a, 0x100);
  }

  /** With the same timestamp, a counter and tail inside a range give a UUID inside the range. */
  lemma {:induction false} LayoutBetween(ms: nat, c: u16, r: Tail, c': u16, r': Tail)
    requires ms <= MAX_UNIX_MS && c <= c' <= COUNTER_MASK
    requires c == c' ==> forall i :: 1 <= i < 8 ==> r[i] <= r'[i]
    requires c == c' ==> r[0] as int % 0x40 <= r'[0] as int % 0x40
    ensures LexLeq(Layout(ms, c, r), Layout(ms, c', r'))
  {
    hide Layout, Digits;
    if c < c' {
      LayoutOrder(ms, c, r, ms, c', r');
    } else {
      LayoutBytes(ms, c, r);
      LayoutBytes(ms, c', r');
      var a, b := Layout(ms, c, r), Layout(ms, c', r');
      forall i | 0 <= i < 16 ensures a[i] <= b[i] {
        if i < 6 {
          assert a[i] == a[..6][i] && b[i] == b[..6][i];
        } else if i >= 9 {
          assert a[i] == a[9..][i - 9] == r[1..][i - 9] && b[i] == b[9..][i - 9] == r'[1..][i - 9];
        }
      }
      PointwiseLeq(a, b);
    }
  }

  /** A UUID with this timestamp and counter and a tail of one repeated byte. */
  ghost predicate ReadsAs(id: Uuid, ms: int, counter: int, b8: int, filler: int) {
    UnixMs(id) == ms && CounterField(id) == counter && id[8] == b8 && forall i :: 9 <= i < 16 ==> id[i] == filler
  }

  lemma {:induction false} FilledLayout(ms: nat, c: u16, filler: byte)
    requires ms <= MAX_UNIX_MS && c <= 0xFFF
    ensures ReadsAs(Layout(ms, c, seq(8, _ => filler)), ms, c, 0x80 + filler as int % 0x40, filler)
  {
    hide Layout, UnixMs, CounterField;
    var tail: Tail := seq(8, _ => filler);
    LayoutFields(ms, c, tail);
    var id := Layout(ms, c, tail);
    forall i | 9 <= i < 16 ensures id[i] == filler {
      assert id[i] == id[9..][i - 9] == tail[1..][i - 9];
    }
  }

  /** What the two bounds read as: the state's millisecond, the next counter (or the last one, when there is
      no next) and 0xFFF, and 62 tail bits all clear or all set. */
  lemma {:induction false} BoundFields(s: State)
    requires ValidState(s)
    ensures ReadsAs(MinBound(s), s.lastMs, if s.counter < 0xFFF then s.counter as int + 1 else 0xFFF, 0x80, 0)
    ensures ReadsAs(MaxBound(s), s.lastMs, 0xFFF, 0xbf, 0xff)
  {
    hide Layout, ReadsAs;
    FilledLayout(s.lastMs, if s.counter < 0xFFF then s.counter as int + 1 else 0xFFF, 0);
    FilledLayout(s.lastMs, 0xFFF, 0xff);
  }

  /** Bounds taken at any state bracket every later emit that keeps its millisecond, and every other
      later emit lies strictly above them. */
  lemma {:induction false} BoundsBracket(s: State, envs: seq<Env>, i: nat)
    requires ValidState(s) && i < |envs| && Run(s, envs).outcomes[i].Ok?
    ensures var id := Run(s, envs).outcomes[i].id;
      if UnixMs(id) == s.lastMs then LexLeq(MinBound(s), id) && LexLeq(id, MaxBound(s))
      else UnixMs(id) > s.lastMs && LexLess(MaxBound(s), id)
  {
    hide Layout, Step, UnixMs;
    EmittedAt(s, envs, i);
    var t := StateAfter(s, envs, i);
    assert envs[..0] == [] && Run(s, []).state == s;
    StatesAdvance(s, envs, 0, i);
    assert Before(s, t) by {
      assert NotAfter(s, Run(s, envs[..i]).state) && Before(Run(s, envs[..i]).state, t);
    }
    LayoutFields(t.lastMs, t.counter, t.randB);
    if t.lastMs == s.lastMs {
      LayoutBetween(s.lastMs, s.counter + 1, seq(8, _ => 0), t.counter, t.randB);
      LayoutBetween(s.lastMs, t.counter, t.randB, COUNTER_MASK, seq(8, _ => 0xff));
    } else {
      LayoutOrder(s.lastMs, COUNTER_MASK, seq(8, _ => 0xff), t.lastMs, t.counter, t.randB);
    }
  }

  /** Successive bounds within one millisecond are nested. */
  lemma {:induction false} BoundsNest(s: State, envs: seq<Env>)
    requires ValidState(s) && Run(s, envs).state.lastMs == s.lastMs
    ensures ValidState(Run(s, envs).state)
    ensures LexLeq(MinBound(s), MinBound(Run(s, envs).state)) && MaxBound(s) == MaxBound(Run(s, envs).state)
  {
    hide Layout, Step;
    RunKeeps(s, envs);
    assert envs[..0] == [] && Run(s, []).state == s && envs[..|envs|] == envs;
    StatesAdvance(s, envs, 0, |envs|);
    var t := Run(s, envs).state;
    var lo := (x: State) => if x.counter as int + 1 > COUNTER_MASK then COUNTER_MASK else x.counter as int + 1;
    LayoutBetween(s.lastMs, lo(s), seq(8, _ => 0), lo(t), seq(8, _ => 0));
  }

  /** The bounds cannot be tightened: the next emit of the same millisecond shares timestamp and counter
      with the lower bound, and both bounds are emitted for some tail. */
  lemma {:induction false} BoundsAreTight(s: State, env: Env)
    requires ValidState(s) && s.counter < COUNTER_MASK
    requires !(s.lastMs < env.wall <= MAX_UNIX_MS)
    ensures var o := Step(s, env).1;
      && o.Ok? && Key(o.id) == Key(MinBound(s))
      && (s.randB == seq(8, _ => 0) ==> o.id == MinBound(s))
      && (s.counter == COUNTER_MASK - 1 && s.randB == seq(8, _ => 0xff) ==> o.id == MaxBound(s))
  {
    hide Layout, Key;
    StepErrors(s, env);
    KeyOfLayout(s.lastMs, s.counter + 1, s.randB);
    KeyOfLayout(s.lastMs, s.counter + 1, seq(8, _ => 0));
  }
}
