/** chronoid/ksuid/ksuid.c: the random-source override, two atomic words written by `chronoid_set_rand`
    with release stores (ctx, then fn) and read by draws with acquire loads (fn, then ctx).  Each
    word is its list of stores; a load may return any store its thread's view does not rule out,
    and an acquire load of an fn store also brings in the ctx store made before it. */
module RandOverride {

  datatype Fn = Null | Hook(id: nat)

  /** A store to the fn word: its value and the ctx store that the same `set_rand` call made. */
  datatype FnStore = FnStore(fn: Fn, ownCtx: nat)

  datatype Reader = Reader(viewFn: nat, viewCtx: nat, holding: Held)
  datatype Held = Nothing | HoldsFn(index: nat)

  /** A draw that called a hook: fn store `fnIndex` with the ctx of store `ctxIndex`. */
  datatype Draw = Draw(fnIndex: nat, ctxIndex: nat)

  datatype Memory = Memory(ctxs: seq<int>, fns: seq<FnStore>, pending: map<nat, FnStore>,
                           readers: map<nat, Reader>, draws: seq<Draw>) {
    function Get(r: nat): Reader {
      if r in readers then readers[r] else Reader(0, 0, Nothing)
    }
  }

  const START: Memory := Memory([0], [FnStore(Null, 0)], map[], map[], [])

  datatype Event =
    | StoreCtx(writer: nat, fn: Fn, ctx: int)   // first half of set_rand (fn, ctx)
    | StoreFn(writer: nat)                      // second half
    | LoadFn(reader: nat, index: nat)
    | LoadCtx(reader: nat, index: nat)

  function Max(x: nat, y: nat): nat { if x < y then y else x }

  /** One atomic access; `acquire` says whether fn loads synchronise with the store they read. */
  function Step(m: Memory, e: Event, acquire: bool): Memory {
    match e
    case StoreCtx(w, fn, ctx) =>
      if w in m.pending then m
      else m.(ctxs := m.ctxs + [ctx], pending := m.pending[w := FnStore(fn, |m.ctxs|)])
    case StoreFn(w) =>
      if w !in m.pending then m
      else m.(fns := m.fns + [m.pending[w]], pending := m.pending - {w})
    case LoadFn(r, i) =>
      var t := m.Get(r);
      if t.holding != Nothing || !(t.viewFn <= i < |m.fns|) then m
      else
        var view := if acquire then Max(t.viewCtx, m.fns[i].ownCtx) else t.viewCtx;
        // a NULL fn falls through to the default source and reads no ctx
        m.(readers := m.readers[r := Reader(i, view, if m.fns[i].fn == Null then Nothing else HoldsFn(i))])
    case LoadCtx(r, j) =>
      var t := m.Get(r);
      if t.holding == Nothing || !(t.viewCtx <= j < |m.ctxs|) then m
      else m.(readers := m.readers[r := Reader(t.viewFn, j, Nothing)], draws := m.draws + [Draw(t.holding.index, j)])
  }

  function Run(events: seq<Event>, acquire: bool): Memory {
    if events == [] then START
    else Step(Run(events[..|events| - 1], acquire), events[|events| - 1], acquire)
  }

  // ---- safety ----

  ghost predicate Inv(m: Memory) {
    && m.fns != [] && m.ctxs != []
    && (forall i :: 0 <= i < |m.fns| ==> m.fns[i].ownCtx < |m.ctxs|)
    && (forall w :: w in m.pending ==> m.pending[w].ownCtx < |m.ctxs|)
    && (forall r :: r in m.readers ==> ReaderOk(m, m.readers[r]))
    && (forall k :: 0 <= k < |m.draws| ==> DrawOk(m, m.draws[k]))
  }

  ghost predicate ReaderOk(m: Memory, t: Reader) {
    && t.viewFn < |m.fns| && t.viewCtx < |m.ctxs|
    && (t.holding != Nothing ==> t.holding.index < |m.fns| && m.fns[t.holding.index].ownCtx <= t.viewCtx)
  }

  /** The ctx is the hook's own or a newer one. */
  ghost predicate DrawOk(m: Memory, d: Draw) {
    d.fnIndex < |m.fns| && m.fns[d.fnIndex].ownCtx <= d.ctxIndex < |m.ctxs|
  }

  lemma {:induction false} StepInv(m: Memory, e: Event)
    requires Inv(m)
    ensures Inv(Step(m, e, true))
  {
    var m' := Step(m, e, true);
    forall r | r in m'.readers ensures ReaderOk(m', m'.readers[r]) {
      if r in m.readers {
        assert ReaderOk(m, m.readers[r]);
      }
    }
    forall k | 0 <= k < |m'.draws| ensures DrawOk(m', m'.draws[k]) {
      if k < |m.draws| {
        assert DrawOk(m, m.draws[k]);
      }
    }
  }

  /** Whatever the writers and readers do, no hook is ever called with a ctx older than the one its own
      `set_rand` call stored. */
  lemma {:induction false} NeverOlderThanOwn(events: seq<Event>)
    ensures Inv(Run(events, true))
  {
    if events != [] {
      NeverOlderThanOwn(events[..|events| - 1]);
      StepInv(Run(events[..|events| - 1], true), events[|events| - 1]);
    }
  }

  /** The event does not start a `set_rand` call inside another one. */
  predicate StartsAlone(m: Memory, e: Event) {
    e.StoreCtx? && e.writer !in m.pending ==> m.pending == map[]
  }

  /** No `set_rand` call starts before the previous one has finished. */
  predicate Serial(events: seq<Event>) {
    events == [] ||
    var before, e := events[..|events| - 1], events[|events| - 1];
    Serial(before) && StartsAlone(Run(before, true), e)
  }

  ghost predicate SerialInv(m: Memory) {
    && m.fns != []
    && (forall i :: 0 <= i < |m.fns| ==> m.fns[i].ownCtx == i)
    && |m.ctxs| == |m.fns| + |m.pending|
    && (m.pending == map[] || exists w :: w in m.pending && m.pending == map[w := FnStore(m.pending[w].fn, |m.fns|)])
  }

  lemma {:induction false} SerialRun(events: seq<Event>)
    requires Serial(events)
    ensures SerialInv(Run(events, true))
  {
    hide Step;
    if events != [] {
      var before, e := events[..|events| - 1], events[|events| - 1];
      SerialRun(before);
      SerialStep(Run(before, true), e);
    }
  }

  lemma {:induction false} SerialStep(m: Memory, e: Event)
    requires SerialInv(m) && StartsAlone(m, e)
    ensures SerialInv(Step(m, e, true))
  {
    match e
    case StoreCtx(w, fn, ctx) =>
      if w !in m.pending {
        CallStarts(m, w, fn, ctx);
      }
    case StoreFn(w) =>
      if w in m.pending {
        CallEnds(m, w);
      }
    case LoadFn(r, i) =>
      LoadsKeepWords(m, e);
    case LoadCtx(r, j) =>
      LoadsKeepWords(m, e);
  }

  lemma {:induction false} CallStarts(m: Memory, w: nat, fn: Fn, ctx: int)
    requires SerialInv(m) && m.pending == map[]
    ensures SerialInv(Step(m, StoreCtx(w, fn, ctx), true))
  {
    var m' := Step(m, StoreCtx(w, fn, ctx), true);
    assert w in m'.pending && m'.pending == map[w := FnStore(fn, |m.fns|)];
  }

  lemma {:induction false} CallEnds(m: Memory, w: nat)
    requires SerialInv(m) && w in m.pending
    ensures SerialInv(Step(m, StoreFn(w), true))
    ensures Step(m, StoreFn(w), true).pending == map[]
  {
    var m' := Step(m, StoreFn(w), true);
    assert m'.pending == map[];
    assert m'.fns == m.fns + [m.pending[w]] && m.pending[w].ownCtx == |m.fns|;
  }

  lemma {:induction false} LoadsKeepWords(m: Memory, e: Event)
    requires e.LoadFn? || e.LoadCtx?
    ensures var m' := Step(m, e, true);
      m'.ctxs == m.ctxs && m'.fns == m.fns && m'.pending == m.pending
  {
  }

  /** With one `set_rand` call at a time, a draw that sees version i of fn sees version j >= i of ctx:
      never a new fn with an older ctx. */
  lemma {:induction false} SerialDraws(events: seq<Event>)
    requires Serial(events)
    ensures var m := Run(events, true);
      forall k :: 0 <= k < |m.draws| ==> m.draws[k].fnIndex <= m.draws[k].ctxIndex
  {
    NeverOlderThanOwn(events);
    SerialRun(events);
    var m := Run(events, true);
    forall k | 0 <= k < |m.draws| ensures m.draws[k].fnIndex <= m.draws[k].ctxIndex {
      assert DrawOk(m, m.draws[k]);
    }
  }

  // ---- what the words hold ----

  /** The arguments of the `set_rand` calls, in the order of their ctx stores. */
  function Calls(events: seq<Event>): seq<(Fn, int)> {
    if events == [] then []
    else
      var before, e := events[..|events| - 1], events[|events| - 1];
      Calls(before) +
      (if e.StoreCtx? && e.writer !in Run(before, true).pending then [(e.fn, e.ctx)] else [])
  }

  /** `fn` and the ctx store of the same call. */
  ghost predicate OfCall(calls: seq<(Fn, int)>, f: FnStore) {
    if f.ownCtx == 0 then f.fn == Null else f.ownCtx <= |calls| && f.fn == calls[f.ownCtx - 1].0
  }

  ghost predicate HoldsCalls(m: Memory, calls: seq<(Fn, int)>) {
    && |m.ctxs| == 1 + |calls|
    && (forall k :: 0 <= k < |calls| ==> m.ctxs[k + 1] == calls[k].1)
    && (forall i :: 0 <= i < |m.fns| ==> OfCall(calls, m.fns[i]))
    && (forall w :: w in m.pending ==> OfCall(calls, m.pending[w]))
    && (forall k :: 0 <= k < |m.draws| ==> m.draws[k].fnIndex < |m.fns| && m.fns[m.draws[k].fnIndex].fn != Null)
    && (forall r :: r in m.readers && m.readers[r].holding != Nothing ==>
          m.readers[r].holding.index < |m.fns| && m.fns[m.readers[r].holding.index].fn != Null)
  }

  /** Over every run each store is an argument of a call, and a draw is made with a hook, never with NULL. */
  lemma {:induction false} StoresAreCalls(events: seq<Event>)
    ensures HoldsCalls(Run(events, true), Calls(events))
  {
    if events != [] {
      hide Step;
      var before, e := events[..|events| - 1], events[|events| - 1];
      StoresAreCalls(before);
      CallsStep(Run(before, true), e, Calls(before));
    }
  }

  lemma {:induction false} CallsStep(m: Memory, e: Event, calls: seq<(Fn, int)>)
    requires HoldsCalls(m, calls)
    ensures HoldsCalls(Step(m, e, true),
      calls + (if e.StoreCtx? && e.writer !in m.pending then [(e.fn, e.ctx)] else []))
  {
    match e
    case StoreCtx(w, fn, ctx) =>
      if w !in m.pending {
        StartsCall(m, w, fn, ctx, calls);
      }
    case StoreFn(w) =>
    case LoadFn(r, i) =>
    case LoadCtx(r, j) =>
  }

  lemma {:induction false} StartsCall(m: Memory, w: nat, fn: Fn, ctx: int, calls: seq<(Fn, int)>)
    requires HoldsCalls(m, calls) && w !in m.pending
    ensures HoldsCalls(Step(m, StoreCtx(w, fn, ctx), true), calls + [(fn, ctx)])
  {
    var m', more := Step(m, StoreCtx(w, fn, ctx), true), calls + [(fn, ctx)];
    forall i | 0 <= i < |m'.fns| ensures OfCall(more, m'.fns[i]) {
      assert OfCall(calls, m.fns[i]);
    }
    forall v | v in m'.pending ensures OfCall(more, m'.pending[v]) {
      if v != w {
        assert OfCall(calls, m.pending[v]);
      }
    }
  }

  // ---- when a swap is safe ----

  /** The newest fn and the newest ctx belong to one `set_rand` call. */
  ghost predicate Matched(m: Memory) {
    m.fns != [] && m.fns[|m.fns| - 1].ownCtx == |m.ctxs| - 1
  }

  /** The pending calls finish, in this order. */
  function Finish(m: Memory, order: seq<nat>): Memory {
    if order == [] then m
    else Step(Finish(m, order[..|order| - 1]), StoreFn(order[|order| - 1]), true)
  }

  ghost predicate CannotCross(m: Memory) {
    forall order :: Finish(m, order).pending == map[] ==> Matched(Finish(m, order))
  }

  /** At no point of the run can the words be left crossed, whatever order the pending calls finish in. */
  ghost predicate NeverCrosses(events: seq<Event>) {
    CannotCross(Run(events, true)) && (events == [] || NeverCrosses(events[..|events| - 1]))
  }

  lemma {:induction false} SerialFinish(m: Memory, order: seq<nat>)
    requires SerialInv(m)
    ensures SerialInv(Finish(m, order))
    ensures Finish(m, order).pending == map[] ==> Matched(Finish(m, order))
  {
    hide Step;
    if order != [] {
      SerialFinish(m, order[..|order| - 1]);
      SerialStep(Finish(m, order[..|order| - 1]), StoreFn(order[|order| - 1]));
    }
  }

  /** Serial calls leave the newest fn and the newest ctx of one call. */
  lemma {:induction false} SerialWordsMatch(events: seq<Event>)
    requires Serial(events) && Run(events, true).pending == map[]
    ensures Matched(Run(events, true))
  {
    SerialRun(events);
  }

  /** If a second call starts inside the first and finishes before it, the words stay crossed. */
  lemma {:induction false} OverlapCrosses(m: Memory, e: Event)
    requires SerialInv(m) && !StartsAlone(m, e)
    ensures !CannotCross(Step(m, e, true))
  {
    var w :| w in m.pending && m.pending == map[w := FnStore(m.pending[w].fn, |m.fns|)];
    var m1 := Step(m, e, true);
    var order := [e.writer, w];
    assert order[..1] == [e.writer] && order[..1][..0] == [];
    var m2 := Step(m1, StoreFn(e.writer), true);
    assert Finish(m1, [e.writer]) == m2;
    var m3 := Step(m2, StoreFn(w), true);
    assert Finish(m1, order) == m3;
    assert m3.pending == map[] && m3.fns[|m3.fns| - 1].ownCtx == |m.fns|;
  }

  /** `set_rand` calls can never leave the words crossed exactly when none starts inside another. */
  lemma {:induction false} SerialIffNeverCrosses(events: seq<Event>)
    ensures Serial(events) <==> NeverCrosses(events)
  {
    hide Step, Finish, Matched;
    if Serial(events) {
      SerialRun(events);
      forall order | Finish(Run(events, true), order).pending == map[]
        ensures Matched(Finish(Run(events, true), order))
      {
        SerialFinish(Run(events, true), order);
      }
    }
    if events != [] {
      var before, e := events[..|events| - 1], events[|events| - 1];
      SerialIffNeverCrosses(before);
      if Serial(before) && !Serial(events) {
        SerialRun(before);
        OverlapCrosses(Run(before, true), e);
      }
    }
  }

  predicate NobodyHolds(m: Memory) {
    forall r :: r in m.readers ==> m.readers[r].holding == Nothing
  }

  /** No `set_rand` call starts while a draw holds a hook, and a draw takes a hook only when no call is
      under way and it sees the newest one. */
  predicate Undisturbed(m: Memory, e: Event) {
    match e
    case StoreCtx(w, _, _) => w !in m.pending ==> NobodyHolds(m)
    case LoadFn(r, i) =>
      m.Get(r).holding == Nothing && m.Get(r).viewFn <= i < |m.fns| && m.fns[i].fn != Null ==>
        i == |m.fns| - 1 && m.pending == map[]
    case _ => true
  }

  /** The documented contract: in-flight draws are quiesced around every swap. */
  predicate Quiesced(events: seq<Event>) {
    events == [] ||
    var before, e := events[..|events| - 1], events[|events| - 1];
    Quiesced(before) && Undisturbed(Run(before, true), e)
  }

  /** Every draw so far called its hook with the hook's own ctx. */
  ghost predicate Whole(m: Memory) {
    forall k :: 0 <= k < |m.draws| ==>
      m.draws[k].fnIndex < |m.fns| && m.fns[m.draws[k].fnIndex].ownCtx == m.draws[k].ctxIndex
  }

  /** Whichever reader loads ctx next, and whichever store it gets, its draw is whole. */
  ghost predicate CannotTear(m: Memory) {
    forall r, j :: Whole(Step(m, LoadCtx(r, j), true))
  }

  ghost predicate NeverTears(events: seq<Event>) {
    CannotTear(Run(events, true)) && (events == [] || NeverTears(events[..|events| - 1]))
  }

  /** Whoever holds a hook holds the newest, and no call is under way. */
  ghost predicate QuietInv(m: Memory) {
    && Whole(m)
    && (forall r :: r in m.readers && m.readers[r].holding != Nothing ==>
          m.readers[r].holding.index == |m.fns| - 1 && m.pending == map[])
  }

  lemma {:induction false} QuietCannotTear(m: Memory)
    requires Inv(m) && SerialInv(m) && QuietInv(m)
    ensures CannotTear(m)
  {
    forall r, j ensures Whole(Step(m, LoadCtx(r, j), true)) {
      if r in m.readers {
        assert ReaderOk(m, m.readers[r]);
      }
    }
  }

  lemma {:induction false} QuietStep(m: Memory, e: Event)
    requires Inv(m) && SerialInv(m) && QuietInv(m) && Undisturbed(m, e)
    ensures QuietInv(Step(m, e, true))
  {
    match e
    case StoreCtx(w, fn, ctx) =>
    case StoreFn(w) =>
      if w in m.pending {
        QuietStore(m, w);
      }
    case LoadFn(r, i) =>
      QuietLoadFn(m, r, i);
    case LoadCtx(r, j) =>
      QuietCannotTear(m);
      assert Whole(Step(m, LoadCtx(r, j), true));
  }

  lemma {:induction false} QuietStore(m: Memory, w: nat)
    requires QuietInv(m) && w in m.pending
    ensures QuietInv(Step(m, StoreFn(w), true))
  {
    assert NobodyHolds(m);
  }

  lemma {:induction false} QuietLoadFn(m: Memory, r: nat, i: nat)
    requires QuietInv(m) && Undisturbed(m, LoadFn(r, i))
    ensures QuietInv(Step(m, LoadFn(r, i), true))
  {
    hide Whole;
    assert Whole(Step(m, LoadFn(r, i), true)) by { SameDraws(m, Step(m, LoadFn(r, i), true)); }
  }

  lemma {:induction false} SameDraws(m: Memory, m': Memory)
    requires Whole(m) && m'.draws == m.draws && m'.fns == m.fns
    ensures Whole(m')
  {
  }

  /** After a disturbance some reader can load a ctx that is not its hook's own. */
  lemma {:induction false} DisturbanceTears(m: Memory, e: Event)
    requires Inv(m) && SerialInv(m) && StartsAlone(m, e) && !Undisturbed(m, e)
    ensures !CannotTear(Step(m, e, true))
  {
    var m' := Step(m, e, true);
    StepInv(m, e);
    SerialStep(m, e);
    var r: nat;
    if e.LoadFn? {
      r := e.reader;
    } else {
      r :| r in m.readers && m.readers[r].holding != Nothing;
    }
    assert ReaderOk(m', m'.readers[r]);
    var last := Step(m', LoadCtx(r, |m'.ctxs| - 1), true);
    assert last.draws[|m'.draws|] == Draw(m'.readers[r].holding.index, |m'.ctxs| - 1);
    assert !Whole(last);
  }

  /** With one `set_rand` call at a time no draw can be torn exactly when the draws are quiesced. */
  lemma {:induction false} QuiescedIffNeverTears(events: seq<Event>)
    requires Serial(events)
    ensures Quiesced(events) <==> NeverTears(events)
    ensures Quiesced(events) ==> QuietInv(Run(events, true))
  {
    hide Step, CannotTear, QuietInv;
    NeverOlderThanOwn(events);
    SerialRun(events);
    if events == [] {
      StartIsQuiet();
    } else {
      var before, e := events[..|events| - 1], events[|events| - 1];
      QuiescedIffNeverTears(before);
      NeverOlderThanOwn(before);
      SerialRun(before);
      if Quiesced(events) {
        QuietStep(Run(before, true), e);
      } else if Quiesced(before) {
        DisturbanceTears(Run(before, true), e);
      }
    }
    if Quiesced(events) {
      QuietCannotTear(Run(events, true));
    }
  }

  lemma {:induction false} StartIsQuiet()
    ensures QuietInv(START)
  {
  }

  /** Draw `k` calls a hook with the ctx that one `set_rand` call passed along with it. */
  ghost predicate PassesOneCall(m: Memory, calls: seq<(Fn, int)>, k: nat)
    requires k < |m.draws|
  {
    var d := m.draws[k];
    && d.fnIndex < |m.fns| && 0 < d.ctxIndex < |m.ctxs| && d.ctxIndex <= |calls| && m.fns[d.fnIndex].fn.Hook?
    && calls[d.ctxIndex - 1] == (m.fns[d.fnIndex].fn, m.ctxs[d.ctxIndex])
  }

  /** The contract of the header is exact: the words can never be left crossed and no draw can ever be
      torn, precisely when calls do not overlap and draws are quiesced around them.  Then every draw sees
      the same version of both words, the hook and the ctx that one call passed together. */
  lemma {:induction false} SwapContract(events: seq<Event>)
    ensures Serial(events) && Quiesced(events) <==> NeverCrosses(events) && NeverTears(events)
    ensures Serial(events) && Quiesced(events) ==>
      forall k :: 0 <= k < |Run(events, true).draws| ==>
        Run(events, true).draws[k].fnIndex == Run(events, true).draws[k].ctxIndex
    ensures Serial(events) && Quiesced(events) ==>
      forall k :: 0 <= k < |Run(events, true).draws| ==> PassesOneCall(Run(events, true), Calls(events), k)
  {
    hide Run, Serial, Quiesced, NeverCrosses, NeverTears, Calls;
    StoresAreCalls(events);
    SerialIffNeverCrosses(events);
    if Serial(events) {
      QuiescedIffNeverTears(events);
      SerialRun(events);
    }
  }

  // ---- what the protocol does not prevent ----

  /** `n` complete `set_rand` calls by one writer; call k installs hook k with ctx k. */
  function Sets(from: nat, n: nat): seq<Event> {
    if n == 0 then [] else Sets(from, n - 1) + [StoreCtx(0, Hook(from + n), from + n), StoreFn(0)]
  }

  lemma {:induction false} RunConcat(a: seq<Event>, e: Event)
    ensures Run(a + [e], true) == Step(Run(a, true), e, true)
    ensures Serial(a + [e]) <==> Serial(a) && StartsAlone(Run(a, true), e)
  {
    assert (a + [e])[..|a|] == a;
  }

  ghost predicate Quiescent(m: Memory, from: nat) {
    m.pending == map[] && |m.fns| == |m.ctxs| == from + 1
  }

  lemma {:induction false} RunSets(a: seq<Event>, from: nat, n: nat)
    requires Serial(a) && Quiescent(Run(a, true), from)
    ensures var m, m' := Run(a, true), Run(a + Sets(from, n), true);
      && Serial(a + Sets(from, n)) && Quiescent(m', from + n) && m'.readers == m.readers && m'.draws == m.draws
      && m.fns <= m'.fns
      && forall i :: from < i <= from + n ==> m'.fns[i].fn == Hook(i)
  {
    hide Run, Serial, Step;
    if n == 0 {
      assert a + Sets(from, 0) == a;
    } else {
      RunSets(a, from, n - 1);
      var b := a + Sets(from, n - 1);
      assert a + Sets(from, n) == b + [StoreCtx(0, Hook(from + n), from + n)] + [StoreFn(0)];
      OneSet(b, from + n - 1, Hook(from + n), from + n);
    }
  }

  lemma {:induction false} OneSet(b: seq<Event>, from: nat, fn: Fn, ctx: int)
    requires Serial(b) && Quiescent(Run(b, true), from)
    ensures var m, e := Run(b, true), b + [StoreCtx(0, fn, ctx)] + [StoreFn(0)];
      && Serial(e)
      && Run(e, true) == m.(ctxs := m.ctxs + [ctx], fns := m.fns + [FnStore(fn, from + 1)])
  {
    var e, f := StoreCtx(0, fn, ctx), StoreFn(0);
    RunConcat(b, e);
    RunConcat(b + [e], f);
    var m1 := Run(b + [e], true);
    assert m1.pending == map[0 := FnStore(fn, from + 1)];
    assert m1.pending - {0} == map[];
  }

  /** The run in which a draw loads fn version i, the writer goes on to version j, and the draw then
      loads ctx version j. */
  function CrossedRun(i: nat, j: nat): seq<Event>
    requires 1 <= i <= j
  {
    Sets(0, i) + [LoadFn(0, i)] + Sets(i, j - i) + [LoadCtx(0, j)]
  }

  /** Every pairing with i <= j does happen under a single writer: an old fn with a newer ctx is not
      prevented.  Together with SerialDraws the pairs that occur are exactly those with i <= j. */
  lemma {:induction false} EveryNewerCtxHappens(i: nat, j: nat)
    requires 1 <= i <= j
    ensures Serial(CrossedRun(i, j)) && Draw(i, j) in Run(CrossedRun(i, j), true).draws
  {
    hide Run, Serial;
    var a := Sets(0, i);
    assert [] + a == a && Serial([]) && Run([], true) == START by { StartIsSerial(); }
    RunSets([], 0, i);
    RunConcat(a, LoadFn(0, i));
    SerialRun(a);
    var b := a + [LoadFn(0, i)];
    RunSets(b, i, j - i);
    RunConcat(b + Sets(i, j - i), LoadCtx(0, j));
  }

  /** A thread that has not synchronised may still load old stores: after `n` finished calls, any version
      i of fn with any version j >= i of ctx. */
  lemma {:induction false} StalePairsHappen(i: nat, j: nat, n: nat)
    requires 1 <= i <= j <= n
    ensures Serial(Sets(0, n) + [LoadFn(0, i)] + [LoadCtx(0, j)])
    ensures Run(Sets(0, n) + [LoadFn(0, i)] + [LoadCtx(0, j)], true).draws == [Draw(i, j)]
  {
    hide Run, Serial;
    var a := Sets(0, n);
    assert [] + a == a && Serial([]) && Run([], true) == START by { StartIsSerial(); }
    RunSets([], 0, n);
    SerialRun(a);
    RunConcat(a, LoadFn(0, i));
    RunConcat(a + [LoadFn(0, i)], LoadCtx(0, j));
  }

  lemma {:induction false} StartIsSerial()
    ensures Serial([]) && Run([], true) == START
  {
  }

  /** Without the acquire order a draw could pair a new fn with the ctx from before its `set_rand` call. */
  lemma {:induction false} RelaxedLoadsAreUnsafe()
    ensures var events := [StoreCtx(0, Hook(1), 1), StoreFn(0), LoadFn(0, 1), LoadCtx(0, 0)];
      && Run(events, false).draws == [Draw(1, 0)]
      && Run(events, true).draws == []
  {
    var e0, e1, e2, e3 := StoreCtx(0, Hook(1), 1), StoreFn(0), LoadFn(0, 1), LoadCtx(0, 0);
    assert [e0, e1, e2, e3][..3] == [e0, e1, e2] && [e0, e1, e2][..2] == [e0, e1];
    assert [e0, e1][..1] == [e0] && [e0][..0] == [];
    forall q: bool ensures
      && Run([e0], q) == Step(START, e0, q) && Run([e0, e1], q) == Step(Run([e0], q), e1, q)
      && Run([e0, e1, e2], q) == Step(Run([e0, e1], q), e2, q)
      && Run([e0, e1, e2, e3], q) == Step(Run([e0, e1, e2], q), e3, q)
    {
    }
  }

  /** Two overlapping `set_rand` calls can leave the words crossed for good: the newest fn belongs to
      writer 1 and the newest ctx to writer 2, and a later draw uses them together. */
  lemma {:induction false} OverlappingWritersCross()
    ensures var events := [StoreCtx(1, Hook(1), 1), StoreCtx(2, Hook(2), 2), StoreFn(2), StoreFn(1),
                           LoadFn(0, 2), LoadCtx(0, 2)];
      var m := Run(events, true);
      && m.pending == map[] && m.draws == [Draw(2, 2)] && |m.fns| == |m.ctxs| == 3
      && m.fns[2] == FnStore(Hook(1), 1) && m.ctxs[2] == 2
  {
    var e0, e1, e2, e3 := StoreCtx(1, Hook(1), 1), StoreCtx(2, Hook(2), 2), StoreFn(2), StoreFn(1);
    var e4, e5 := LoadFn(0, 2), LoadCtx(0, 2);
    hide *;
    CrossingSteps();
    RunOfSix(e0, e1, e2, e3, e4, e5);
  }

  lemma {:induction false} RunOfSix(e0: Event, e1: Event, e2: Event, e3: Event, e4: Event, e5: Event)
    ensures Run([e0, e1, e2, e3, e4, e5], true)
         == Step(Step(Step(Step(Step(Step(START, e0, true), e1, true), e2, true), e3, true), e4, true), e5, true)
  {
    assert [] + [e0] == [e0] && [e0] + [e1] == [e0, e1] && [e0, e1] + [e2] == [e0, e1, e2];
    assert [e0, e1, e2] + [e3] == [e0, e1, e2, e3] && [e0, e1, e2, e3] + [e4] == [e0, e1, e2, e3, e4];
    assert [e0, e1, e2, e3, e4] + [e5] == [e0, e1, e2, e3, e4, e5];
    StartIsSerial();
    hide Run, Serial, Step, StartsAlone;
    RunConcat([], e0);
    RunConcat([e0], e1);
    RunConcat([e0, e1], e2);
    RunConcat([e0, e1, e2], e3);
    RunConcat([e0, e1, e2, e3], e4);
    RunConcat([e0, e1, e2, e3, e4], e5);
  }

  lemma {:induction false} CrossingSteps()
    ensures var m4 := Step(Step(Step(Step(START, StoreCtx(1, Hook(1), 1), true), StoreCtx(2, Hook(2), 2), true),
                                StoreFn(2), true), StoreFn(1), true);
      var m := Step(Step(m4, LoadFn(0, 2), true), LoadCtx(0, 2), true);
      && m.pending == map[] && m.draws == [Draw(2, 2)] && |m.fns| == |m.ctxs| == 3
      && m.fns[2] == FnStore(Hook(1), 1) && m.ctxs[2] == 2
  {
    var start, h1, h2 := FnStore(Null, 0), FnStore(Hook(1), 1), FnStore(Hook(2), 2);
    var m1 := Memory([0, 1], [start], map[1 := h1], map[], []);
    var m2 := Memory([0, 1, 2], [start], map[1 := h1, 2 := h2], map[], []);
    var m3 := Memory([0, 1, 2], [start, h2], map[1 := h1], map[], []);
    var m4 := Memory([0, 1, 2], [start, h2, h1], map[], map[], []);
    assert Step(START, StoreCtx(1, Hook(1), 1), true) == m1;
    assert Step(m1, StoreCtx(2, Hook(2), 2), true) == m2;
    assert Step(m2, StoreFn(2), true) == m3 by { assert m2.pending - {2} == m3.pending; }
    assert Step(m3, StoreFn(1), true) == m4 by { assert m3.pending - {1} == m4.pending; }
  }
}
