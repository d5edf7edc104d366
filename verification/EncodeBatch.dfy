/** chronoid/ksuid/encode_batch.c: the self-replacing dispatch pointer under any interleaving of
    callers.  The atomic pointer is its list of stores; a load may return any store that is not
    older than the last one its thread has seen. */
module EncodeBatch {
  import opened Words
  import opened Base62Text
  import opened EncodeScalar
  import EncodeAvx2

  datatype Kernel = Trampoline | Scalar | Avx2

  datatype Pc =
    | Idle
    | InTrampoline(ids: seq<Ksuid>)
    | Ready(kernel: Kernel, ids: seq<Ksuid>)

  /** `seen` is the newest store this thread has observed, `resolves` how often it consulted the
      environment and the CPU. */
  datatype Thread = Thread(seen: nat, pc: Pc, resolves: nat)

  datatype Proto = Proto(history: seq<Kernel>, threads: map<nat, Thread>) {
    function Get(tid: nat): Thread {
      if tid in threads then threads[tid] else Thread(0, Idle, 0)
    }
  }

  const START: Proto := Proto([Trampoline], map[])

  datatype Event =
    | Load(tid: nat, ids: seq<Ksuid>, index: nat)
    | Resolve(tid: nat, forceScalar: bool, cpuAvx2: bool)
    | Run(tid: nat)

  function Pick(forceScalar: bool, cpuAvx2: bool): Kernel {
    if !forceScalar && cpuAvx2 then Avx2 else Scalar
  }

  /** One atomic action of one thread; an action that is not enabled changes nothing. */
  function Step(s: Proto, e: Event): Proto {
    var t := s.Get(e.tid);
    match e
    case Load(tid, ids, index) =>
      if t.pc.Idle? && ids != [] && t.seen <= index < |s.history| then
        var f := s.history[index];
        s.(threads := s.threads[tid :=
          t.(seen := index, pc := if f == Trampoline then InTrampoline(ids) else Ready(f, ids))])
      else s
    case Resolve(tid, forceScalar, cpuAvx2) =>
      if t.pc.InTrampoline? then
        var k := Pick(forceScalar, cpuAvx2);
        Proto(s.history + [k], s.threads[tid := Thread(|s.history|, Ready(k, t.pc.ids), t.resolves + 1)])
      else s
    case Run(tid) =>
      if t.pc.Ready? then s.(threads := s.threads[tid := t.(pc := Idle)]) else s
  }

  function RunAll(events: seq<Event>): Proto {
    if events == [] then START else Step(RunAll(events[..|events| - 1]), events[|events| - 1])
  }

  // ---- invariant ----

  ghost predicate ThreadOk(s: Proto, t: Thread) {
    && t.seen < |s.history|
    && t.resolves <= 1
    && (t.resolves == 1 ==> t.seen > 0)
    && (t.pc.InTrampoline? ==> t.seen == 0)
    && (t.pc.Ready? ==> t.pc.kernel != Trampoline)
  }

  function Resolvers(s: Proto): set<nat> {
    set tid | tid in s.threads && s.threads[tid].resolves > 0
  }

  /** The pointer is the trampoline first and a real kernel in every later store, and there is one
      store for each thread that resolved. */
  ghost predicate Inv(s: Proto) {
    && s.history != [] && s.history[0] == Trampoline
    && (forall i :: 0 < i < |s.history| ==> s.history[i] != Trampoline)
    && (forall tid :: tid in s.threads ==> ThreadOk(s, s.threads[tid]))
    && |s.history| == 1 + |Resolvers(s)|
  }

  lemma {:induction false} StepInv(s: Proto, e: Event)
    requires Inv(s)
    ensures Inv(Step(s, e)) && s.history <= Step(s, e).history
    ensures s.Get(e.tid).seen <= Step(s, e).Get(e.tid).seen
  {
    var s' := Step(s, e);
    var t, t' := s.Get(e.tid), s'.Get(e.tid);
    assert ThreadOk(s, t);
    assert ThreadOk(s', t');
    forall tid | tid in s'.threads ensures ThreadOk(s', s'.threads[tid]) {
      if tid != e.tid {
        assert ThreadOk(s, s.threads[tid]);
      }
    }
    if e.Resolve? && t.pc.InTrampoline? {
      assert Resolvers(s') == Resolvers(s) + {e.tid};
    } else {
      assert Resolvers(s') == Resolvers(s);
    }
  }

  /** The invariant holds over every run, so the pointer never returns to the trampoline, and the
      environment and the CPU are consulted at most once per thread. */
  lemma {:induction false} RunInv(events: seq<Event>)
    ensures Inv(RunAll(events))
    ensures forall tid :: RunAll(events).Get(tid).resolves <= 1
  {
    if events != [] {
      RunInv(events[..|events| - 1]);
      StepInv(RunAll(events[..|events| - 1]), events[|events| - 1]);
    } else {
      assert Resolvers(START) == {};
    }
    var s := RunAll(events);
    forall tid ensures s.Get(tid).resolves <= 1 {
      if tid in s.threads {
        assert ThreadOk(s, s.threads[tid]);
      }
    }
  }

  lemma {:induction false} SeenAdvances(events: seq<Event>, more: seq<Event>, tid: nat)
    ensures RunAll(events).Get(tid).seen <= RunAll(events + more).Get(tid).seen
    decreases |more|
  {
    if more == [] {
      assert events + more == events;
    } else {
      var init, last := more[..|more| - 1], more[|more| - 1];
      SeenAdvances(events, init, tid);
      RunInv(events + init);
      StepInv(RunAll(events + init), last);
      assert (events + more)[..|events + more| - 1] == events + init;
    }
  }

  /** A thread that has once seen a real kernel is never sent through the trampoline again. */
  lemma {:induction false} OnceReplacedStaysReplaced(events: seq<Event>, more: seq<Event>, tid: nat)
    requires RunAll(events).Get(tid).seen > 0
    ensures !RunAll(events + more).Get(tid).pc.InTrampoline?
  {
    SeenAdvances(events, more, tid);
    RunInv(events + more);
    var s := RunAll(events + more);
    if tid in s.threads {
      assert ThreadOk(s, s.threads[tid]);
    }
  }

  // ---- how often the environment is consulted ----

  /** How many resolutions a run performed. */
  function Consultations(events: seq<Event>): nat {
    if events == [] then 0
    else
      var before, e := events[..|events| - 1], events[|events| - 1];
      Consultations(before) + (if e.Resolve? && RunAll(before).Get(e.tid).pc.InTrampoline? then 1 else 0)
  }

  /** The load of a new call that finds the trampoline. */
  predicate LoadsTrampoline(s: Proto, e: Event) {
    e.Load? && s.Get(e.tid).pc.Idle? && e.ids != [] && s.Get(e.tid).seen <= e.index == 0 < |s.history|
  }

  /** The threads that loaded the trampoline. */
  function FirstCallers(events: seq<Event>): set<nat> {
    if events == [] then {}
    else
      var before, e := events[..|events| - 1], events[|events| - 1];
      FirstCallers(before) + (if LoadsTrampoline(RunAll(before), e) then {e.tid} else {})
  }

  /** After one call has loaded the trampoline, every later load returns a newer store. */
  predicate WarmedUp(events: seq<Event>) {
    events == [] ||
    var before, e := events[..|events| - 1], events[|events| - 1];
    WarmedUp(before) && (LoadsTrampoline(RunAll(before), e) ==> FirstCallers(before) == {})
  }

  function Inside(s: Proto): set<nat> {
    set tid | tid in s.threads && s.threads[tid].pc.InTrampoline?
  }

  lemma {:induction false} NoCallers()
    ensures Resolvers(START) == {} && Inside(START) == {}
  {
  }

  lemma {:induction false} Last(events: seq<Event>)
    requires events != []
    ensures var before, e := events[..|events| - 1], events[|events| - 1];
      var s := RunAll(before);
      && RunAll(events) == Step(s, e)
      && FirstCallers(events) == FirstCallers(before) + (if LoadsTrampoline(s, e) then {e.tid} else {})
      && Consultations(events) == Consultations(before) + (if e.Resolve? && s.Get(e.tid).pc.InTrampoline? then 1 else 0)
      && WarmedUp(events) == (WarmedUp(before) && (LoadsTrampoline(s, e) ==> FirstCallers(before) == {}))
  {
  }

  /** Loading the trampoline is what leads to a resolution, and nothing else is. */
  lemma {:induction false} FirstCallersResolve(events: seq<Event>)
    ensures var s := RunAll(events);
      && FirstCallers(events) == Resolvers(s) + Inside(s) && Resolvers(s) !! Inside(s)
      && Consultations(events) == |Resolvers(s)|
  {
    if events == [] {
      NoCallers();
    } else {
      hide *;
      var before, e := events[..|events| - 1], events[|events| - 1];
      var s := RunAll(before);
      FirstCallersResolve(before);
      Last(events);
      RunInv(before);
      CallerMoves(s, e);
      if LoadsTrampoline(s, e) {
        Enter(Resolvers(s), Inside(s), e.tid);
      } else if e.Resolve? && s.Get(e.tid).pc.InTrampoline? {
        Leave(Resolvers(s), Inside(s), e.tid);
      }
    }
  }

  lemma {:induction false} Enter(r: set<nat>, i: set<nat>, tid: nat)
    requires r !! i && tid !in r
    ensures r + i + {tid} == r + (i + {tid}) && r !! i + {tid}
  {
  }

  lemma {:induction false} Leave(r: set<nat>, i: set<nat>, tid: nat)
    requires r !! i && tid in i
    ensures r + i == r + {tid} + (i - {tid}) && r + {tid} !! i - {tid} && |r + {tid}| == |r| + 1
  {
  }

  lemma {:induction false} CallerMoves(s: Proto, e: Event)
    requires Inv(s)
    ensures var s' := Step(s, e);
      if LoadsTrampoline(s, e) then
        && Resolvers(s') == Resolvers(s) && Inside(s') == Inside(s) + {e.tid}
        && e.tid !in Resolvers(s) && e.tid !in Inside(s)
      else if e.Resolve? && s.Get(e.tid).pc.InTrampoline? then
        && Resolvers(s') == Resolvers(s) + {e.tid} && Inside(s') == Inside(s) - {e.tid}
        && e.tid in Inside(s) && e.tid !in Resolvers(s)
      else Resolvers(s') == Resolvers(s) && Inside(s') == Inside(s)
  {
    hide Resolvers, Inside;
    assert ThreadOk(s, s.Get(e.tid));
    var s' := Step(s, e);
    Membership(s, e.tid);
    if s' != s {
      assert s'.threads == s.threads[e.tid := s'.Get(e.tid)];
      UpdateThread(s, s', e.tid, s'.Get(e.tid));
      assert s.history[0] == Trampoline;
    }
  }

  lemma {:induction false} Membership(s: Proto, tid: nat)
    ensures tid in Resolvers(s) <==> s.Get(tid).resolves > 0
    ensures tid in Inside(s) <==> s.Get(tid).pc.InTrampoline?
  {
  }

  lemma {:induction false} UpdateThread(s: Proto, s': Proto, tid: nat, t: Thread)
    requires s'.threads == s.threads[tid := t]
    ensures Resolvers(s') == if t.resolves > 0 then Resolvers(s) + {tid} else Resolvers(s) - {tid}
    ensures Inside(s') == if t.pc.InTrampoline? then Inside(s) + {tid} else Inside(s) - {tid}
  {
  }

  /** The exact condition under which the environment is consulted at most once: no load finds the
      trampoline after another one did.  A thread inside the trampoline is about to consult it. */
  lemma {:induction false} ConsultedOnceIffWarmedUp(events: seq<Event>)
    ensures Consultations(events) + |Inside(RunAll(events))| == |FirstCallers(events)|
    ensures Consultations(events) + |Inside(RunAll(events))| <= 1 <==> WarmedUp(events)
    ensures Inside(RunAll(events)) == {} ==>
      && (Consultations(events) <= 1 <==> WarmedUp(events))
      && (Consultations(events) == 1 <==> WarmedUp(events) && FirstCallers(events) != {})
  {
    FirstCallersResolve(events);
    DisjointSize(Resolvers(RunAll(events)), Inside(RunAll(events)));
    if events != [] {
      hide *;
      var before, e := events[..|events| - 1], events[|events| - 1];
      ConsultedOnceIffWarmedUp(before);
      FirstCallersResolve(before);
      Last(events);
      RunInv(before);
      CallerMoves(RunAll(before), e);
    }
  }

  lemma {:induction false} StoresAreConsultations(events: seq<Event>)
    ensures |RunAll(events).history| == 1 + Consultations(events)
  {
    RunInv(events);
    FirstCallersResolve(events);
  }

  lemma {:induction false} DisjointSize(a: set<nat>, b: set<nat>)
    requires a !! b
    ensures |a + b| == |a| + |b|
  {
  }

  /** The comment on the override says the environment is consulted exactly once.  Two first callers
      that both load the trampoline consult it twice. */
  lemma {:induction false} ConsultedTwice(ids: seq<Ksuid>, force0: bool, cpu0: bool, force1: bool, cpu1: bool)
    requires ids != []
    ensures var events := [Load(0, ids, 0), Load(1, ids, 0), Resolve(0, force0, cpu0), Resolve(1, force1, cpu1)];
      && RunAll(events).history == [Trampoline, Pick(force0, cpu0), Pick(force1, cpu1)]
      && Consultations(events) == 2
  {
    var e0, e1, e2, e3 := Load(0, ids, 0), Load(1, ids, 0), Resolve(0, force0, cpu0), Resolve(1, force1, cpu1);
    assert [e0, e1, e2, e3][..3] == [e0, e1, e2] && [e0, e1, e2][..2] == [e0, e1];
    assert [e0, e1][..1] == [e0] && [e0][..0] == [];
    var s1 := Step(START, e0);
    var s2 := Step(s1, e1);
    var s3 := Step(s2, e2);
    assert RunAll([e0]) == s1 && RunAll([e0, e1]) == s2 && RunAll([e0, e1, e2]) == s3;
    assert s2.Get(1).pc.InTrampoline? && s3.Get(1) == s2.Get(1);
    StoresAreConsultations([e0, e1, e2, e3]);
  }

  /** A thread that has not seen the replacement may still load the trampoline afterwards. */
  lemma {:induction false} StaleLoadHappens(ids: seq<Ksuid>, force: bool, cpu: bool)
    requires ids != []
    ensures var events := [Load(0, ids, 0), Resolve(0, force, cpu), Load(1, ids, 0)];
      && RunAll(events).history == [Trampoline, Pick(force, cpu)]
      && RunAll(events).Get(1).pc == InTrampoline(ids)
  {
    var e0, e1, e2 := Load(0, ids, 0), Resolve(0, force, cpu), Load(1, ids, 0);
    assert [e0, e1, e2][..2] == [e0, e1] && [e0, e1][..1] == [e0] && [e0][..0] == [];
    var s1 := Step(START, e0);
    var s2 := Step(s1, e1);
    assert RunAll([e0]) == s1 && RunAll([e0, e1]) == s2;
  }

  /** What each resolution found, in order: whether the override is set, whether the CPU has AVX2. */
  function Answers(events: seq<Event>): seq<(bool, bool)> {
    if events == [] then []
    else
      var before, e := events[..|events| - 1], events[|events| - 1];
      Answers(before) +
      (if e.Resolve? && RunAll(before).Get(e.tid).pc.InTrampoline? then [(e.forceScalar, e.cpuAvx2)] else [])
  }

  /** Each store is the vector kernel when its resolution found AVX2 and no override, and the scalar kernel
      otherwise. */
  lemma {:induction false} StoresFollowAnswers(events: seq<Event>)
    ensures var h, a := RunAll(events).history, Answers(events);
      && |h| == 1 + |a|
      && forall i :: 0 <= i < |a| ==> h[i + 1] == if !a[i].0 && a[i].1 then Avx2 else Scalar
  {
    if events != [] {
      StoresFollowAnswers(events[..|events| - 1]);
    }
  }

  ghost predicate OnlyScalar(s: Proto) {
    && (forall i :: 0 < i < |s.history| ==> s.history[i] == Scalar)
    && (forall tid :: tid in s.threads && s.threads[tid].pc.Ready? ==> s.threads[tid].pc.kernel == Scalar)
  }

  /** The kill switch: if every resolution finds the override set, or no AVX2, the vector kernel is
      never selected by any thread. */
  lemma {:induction false} KillSwitch(events: seq<Event>)
    requires forall i :: 0 <= i < |events| && events[i].Resolve? ==> events[i].forceScalar || !events[i].cpuAvx2
    ensures OnlyScalar(RunAll(events))
  {
    if events != [] {
      var before, e := events[..|events| - 1], events[|events| - 1];
      KillSwitch(before);
      RunInv(before);
      assert ThreadOk(RunAll(before), RunAll(before).Get(e.tid));
    }
  }

  // ---- the protocol with the kernels in it ----

  datatype Call = Call(tid: nat, ids: seq<Ksuid>, output: seq<byte>)

  /** The call that an action completes, with the reference output. */
  function Finished(s: Proto, e: Event): seq<Call> {
    var t := s.Get(e.tid);
    if e.Run? && t.pc.Ready? then [Call(e.tid, t.pc.ids, BatchText(t.pc.ids))] else []
  }

  function AllFinished(events: seq<Event>): seq<Call> {
    if events == [] then []
    else AllFinished(events[..|events| - 1]) + Finished(RunAll(events[..|events| - 1]), events[|events| - 1])
  }

  /** Every finished call has the reference output of the identifiers it was made with. */
  ghost predicate Reference(calls: seq<Call>) {
    forall k :: 0 <= k < |calls| ==> calls[k].output == BatchText(calls[k].ids)
  }

  lemma {:induction false} FinishedAreReference(events: seq<Event>)
    ensures Reference(AllFinished(events))
  {
    hide BatchText, Step;
    if events != [] {
      FinishedAreReference(events[..|events| - 1]);
    }
  }

  /** The call that an action starts, if it is one of this thread. */
  function Started(s: Proto, e: Event, tid: nat): seq<seq<Ksuid>> {
    var t := s.Get(tid);
    if e.Load? && e.tid == tid && t.pc.Idle? && e.ids != [] && t.seen <= e.index < |s.history| then [e.ids] else []
  }

  /** The id lists of a thread's calls, in the order it made them. */
  function Made(events: seq<Event>, tid: nat): seq<seq<Ksuid>> {
    if events == [] then []
    else
      var before, e := events[..|events| - 1], events[|events| - 1];
      Made(before, tid) + Started(RunAll(before), e, tid)
  }

  /** The id lists of a thread's calls among the finished ones. */
  function FinishedBy(calls: seq<Call>, tid: nat): seq<seq<Ksuid>> {
    if calls == [] then []
    else
      var last := calls[|calls| - 1];
      FinishedBy(calls[..|calls| - 1], tid) + (if last.tid == tid then [last.ids] else [])
  }

  /** The call a thread is in the middle of. */
  function UnderWay(s: Proto, tid: nat): seq<seq<Ksuid>> {
    var pc := s.Get(tid).pc;
    if pc.Idle? then [] else [pc.ids]
  }

  lemma {:induction false} CallStep(s: Proto, e: Event, tid: nat)
    ensures UnderWay(s, tid) + Started(s, e, tid) == FinishedBy(Finished(s, e), tid) + UnderWay(Step(s, e), tid)
  {
    hide BatchText, Pick;
    assert FinishedBy([], tid) == [];
    if e.Run? && s.Get(e.tid).pc.Ready? {
      var calls := Finished(s, e);
      assert calls[..0] == [];
      assert FinishedBy(calls, tid) == if e.tid == tid then [s.Get(e.tid).pc.ids] else [];
    }
  }

  lemma {:induction false} FinishedByConcat(done: seq<Call>, more: seq<Call>, tid: nat)
    requires |more| <= 1
    ensures FinishedBy(done + more, tid) == FinishedBy(done, tid) + FinishedBy(more, tid)
  {
    if more == [] {
      assert done + more == done;
    } else {
      assert (done + more)[..|done|] == done && more[..0] == [];
    }
  }

  /** No call is lost, repeated, reordered or given other identifiers. */
  lemma {:induction false} CallsFinishInOrder(events: seq<Event>, tid: nat)
    ensures Made(events, tid) == FinishedBy(AllFinished(events), tid) + UnderWay(RunAll(events), tid)
  {
    if events == [] {
      NothingMade(tid);
    } else {
      hide *;
      var before, e := events[..|events| - 1], events[|events| - 1];
      var s := RunAll(before);
      CallsFinishInOrder(before, tid);
      LastCall(events, tid);
      CallStep(s, e, tid);
      FinishedByConcat(AllFinished(before), Finished(s, e), tid);
      Rejoin(FinishedBy(AllFinished(before), tid), UnderWay(s, tid), Started(s, e, tid),
             FinishedBy(Finished(s, e), tid), UnderWay(RunAll(events), tid));
    }
  }

  lemma {:induction false} LastCall(events: seq<Event>, tid: nat)
    requires events != []
    ensures var before, e := events[..|events| - 1], events[|events| - 1];
      && RunAll(events) == Step(RunAll(before), e)
      && Made(events, tid) == Made(before, tid) + Started(RunAll(before), e, tid)
      && AllFinished(events) == AllFinished(before) + Finished(RunAll(before), e)
      && |Finished(RunAll(before), e)| <= 1
  {
    hide BatchText, Step, Started;
  }

  lemma {:induction false} Rejoin(finished: seq<seq<Ksuid>>, before: seq<seq<Ksuid>>, started: seq<seq<Ksuid>>,
                                  more: seq<seq<Ksuid>>, after: seq<seq<Ksuid>>)
    requires before + started == more + after
    ensures finished + before + started == finished + more + after
  {
    assert finished + before + started == finished + (before + started);
    assert finished + more + after == finished + (more + after);
  }

  lemma {:induction false} NothingMade(tid: nat)
    ensures Made([], tid) == FinishedBy(AllFinished([]), tid) + UnderWay(RunAll([]), tid)
  {
  }

  class Process {
    var proto: Proto
    var done: seq<Call>

    ghost predicate Valid()
      reads this
    {
      Inv(proto)
    }

    constructor ()
      ensures Valid() && done == [] && proto == START
    {
      proto := START;
      done := [];
      new;
      assert Resolvers(START) == {};
    }

    /** One action; a ready thread runs the kernel it resolved on its own buffer. */
    method Act(e: Event)
      requires Valid()
      modifies this
      ensures Valid() && proto == Step(old(proto), e)
      ensures done == old(done) + Finished(old(proto), e)
    {
      hide BatchText;
      StepInv(proto, e);
      if e.Run? {
        var t := proto.Get(e.tid);
        if t.pc.Ready? {
          assert ThreadOk(proto, t);
          var output := RunKernel(t.pc.kernel, t.pc.ids);
          done := done + [Call(e.tid, t.pc.ids, output)];
        }
      }
      proto := Step(proto, e);
    }

    /** Any schedule of any number of threads: every finished call has written the reference output,
        even when different threads resolved to different kernels. */
    method Execute(schedule: seq<Event>)
      requires Valid() && proto == START && done == []
      modifies this
      ensures Valid() && proto == RunAll(schedule)
      ensures done == AllFinished(schedule) && Reference(done)
      ensures forall tid :: Made(schedule, tid) == FinishedBy(done, tid) + UnderWay(proto, tid)
    {
      hide BatchText, Step, Finished;
      for i := 0 to |schedule|
        invariant Valid() && proto == RunAll(schedule[..i]) && done == AllFinished(schedule[..i])
      {
        Act(schedule[i]);
        assert schedule[..i + 1][..i] == schedule[..i];
      }
      assert schedule[..|schedule|] == schedule;
      FinishedAreReference(schedule);
      forall tid
        ensures Made(schedule, tid) == FinishedBy(done, tid) + UnderWay(proto, tid)
      {
        CallsFinishInOrder(schedule, tid);
      }
    }
  }

  method RunKernel(k: Kernel, ids: seq<Ksuid>) returns (output: seq<byte>)
    requires k != Trampoline
    ensures output == BatchText(ids)
  {
    hide BatchText;
    var out := new byte[STRING_LEN * |ids|];
    if k == Avx2 {
      EncodeAvx2.StringBatchAvx2(ids, out, 0);
    } else {
      StringBatchScalar(ids, 0, out, 0);
    }
    output := out[..];
    assert out[0..0 + STRING_LEN * |ids|] == output;
  }
}
