/**
 Properties of the table over whole runs: any sequence of the operations the
 interpreted program can trigger, and the exit of a thread, where the
 interpreter schedules destructors again and again until none is left.
 */
module TlsRuns {
  import opened Tls
  import opened TlsDtors

  /** The state-changing operations on the table. */
  datatype Op =
    | CreateKey(keyDtor: Option<Instance>, bits: nat)
    | DeleteKey(key: Key)
    | Store(key: Key, thread: ThreadId, value: Option<Scalar>)
    | SetDtor(thread: ThreadId, dtor: Instance, data: Scalar)
    | ScheduleNext(thread: ThreadId, onWindows: bool)

  ghost function Step(s: TlsState, op: Op): (s': TlsState)
    ensures s.Valid() ==> s'.Valid()
    ensures s.dtorsRunning <= s'.dtorsRunning
    ensures s.nextKey <= s'.nextKey
  {
    match op
    case CreateKey(dtor, bits) => CreateTlsKey(s, dtor, bits).state
    case DeleteKey(key) => DeleteTlsKey(s, key).state
    case Store(key, t, v) => StoreTls(s, key, t, v).state
    case SetDtor(t, dtor, data) => SetThreadDtor(s, t, dtor, data).state
    case ScheduleNext(t, onWindows) => ScheduleNextTlsDtorForActiveThread(s, t, onWindows).state
  }

  ghost function Run(s: TlsState, ops: seq<Op>): TlsState
    decreases |ops|
  {
    if ops == [] then s else Run(Step(s, ops[0]), ops[1..])
  }

  /** Every reachable table satisfies the key invariant: key 0 is never in
      use and every key in use was handed out by the counter. */
  lemma {:induction false} RunPreservesValid(ops: seq<Op>)
    ensures Run(Default(), ops).Valid()
  {
    RunFromValid(Default(), ops);
  }

  lemma {:induction false} RunFromValid(s: TlsState, ops: seq<Op>)
    requires s.Valid()
    ensures Run(s, ops).Valid()
    decreases |ops|
  {
    if ops != [] {
      RunFromValid(Step(s, ops[0]), ops[1..]);
    }
  }

  /** The key counter never goes back, so a key, once handed out, is never
      handed out again, even after it has been deleted. */
  lemma {:induction false} KeyNeverReissued(s: TlsState, dtor: Option<Instance>, bits: nat,
                                            ops: seq<Op>, dtor': Option<Instance>, bits': nat)
    requires CreateTlsKey(s, dtor, bits).result.Ok?
    requires CreateTlsKey(Run(CreateTlsKey(s, dtor, bits).state, ops), dtor', bits').result.Ok?
    ensures CreateTlsKey(Run(CreateTlsKey(s, dtor, bits).state, ops), dtor', bits').result.value
            > CreateTlsKey(s, dtor, bits).result.value
  {
    CounterNeverDecreases(CreateTlsKey(s, dtor, bits).state, ops);
  }

  lemma {:induction false} CounterNeverDecreases(s: TlsState, ops: seq<Op>)
    ensures s.nextKey <= Run(s, ops).nextKey
    decreases |ops|
  {
    if ops != [] {
      CounterNeverDecreases(Step(s, ops[0]), ops[1..]);
    }
  }

  /** Once a thread has started running its destructors it stays marked. */
  lemma {:induction false} DtorsRunningNeverShrinks(s: TlsState, ops: seq<Op>)
    ensures s.dtorsRunning <= Run(s, ops).dtorsRunning
    decreases |ops|
  {
    if ops != [] {
      DtorsRunningNeverShrinks(Step(s, ops[0]), ops[1..]);
    }
  }

  /** A thread whose destructors run and whose thread-wide destructor is gone
      can never get one again: every later attempt fails without effect. */
  lemma {:induction false} ThreadDtorStaysGone(s: TlsState, t: ThreadId, ops: seq<Op>)
    requires t in s.dtorsRunning && t !in s.threadDtors
    ensures t in Run(s, ops).dtorsRunning && t !in Run(s, ops).threadDtors
    decreases |ops|
  {
    if ops != [] {
      var s' := Step(s, ops[0]);
      match ops[0] {
        case CreateKey(dtor, bits) =>
        case DeleteKey(key) =>
        case Store(key, u, v) =>
        case SetDtor(u, dtor, data) =>
        case ScheduleNext(u, onWindows) =>
      }
      assert t in s'.dtorsRunning && t !in s'.threadDtors;
      ThreadDtorStaysGone(s', t, ops[1..]);
    }
  }

  /** Outside Windows, the macOS thread-wide destructor of a thread is
      scheduled at most once: after the first scheduling step no later step
      finds it, whatever the program does in between. */
  lemma {:induction false} MacosDtorScheduledAtMostOnce(s: TlsState, t: ThreadId, ops: seq<Op>,
                                                        dtor: Instance, data: Scalar)
    ensures var later := Run(Step(s, ScheduleNext(t, false)), ops);
      && ScheduleMacosTlsDtor(later, t).result.None?
      && SetThreadDtor(later, t, dtor, data) == Transition(later, Err(DtorSetWhileRunning))
  {
    ThreadDtorStaysGone(Step(s, ScheduleNext(t, false)), t, ops);
  }

  /** On Windows the libstd thread callback of a thread is scheduled at most once. */
  lemma {:induction false} WindowsCallbackScheduledOnce(s: TlsState, t: ThreadId, ops: seq<Op>)
    ensures var later := Run(Step(s, ScheduleNext(t, true)), ops);
      ScheduleNextTlsDtorForActiveThread(later, t, true).result == []
  {
    DtorsRunningNeverShrinks(Step(s, ScheduleNext(t, true)), ops);
  }

  /** What is left to destroy for thread `t`: its non-NULL values and its
      thread-wide destructor. */
  ghost function Pending(s: TlsState, t: ThreadId): nat {
    ThreadValueCount(s.keys, t) + if t in s.threadDtors then 1 else 0
  }

  /** The destructor calls owed to thread `t`: one per value that has a
      destructor, and one for its thread-wide destructor. */
  ghost function Owed(s: TlsState, t: ThreadId): nat {
    |DtorKeys(s.keys, t)| + if t in s.threadDtors then 1 else 0
  }

  /** The destructor calls owed to thread `t`, each with its argument: the
      destructor of every value that has one, on that value, and the
      thread-wide destructor on its argument. */
  ghost function OwedCalls(s: TlsState, t: ThreadId): multiset<Call> {
    CallsFor(s.keys, t, DtorKeys(s.keys, t))
    + if t in s.threadDtors then multiset{RunDtor(s.threadDtors[t].0, s.threadDtors[t].1)} else multiset{}
  }

  /** Thread `t` has nothing left to destroy: no non-NULL value, no
      thread-wide destructor and no remembered key. */
  ghost predicate Finished(s: TlsState, t: ThreadId) {
    && (forall k :: k in s.keys ==> t !in s.keys[k].data)
    && t !in s.threadDtors
    && t !in s.lastDtorKey
  }

  lemma ClearedCountNoGrow(keys: map<Key, TlsEntry>, keys': map<Key, TlsEntry>, t: ThreadId)
    requires OnlyClears(keys, keys', t)
    ensures ThreadValueCount(keys', t) <= ThreadValueCount(keys, t)
  {
    var before := set j | j in keys && t in keys[j].data;
    var after := set j | j in keys' && t in keys'[j].data;
    assert after <= before;
    assert before == after + (before - after);
  }

  /** One exit step (outside Windows) schedules one call per destructor it
      removes from what is pending; a step that schedules nothing leaves the
      thread without values, thread-wide destructor or remembered key. */
  lemma ExitStep(s: TlsState, t: ThreadId)
    ensures var r := ScheduleNextTlsDtorForActiveThread(s, t, false);
      && |r.result| + Pending(r.state, t) <= Pending(s, t)
      && |r.result| + Owed(r.state, t) == Owed(s, t)
      && multiset(r.result) + OwedCalls(r.state, t) == OwedCalls(s, t)
      && t in r.state.dtorsRunning
      && (r.result == [] ==> Finished(r.state, t))
  {
    ExitStepPending(s, t);
    ExitStepOwed(s, t);
    ExitStepCalls(s, t);
  }

  lemma ExitStepPending(s: TlsState, t: ThreadId)
    ensures var r := ScheduleNextTlsDtorForActiveThread(s, t, false);
      && |r.result| + Pending(r.state, t) <= Pending(s, t)
      && (r.result == [] ==> Finished(r.state, t))
  {
    var running := s.(dtorsRunning := s.dtorsRunning + {t});
    var macos := ScheduleMacosTlsDtor(running, t);
    var pthread := SchedulePthreadTlsDtors(macos.state, t);
    SchedulePthreadNothingLeft(macos.state, t);
    SchedulePthreadOnlyClears(macos.state, t);
    if pthread.result.Some? {
      PthreadStepShrinks(macos.state, t);
    } else {
      ClearedCountNoGrow(macos.state.keys, pthread.state.keys, t);
    }
  }

  lemma ExitStepOwed(s: TlsState, t: ThreadId)
    ensures var r := ScheduleNextTlsDtorForActiveThread(s, t, false);
      |r.result| + Owed(r.state, t) == Owed(s, t)
  {
    var running := s.(dtorsRunning := s.dtorsRunning + {t});
    var macos := ScheduleMacosTlsDtor(running, t);
    SchedulePthreadSettlesOne(macos.state, t);
  }

  lemma ExitStepCalls(s: TlsState, t: ThreadId)
    ensures var r := ScheduleNextTlsDtorForActiveThread(s, t, false);
      multiset(r.result) + OwedCalls(r.state, t) == OwedCalls(s, t)
  {
    var running := s.(dtorsRunning := s.dtorsRunning + {t});
    var macos := ScheduleMacosTlsDtor(running, t);
    var pthread := SchedulePthreadTlsDtors(macos.state, t);
    SchedulePthreadSettlesCall(macos.state, t);
    var macosCalls := if macos.result.Some? then [macos.result.value] else [];
    assert multiset(macosCalls + CallOf(pthread.result)) == multiset(macosCalls) + multiset(CallOf(pthread.result));
  }

  /** A step that consumes pending work: it makes no more calls than the work
      it removes, and when it makes none, nothing is left. */
  ghost predicate ConsumesPending(step: TlsState -> Transition<seq<Call>>, t: ThreadId) {
    forall u :: |step(u).result| + Pending(step(u).state, t) <= Pending(u, t)
                && (step(u).result == [] ==> Finished(step(u).state, t))
  }

  /** A step that makes exactly one call per destructor call it settles. */
  ghost predicate SettlesOwed(step: TlsState -> Transition<seq<Call>>, t: ThreadId) {
    forall u :: |step(u).result| + Owed(step(u).state, t) == Owed(u, t)
  }

  /** A step whose calls are exactly the calls it takes off what `owed` counts. */
  ghost predicate SettlesOwedCalls(step: TlsState -> Transition<seq<Call>>, owed: TlsState -> multiset<Call>) {
    forall u :: multiset(step(u).result) + owed(step(u).state) == owed(u)
  }

  /** Repeats `step` at most `n` times, stopping at the first step that makes no call. */
  ghost function Drain(step: TlsState -> Transition<seq<Call>>, s: TlsState, n: nat): Transition<seq<Call>>
    decreases n
  {
    if n == 0 then Transition(s, [])
    else
      var r := step(s);
      if r.result == [] then r
      else
        var rest := Drain(step, r.state, n - 1);
        Transition(rest.state, r.result + rest.result)
  }

  lemma {:induction false} DrainFinishes(step: TlsState -> Transition<seq<Call>>, t: ThreadId, s: TlsState, n: nat)
    requires ConsumesPending(step, t)
    requires n > Pending(s, t)
    ensures Finished(Drain(step, s, n).state, t)
    ensures |Drain(step, s, n).result| <= Pending(s, t)
    decreases n
  {
    var r := step(s);
    if r.result != [] {
      var rest := Drain(step, r.state, n - 1);
      DrainFinishes(step, t, r.state, n - 1);
      assert |r.result + rest.result| == |r.result| + |rest.result|;
    }
  }

  /** Draining with a step that settles what it calls makes exactly the calls
      that were owed, less what is still owed at the end. */
  lemma {:induction false} DrainSettles(step: TlsState -> Transition<seq<Call>>, t: ThreadId, s: TlsState, n: nat)
    requires ConsumesPending(step, t) && SettlesOwed(step, t)
    requires n > Pending(s, t)
    ensures |Drain(step, s, n).result| + Owed(Drain(step, s, n).state, t) == Owed(s, t)
    decreases n
  {
    var r := step(s);
    if r.result != [] {
      var rest := Drain(step, r.state, n - 1);
      DrainSettles(step, t, r.state, n - 1);
      assert |r.result + rest.result| == |r.result| + |rest.result|;
    }
  }

  /** Draining with a step whose calls are what it settles makes exactly the
      calls owed at the start, less those still owed at the end. */
  lemma {:induction false} DrainSettlesCalls(step: TlsState -> Transition<seq<Call>>, owed: TlsState -> multiset<Call>,
                                             t: ThreadId, s: TlsState, n: nat)
    requires ConsumesPending(step, t) && SettlesOwedCalls(step, owed)
    requires n > Pending(s, t)
    ensures multiset(Drain(step, s, n).result) + owed(Drain(step, s, n).state) == owed(s)
    decreases n
  {
    var r := step(s);
    if r.result != [] {
      var rest := Drain(step, r.state, n - 1);
      DrainSettlesCalls(step, owed, t, r.state, n - 1);
      assert multiset(r.result + rest.result) == multiset(r.result) + multiset(rest.result);
    }
  }

  /** A finished thread is owed nothing. */
  lemma FinishedOwesNothing(s: TlsState, t: ThreadId)
    requires Finished(s, t)
    ensures Owed(s, t) == 0
    ensures OwedCalls(s, t) == multiset{}
  {
    assert DtorKeys(s.keys, t) == {};
  }

  /** The exit of thread `t` outside Windows: the interpreter schedules the
      next destructors each time the thread finishes the previous ones, at
      most `n` times, and stops at the first step that schedules nothing.
      The destructors themselves store nothing. */
  ghost function ExitThread(s: TlsState, t: ThreadId, n: nat): Transition<seq<Call>> {
    Drain(u => ScheduleNextTlsDtorForActiveThread(u, t, false), s, n)
  }

  /** When destructors store no new values, thread exit comes to an end: after
      more steps than there is pending work, the thread holds nothing, and at
      most one destructor call was made per value and thread-wide destructor. */
  lemma ExitThreadFinishes(s: TlsState, t: ThreadId, n: nat)
    requires n > Pending(s, t)
    ensures Finished(ExitThread(s, t, n).state, t)
    // exactly one call per value with a destructor and per thread-wide destructor
    ensures |ExitThread(s, t, n).result| == Owed(s, t)
    // each of those calls is an owed destructor on its own value
    ensures multiset(ExitThread(s, t, n).result) == OwedCalls(s, t)
    ensures |ExitThread(s, t, n).result| <= Pending(s, t)
  {
    var step := u => ScheduleNextTlsDtorForActiveThread(u, t, false);
    forall u
      ensures |step(u).result| + Pending(step(u).state, t) <= Pending(u, t)
      ensures |step(u).result| + Owed(step(u).state, t) == Owed(u, t)
      ensures multiset(step(u).result) + OwedCalls(step(u).state, t) == OwedCalls(u, t)
      ensures step(u).result == [] ==> Finished(step(u).state, t)
    {
      ExitStep(u, t);
    }
    DrainFinishes(step, t, s, n);
    DrainSettles(step, t, s, n);
    DrainSettlesCalls(step, u => OwedCalls(u, t), t, s, n);
    FinishedOwesNothing(ExitThread(s, t, n).state, t);
  }

  /** One exit step of the intended scheduler (outside Windows) consumes
      pending work in the same way. */
  lemma ExitStepMacosFirst(s: TlsState, t: ThreadId)
    ensures var r := ScheduleNextMacosFirst(s, t, false);
      && |r.result| + Pending(r.state, t) <= Pending(s, t)
      && |r.result| + Owed(r.state, t) == Owed(s, t)
      && multiset(r.result) + OwedCalls(r.state, t) == OwedCalls(s, t)
      && (r.result == [] ==> Finished(r.state, t))
  {
    if t !in s.threadDtors {
      ExitStep(s, t);
    } else {
      var r := ScheduleNextMacosFirst(s, t, false);
      assert ThreadValueCount(r.state.keys, t) == ThreadValueCount(s.keys, t);
      assert DtorKeys(r.state.keys, t) == DtorKeys(s.keys, t);
    }
  }

  /** Thread exit with the intended scheduler, outside Windows. */
  ghost function ExitThreadMacosFirst(s: TlsState, t: ThreadId, n: nat): Transition<seq<Call>> {
    Drain(u => ScheduleNextMacosFirst(u, t, false), s, n)
  }

  /** Scheduling the thread-wide destructor alone keeps thread exit finite:
      with no new stores it ends with the thread holding nothing, after at
      most one call per value and thread-wide destructor. */
  lemma ExitThreadMacosFirstFinishes(s: TlsState, t: ThreadId, n: nat)
    requires n > Pending(s, t)
    ensures Finished(ExitThreadMacosFirst(s, t, n).state, t)
    ensures |ExitThreadMacosFirst(s, t, n).result| == Owed(s, t)
    ensures multiset(ExitThreadMacosFirst(s, t, n).result) == OwedCalls(s, t)
    ensures |ExitThreadMacosFirst(s, t, n).result| <= Pending(s, t)
  {
    var step := u => ScheduleNextMacosFirst(u, t, false);
    forall u
      ensures |step(u).result| + Pending(step(u).state, t) <= Pending(u, t)
      ensures |step(u).result| + Owed(step(u).state, t) == Owed(u, t)
      ensures multiset(step(u).result) + OwedCalls(step(u).state, t) == OwedCalls(u, t)
      ensures step(u).result == [] ==> Finished(step(u).state, t)
    {
      ExitStepMacosFirst(u, t);
    }
    DrainFinishes(step, t, s, n);
    DrainSettles(step, t, s, n);
    DrainSettlesCalls(step, u => OwedCalls(u, t), t, s, n);
    FinishedOwesNothing(ExitThreadMacosFirst(s, t, n).state, t);
  }
}
