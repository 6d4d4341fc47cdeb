/**
Every op that is pushed eventually runs: as long as no new calls arrive, whatever order the threads
are scheduled in, the system comes to rest after boundedly many steps, with the loop thread blocked,
the pipe empty and every call answered.  The one exception is a loop thread that defers an op and
waits for it, and that thread then waits forever.
*/
module NotifyProgress {
  import opened NotifyProtocol
  import opened NotifyInvariant
  import opened NotifyTheorems
  import opened NotifyCalls

  // The steps that carry on with what has been started: no new call, and no wake-up without a token.
  predicate CarriesOn(a: Action) {
    !a.Begin? && !a.RunInline? && !a.Spurious?
  }

  predicate OnlyCarriesOn(run: seq<Action>) {
    forall a :: a in run ==> CarriesOn(a)
  }

  ghost predicate AtRest(s: State) {
    s.consumer.Parked? && !s.receiving && s.pipe == 0 && forall t: Tid :: PcOf(s, t).Idle?
  }

  // The loop thread deferred an op and waits for itself to run it.
  predicate WaitsForItself(s: State) {
    PcOf(s, LOOP).Waiting?
  }

  ghost predicate Stuck(s: State) {
    forall a :: CarriesOn(a) ==> !Enabled(s, a)
  }

  // The system comes to a stop only at rest, or when the loop thread waits for itself.
  lemma StuckOnlyAtRest(s: State)
    requires Inv(s) && Stuck(s)
    ensures AtRest(s) || WaitsForItself(s)
  {
    hide Inv;
    StuckLoop(s);
    forall t: Tid ensures PcOf(s, t).Idle? || PcOf(s, t).Waiting? {
      assert !Enabled(s, Exchange(t)) && !Enabled(s, Check(t)) && !Enabled(s, Publish(t));
      assert !Enabled(s, Recheck(t)) && !Enabled(s, Signal(t));
    }
    if !WaitsForItself(s) {
      forall t: Tid ensures PcOf(s, t).Idle? {
        QuietState(s);
        assert !Enabled(s, Wake(t));
      }
    }
  }

  lemma StuckLoop(s: State)
    requires Inv(s) && Stuck(s)
    ensures s.consumer.Parked? || WaitsForItself(s)
    ensures PcOf(s, LOOP).Idle? || WaitsForItself(s)
    ensures s.consumer.Parked? && PcOf(s, LOOP).Idle? ==> !s.receiving && s.pipe == 0
  {
    assert !Enabled(s, Load) && !Enabled(s, Advance) && !Enabled(s, Free) && !Enabled(s, Take);
    assert !Enabled(s, Finish) && !Enabled(s, Consume) && !Enabled(s, Return);
    assert !Enabled(s, Exchange(LOOP)) && !Enabled(s, Check(LOOP)) && !Enabled(s, Publish(LOOP));
    assert !Enabled(s, Recheck(LOOP)) && !Enabled(s, Signal(LOOP));
  }

  lemma StuckExactlyAtRest(s: State)
    requires Reachable(s) && !WaitsForItself(s)
    ensures Stuck(s) <==> AtRest(s)
  {
    ReachableInv(s);
    if Stuck(s) { StuckOnlyAtRest(s); }
  }

  // ---- how much is left to do ----

  function PcWeight(pc: Pc): nat {
    match pc
    case Idle => 0
    case Waiting(_, _) => 1
    case Kick(_, _) => 6
    case Published(_, _, _) => 7
    case Checked(_, _, _, _, _) => 8
    case Exchanged(_, _, _, _) => 9
    case Allocated(_, _) => 16
  }

  function ConsumerWeight(c: Consumer, receiving: bool): nat {
    var d := if receiving then 3 else 1;
    match c
    case Parked => d - 1
    case AtTail => d
    case Loaded(_) => d - 1
    case Advanced(_, _) => d + 4
    case Freed(_) => d + 3
    case Running(_) => d + 2
  }

  ghost function ThreadsWeight(threads: map<Tid, Pc>): nat
    decreases |threads|
  {
    if threads == map[] then 0
    else
      var t :| t in threads;
      PcWeight(threads[t]) + ThreadsWeight(threads - {t})
  }

  ghost function Remaining(s: State): nat
    requires s.popped <= |s.items|
  {
    ThreadsWeight(s.threads) + 4 * s.pipe + 6 * (|s.items| - s.popped) + ConsumerWeight(s.consumer, s.receiving)
  }

  lemma {:induction false} WeightSplit(threads: map<Tid, Pc>, t: Tid)
    requires t in threads
    ensures ThreadsWeight(threads) == PcWeight(threads[t]) + ThreadsWeight(threads - {t})
    decreases |threads|
  {
    var u :| u in threads && ThreadsWeight(threads) == PcWeight(threads[u]) + ThreadsWeight(threads - {u});
    if u != t {
      WeightSplit(threads - {u}, t);
      WeightSplit(threads - {t}, u);
      assert threads - {u} - {t} == threads - {t} - {u};
    }
  }

  lemma {:induction false} WeightMove(s: State, t: Tid, pc: Pc)
    ensures ThreadsWeight(s.threads[t := pc]) + PcWeight(PcOf(s, t)) == ThreadsWeight(s.threads) + PcWeight(pc)
  {
    var moved := s.threads[t := pc];
    WeightSplit(moved, t);
    if t in s.threads {
      WeightSplit(s.threads, t);
      assert moved - {t} == s.threads - {t};
    } else {
      assert moved - {t} == s.threads;
    }
  }

  lemma {:induction false} FirstHalfCounts(s: State, s': State, t: Tid)
    requires Shape(s) && Shape(s')
    requires (PcOf(s, t).Allocated? && s' == ExchangeStep(s, t))
          || (PcOf(s, t).Exchanged? && s' == CheckStep(s, t))
          || (PcOf(s, t).Checked? && s' == PublishStep(s, t))
    ensures Remaining(s') < Remaining(s)
  {
    WeightMove(s, t, PcOf(s', t));
  }

  lemma {:induction false} RecheckCounts(s: State, s': State, t: Tid)
    requires Shape(s) && Shape(s') && PcOf(s, t).Published? && s' == RecheckStep(s, t)
    ensures Remaining(s') < Remaining(s)
  {
    WeightMove(s, t, PcOf(s', t));
  }

  lemma {:induction false} LastHalfCounts(s: State, s': State, t: Tid)
    requires Shape(s) && Shape(s')
    requires (PcOf(s, t).Kick? && s' == SignalStep(s, t)) || (Enabled(s, Wake(t)) && s' == WakeStep(s, t))
    ensures Remaining(s') < Remaining(s)
  {
    WeightMove(s, t, PcOf(s', t));
  }

  lemma {:induction false} LookStepCounts(s: State, s': State)
    requires Shape(s) && Shape(s')
    requires (s.consumer.AtTail? && s' == LoadStep(s)) || (Enabled(s, Finish) && s' == FinishStep(s))
    ensures Remaining(s') < Remaining(s)
  {
  }

  lemma {:induction false} WaitStepCounts(s: State, s': State)
    requires Shape(s) && Shape(s')
    requires (Enabled(s, Consume) && s' == ConsumeStep(s)) || (Enabled(s, Return) && s' == ReturnStep(s))
    ensures Remaining(s') < Remaining(s)
  {
  }

  lemma {:induction false} PopStepCounts(s: State, s': State)
    requires Shape(s) && Shape(s')
    requires (s.consumer.Loaded? && s' == AdvanceStep(s))
          || (s.consumer.Advanced? && s' == FreeStep(s))
          || (s.consumer.Freed? && s' == TakeStep(s))
    ensures Remaining(s') < Remaining(s)
  {
  }

  lemma {:induction false} EveryStepCounts(s: State, a: Action)
    requires Enabled(s, a) && CarriesOn(a) && Shape(s) && Shape(Apply(s, a))
    ensures Remaining(Apply(s, a)) < Remaining(s)
  {
    var s' := Apply(s, a);
    match a
    case Exchange(t) => FirstHalfCounts(s, s', t);
    case Check(t) => FirstHalfCounts(s, s', t);
    case Publish(t) => FirstHalfCounts(s, s', t);
    case Recheck(t) => RecheckCounts(s, s', t);
    case Signal(t) => LastHalfCounts(s, s', t);
    case Wake(t) => LastHalfCounts(s, s', t);
    case Load => LookStepCounts(s, s');
    case Finish => LookStepCounts(s, s');
    case Consume => WaitStepCounts(s, s');
    case Return => WaitStepCounts(s, s');
    case Advance => PopStepCounts(s, s');
    case Free => PopStepCounts(s, s');
    case Take => PopStepCounts(s, s');
  }

  // However the threads are scheduled, they cannot carry on for longer than this.
  lemma {:induction false} CarryingOnIsBounded(s: State, run: seq<Action>)
    requires Inv(s) && Legal(s, run) && OnlyCarriesOn(run)
    ensures |run| <= Remaining(s)
    decreases |run|
  {
    if run != [] {
      var a := run[0];
      assert a in run;
      StepInv(s, a);
      EveryStepCounts(s, a);
      CarryingOnIsBounded(Apply(s, a), run[1..]);
    }
  }

  // A run that carries on until nothing more can be done has run every op that had been pushed when
  // it started, has answered every call, and holds no memory but the one dummy node.
  lemma EverythingPushedRuns(s: State, run: seq<Action>)
    requires Reachable(s) && Legal(s, run) && OnlyCarriesOn(run)
    requires Stuck(Exec(s, run)) && !WaitsForItself(Exec(s, run))
    ensures s.items <= Exec(s, run).taken
    ensures Exec(s, run).taken == Exec(s, run).items
    ensures AtRest(Exec(s, run)) && Exec(s, run).nodes.Keys == {Exec(s, run).head}
    ensures forall x: nat :: x < Exec(s, run).issued ==> x in Exec(s, run).returned
  {
    ReachableInv(s);
    RunInv(s, run);
    HistoryOnlyGrows(s, run);
    var e := Exec(s, run);
    StuckOnlyAtRest(e);
    QuietState(e);
    ReachableCalls(s);
    CallsRun(s, run);
    AllReturned(e);
  }

  // At rest every call ever made has returned true.
  lemma AllReturned(e: State)
    requires Calls(e) && AtRest(e)
    ensures forall x: nat :: x < e.issued ==> x in e.returned
  {
    forall x: nat | x < e.issued ensures x in e.returned { assert CallOk(e, x); }
  }

  lemma {:induction false} SelfWaitStep(s: State, a: Action)
    requires Inv(s) && WaitsForItself(s) && Enabled(s, a)
    ensures WaitsForItself(Apply(s, a)) && Apply(s, a).taken == s.taken
  {
    assert ThreadOk(s, LOOP) && FlagOk(s, PcOf(s, LOOP).slot);
    if a.RunInline? {
      assert false;
    } else {
      OtherPcs(s, a, LOOP);
      if a.Exchange? { assert Apply(s, a) == ExchangeStep(s, a.t); } else { HistoryFrame(s, a); }
    }
  }

  // A loop thread that waits for itself never gets any further, whatever the others do.
  lemma {:induction false} SelfWaitIsForever(s: State, run: seq<Action>)
    requires Inv(s) && WaitsForItself(s) && Legal(s, run)
    ensures WaitsForItself(Exec(s, run)) && Exec(s, run).taken == s.taken
    decreases |run|
  {
    if run != [] {
      var a := run[0];
      SelfWaitStep(s, a);
      StepInv(s, a);
      SelfWaitIsForever(Apply(s, a), run[1..]);
    }
  }

  // ---- and when it does not come to that ----

  // The loop thread never asks to wait for an op that it defers.
  predicate NeverDefersAndWaits(run: seq<Action>) {
    forall a :: a in run ==> !(a.Begin? && a.t == LOOP && a.awaited)
  }

  // The loop thread is in no call that will wait.
  predicate WillNotWait(s: State) {
    var pc := PcOf(s, LOOP);
    pc.Idle? || (!pc.Waiting? && !pc.op.awaited)
  }

  lemma {:induction false} WillNotWaitStep(s: State, a: Action)
    requires Enabled(s, a) && WillNotWait(s) && !(a.Begin? && a.t == LOOP && a.awaited)
    ensures WillNotWait(Apply(s, a))
  {
    if a.RunInline? || (CallerStep(a) && a.t != LOOP) {
      OtherPcs(s, a, LOOP);
    }
  }

  lemma {:induction false} WillNotWaitRun(s: State, run: seq<Action>)
    requires Legal(s, run) && WillNotWait(s) && NeverDefersAndWaits(run)
    ensures WillNotWait(Exec(s, run))
    decreases |run|
  {
    if run != [] {
      assert run[0] in run;
      WillNotWaitStep(s, run[0]);
      WillNotWaitRun(Apply(s, run[0]), run[1..]);
    }
  }

  // As long as the loop thread does not do that, every run that cannot be carried on any further has run
  // every op pushed, in order, and every call has returned true.
  lemma EveryCallIsAnswered(dummy: Addr, run: seq<Action>)
    requires Legal(Init(dummy), run) && NeverDefersAndWaits(run) && Stuck(Exec(Init(dummy), run))
    ensures var e := Exec(Init(dummy), run); 
            && AtRest(e) && e.taken == e.items && e.nodes.Keys == {e.head}
            && forall x: nat :: x < e.issued ==> x in e.returned
  {
    WillNotWaitRun(Init(dummy), run);
    InitInv(dummy);
    RunInv(Init(dummy), run);
    var e := Exec(Init(dummy), run);
    StuckOnlyAtRest(e);
    QuietState(e);
    InitCalls(dummy);
    CallsRun(Init(dummy), run);
    AllReturned(e);
  }

  // Once it is in a call that will wait, it never gets out of it.
  lemma {:induction false} WillWaitStep(s: State, a: Action)
    requires Inv(s) && Enabled(s, a) && !WillNotWait(s)
    ensures !WillNotWait(Apply(s, a))
  {
    if WaitsForItself(s) {
      SelfWaitStep(s, a);
    } else if CallerStep(a) && a.t != LOOP {
      OtherPcs(s, a, LOOP);
    } else {
      assert ThreadOk(s, LOOP);
    }
  }

  lemma {:induction false} WillWaitRun(s: State, run: seq<Action>)
    requires Inv(s) && Legal(s, run) && !WillNotWait(s)
    ensures !WillNotWait(Exec(s, run))
    decreases |run|
  {
    if run != [] {
      WillWaitStep(s, run[0]);
      StepInv(s, run[0]);
      WillWaitRun(Apply(s, run[0]), run[1..]);
    }
  }

  lemma {:induction false} WillNotWaitExactly(s: State, run: seq<Action>)
    requires Inv(s) && Legal(s, run) && WillNotWait(s)
    ensures WillNotWait(Exec(s, run)) <==> NeverDefersAndWaits(run)
    decreases |run|
  {
    if run != [] {
      var a := run[0];
      StepInv(s, a);
      assert a in run;
      assert forall b :: b in run <==> b == a || b in run[1..];
      if a.Begin? && a.t == LOOP && a.awaited {
        assert !WillNotWait(Apply(s, a));
        WillWaitRun(Apply(s, a), run[1..]);
      } else {
        WillNotWaitStep(s, a);
        WillNotWaitExactly(Apply(s, a), run[1..]);
      }
    }
  }

  // A run that cannot be carried on any further has answered every call, and comes to rest, exactly if the
  // loop thread has never asked to wait for an op that it deferred; otherwise it waits for itself.
  lemma RestsExactly(dummy: Addr, run: seq<Action>)
    requires Legal(Init(dummy), run) && Stuck(Exec(Init(dummy), run))
    ensures AtRest(Exec(Init(dummy), run)) <==> NeverDefersAndWaits(run)
    ensures WaitsForItself(Exec(Init(dummy), run)) <==> !NeverDefersAndWaits(run)
  {
    InitInv(dummy);
    RunInv(Init(dummy), run);
    WillNotWaitExactly(Init(dummy), run);
    StuckOnlyAtRest(Exec(Init(dummy), run));
  }

  // And one such call is enough: no continuation of the run ever comes to rest.
  lemma NeverRestsAgain(dummy: Addr, run: seq<Action>)
    requires Legal(Init(dummy), run) && !NeverDefersAndWaits(run)
    ensures !AtRest(Exec(Init(dummy), run))
  {
    InitInv(dummy);
    WillNotWaitExactly(Init(dummy), run);
  }
}
