/**
What becomes of the calls themselves, runOnEventLoop and runOnEventLoopAndWait
(`src/libevent_event_base.cc`): which are over, what they have returned and what has become of their ops;
and how the tokens in the notification pipe are used up.
*/
module NotifyCalls {
  import opened NotifyProtocol
  import opened NotifyInvariant
  import opened NotifyTheorems

  // ---- a call is over exactly when it has returned ----

  // Thread t is in the call with ticket x.
  predicate Inside(s: State, t: Tid, x: nat) {
    !PcOf(s, t).Idle? && PcOf(s, t).op.ticket == x
  }

  // Who made the call.
  function CallerOf(s: State, x: nat): Tid
    requires x in s.fates
  {
    match s.fates[x]
    case Pending(t) => t
    case Queued(i) => if i < |s.items| then s.items[i].caller else LOOP
    case Inline(_) => LOOP
  }

  predicate CallOk(s: State, x: nat) {
    && x in s.fates && (s.fates[x].Queued? ==> s.fates[x].slot < |s.items|)
    && (x in s.returned <==> !Inside(s, CallerOf(s, x), x))
  }

  ghost predicate Calls(s: State) {
    forall x: nat :: x < s.issued ==> CallOk(s, x)
  }

  // The call that a thread is in is that thread's.
  lemma OwnCall(s: State, t: Tid)
    requires Inv(s) && !PcOf(s, t).Idle?
    ensures PcOf(s, t).op.ticket in s.fates && CallerOf(s, PcOf(s, t).op.ticket) == t == PcOf(s, t).op.caller
    ensures match s.fates[PcOf(s, t).op.ticket]
            case Pending(_) => PcOf(s, t).Allocated?
            case Queued(i) => !PcOf(s, t).Allocated? && i < |s.items| && s.items[i] == PcOf(s, t).op
            case Inline(_) => false
  {
    assert ThreadOk(s, t);
    if !PcOf(s, t).Allocated? { assert ItemOk(s, PcOf(s, t).slot); }
  }

  lemma NewTicket(s: State)
    requires Inv(s)
    ensures s.issued !in s.fates && s.issued !in s.returned
  {
    assert s.issued in s.returned ==> ReturnOk(s, s.issued);
  }

  lemma {:induction false} BeginCalls(s: State, a: Action)
    requires Inv(s) && Calls(s) && Enabled(s, a) && (a.Begin? || a.RunInline?)
    ensures Calls(Apply(s, a))
  {
    hide Inv;
    var s' := Apply(s, a);
    NewTicket(s);
    forall x: nat | x < s'.issued ensures CallOk(s', x) {
      assert x < s.issued ==> CallOk(s, x);
    }
  }

  lemma {:induction false} ExchangeCalls(s: State, t: Tid)
    requires Inv(s) && Calls(s) && PcOf(s, t).Allocated?
    ensures Calls(ExchangeStep(s, t))
  {
    hide Inv;
    var s' := ExchangeStep(s, t);
    OwnCall(s, t);
    forall x: nat | x < s'.issued ensures CallOk(s', x) {
      assert CallOk(s, x);
    }
  }

  // A step of a thread inside a call returns exactly if it leaves the call.
  lemma {:induction false} MoveCalls(s: State, s': State, t: Tid)
    requires Inv(s) && Calls(s) && !PcOf(s, t).Idle?
    requires s'.fates == s.fates && s'.items == s.items && s'.issued == s.issued
    requires forall u: Tid :: u != t ==> PcOf(s', u) == PcOf(s, u)
    requires PcOf(s', t).Idle? || PcOf(s', t).op == PcOf(s, t).op
    requires s'.returned == if PcOf(s', t).Idle? then s.returned + {PcOf(s, t).op.ticket} else s.returned
    ensures Calls(s')
  {
    hide Inv;
    OwnCall(s, t);
    forall x: nat | x < s'.issued ensures CallOk(s', x) {
      assert CallOk(s, x);
    }
  }

  // The loop thread's own steps leave calls alone.
  lemma {:induction false} LoopCalls(s: State, a: Action)
    requires Calls(s) && Enabled(s, a) && !CallerStep(a) && !a.RunInline?
    ensures Calls(Apply(s, a))
  {
    var s' := Apply(s, a);
    forall x: nat | x < s'.issued ensures CallOk(s', x) {
      assert CallOk(s, x);
    }
  }

  lemma {:induction false} CallsStep(s: State, a: Action)
    requires Inv(s) && Calls(s) && Enabled(s, a)
    ensures Calls(Apply(s, a))
  {
    hide Inv, Calls;
    if a.Begin? || a.RunInline? {
      BeginCalls(s, a);
    } else if a.Exchange? {
      ExchangeCalls(s, a.t);
    } else if CallerStep(a) {
      MoveCalls(s, Apply(s, a), a.t);
    } else {
      LoopCalls(s, a);
    }
  }

  lemma {:induction false} CallsRun(s: State, run: seq<Action>)
    requires Inv(s) && Calls(s) && Legal(s, run)
    ensures Calls(Exec(s, run))
    decreases |run|
  {
    hide Inv, Calls, Enabled, Apply;
    if run != [] {
      CallsStep(s, run[0]);
      StepInv(s, run[0]);
      CallsRun(Apply(s, run[0]), run[1..]);
    }
  }

  lemma ReachableCalls(s: State)
    requires Reachable(s)
    ensures Inv(s) && Calls(s)
  {
    var dummy: Addr, run: seq<Action> :| Legal(Init(dummy), run) && s == Exec(Init(dummy), run);
    InitInv(dummy);
    RunInv(Init(dummy), run);
    InitCalls(dummy);
    CallsRun(Init(dummy), run);
  }

  lemma InitCalls(dummy: Addr)
    ensures Inv(Init(dummy)) && Calls(Init(dummy))
  {
    InitInv(dummy);
  }

  // Every call ever made has returned true unless its caller is still inside it.
  lemma CallIsOverExactly(s: State, x: nat)
    requires Reachable(s) && x < s.issued
    ensures x in s.fates && (x in s.returned <==> !Inside(s, CallerOf(s, x), x))
  {
    ReachableCalls(s);
    assert CallOk(s, x);
  }

  // The op with ticket x has been run, to its end.
  ghost predicate HasRun(s: State, x: nat) {
    TimesRun(s, x) == 1 && (s.consumer.Running? ==> s.consumer.op.ticket != x)
  }

  // A thread outside any call has had every op that it ever waited for run to its end.
  lemma IdleHasWaited(s: State, t: Tid, i: nat)
    requires Reachable(s) && PcOf(s, t).Idle? && i < |s.items| && s.items[i].caller == t
    ensures s.items[i].ticket in s.returned
    ensures s.items[i].awaited ==> HasRun(s, s.items[i].ticket)
  {
    ReachableCalls(s);
    assert ItemOk(s, i) && CallOk(s, s.items[i].ticket);
    if s.items[i].awaited { WaitedForHasRun(s, i); }
  }

  lemma WaitedForHasRun(s: State, i: nat)
    requires Inv(s) && i < |s.items| && s.items[i].awaited && s.items[i].ticket in s.returned
    ensures HasRun(s, s.items[i].ticket)
  {
    assert ItemOk(s, i) && ReturnOk(s, s.items[i].ticket) && FlagOk(s, i);
    TimesByFate(s, s.items[i].ticket);
    assert s.consumer.Running? ==> ItemOk(s, s.popped - 1);
  }

  // ---- one call, from its beginning ----

  // The call that op stands for has been begun: its node is built, or it is in the chain.
  predicate Asked(s: State, op: Op) {
    && op.ticket in s.fates
    && match s.fates[op.ticket]
       case Pending(t) => t == op.caller && PcOf(s, t).Allocated? && PcOf(s, t).op == op
       case Queued(i) => i < |s.items| && s.items[i] == op
       case Inline(_) => false
  }

  lemma {:induction false} AskedStep(s: State, a: Action, op: Op)
    requires Inv(s) && Asked(s, op) && Enabled(s, a)
    ensures Asked(Apply(s, a), op)
  {
    hide Inv;
    var s' := Apply(s, a);
    NewTicket(s);
    if a.Exchange? {
      OwnCall(s, a.t);
      assert s' == ExchangeStep(s, a.t);
    } else if CallerStep(a) {
      assert a.t != op.caller ==> PcOf(s', op.caller) == PcOf(s, op.caller);
    } else {
      assert s'.threads == s.threads && s'.items == s.items;
    }
  }

  lemma {:induction false} AskedRun(s: State, run: seq<Action>, op: Op)
    requires Inv(s) && Asked(s, op) && Legal(s, run)
    ensures Asked(Exec(s, run), op)
    decreases |run|
  {
    hide Inv, Enabled, Apply;
    if run != [] {
      AskedStep(s, run[0], op);
      StepInv(s, run[0]);
      AskedRun(Apply(s, run[0]), run[1..], op);
    }
  }

  // A call, by any thread at any time, and whatever happens afterwards: the caller stays inside it with the op
  // it came with until the call returns.  When it has returned the op has been queued, once; and a call
  // that waits has returned only after its op has been run to its end.
  lemma WhatACallComesTo(s: State, t: Tid, awaited: bool, addr: Addr, run: seq<Action>)
    requires Reachable(s) && Enabled(s, Begin(t, awaited, addr)) && Legal(Apply(s, Begin(t, awaited, addr)), run)
    ensures var e, op := Exec(Apply(s, Begin(t, awaited, addr)), run), Op(s.issued, t, awaited);
            && (op.ticket in e.returned <==> !Inside(e, t, op.ticket))
            && (Inside(e, t, op.ticket) ==> PcOf(e, t).op == op)
            && (op.ticket in e.returned ==> op in e.items)
            && (op.ticket in e.returned && awaited ==> HasRun(e, op.ticket))
  {
    var op := Op(s.issued, t, awaited);
    var s1 := Apply(s, Begin(t, awaited, addr));
    ReachableCalls(s);
    StepInv(s, Begin(t, awaited, addr));
    CallsStep(s, Begin(t, awaited, addr));
    CallsRun(s1, run);
    RunInv(s1, run);
    AskedRun(s1, run, op);
    AskedInside(Exec(s1, run), op);
  }

  lemma AskedInside(e: State, op: Op)
    requires Inv(e) && Calls(e) && Asked(e, op) && op.ticket < e.issued
    ensures op.ticket in e.returned <==> !Inside(e, op.caller, op.ticket)
    ensures Inside(e, op.caller, op.ticket) ==> PcOf(e, op.caller).op == op
    ensures op.ticket in e.returned ==> op in e.items
    ensures op.ticket in e.returned && op.awaited ==> HasRun(e, op.ticket)
  {
    hide Inv;
    assert CallOk(e, op.ticket);
    if e.fates[op.ticket].Queued? {
      var i := e.fates[op.ticket].slot;
      if op.awaited && op.ticket in e.returned { WaitedForHasRun(e, i); }
      if !PcOf(e, op.caller).Idle? { OwnCall(e, op.caller); }
    }
  }

  // The loop thread may run an op at once: that is over when it returns, and nothing is queued.
  lemma InlineRunsAtOnce(s: State, awaited: bool)
    requires Reachable(s) && Enabled(s, RunInline(awaited))
    ensures var e := Apply(s, RunInline(awaited));
            && s.issued in e.returned && HasRun(e, s.issued)
            && e.inlined == s.inlined + [Op(s.issued, LOOP, awaited)] && e.items == s.items && e.nodes == s.nodes
  {
    ReachableInv(s);
    StepInv(s, RunInline(awaited));
    TimesByFate(Apply(s, RunInline(awaited)), s.issued);
  }

  // ---- no call is held up by others ----

  // How many steps of its own a thread inside push, or with a token to write, has left at most.
  function StepsLeft(pc: Pc): nat {
    match pc
    case Allocated(_, _) => 5
    case Exchanged(_, _, _, _) => 4
    case Checked(_, _, _, _, _) => 3
    case Published(_, _, _) => 2
    case Kick(_, _) => 1
    case _ => 0
  }

  // Its next step.
  function NextStep(pc: Pc, t: Tid): Action
    requires StepsLeft(pc) > 0
  {
    match pc
    case Allocated(_, _) => Exchange(t)
    case Exchanged(_, _, _, _) => Check(t)
    case Checked(_, _, _, _, _) => Publish(t)
    case Published(_, _, _) => Recheck(t)
    case Kick(_, _) => Signal(t)
  }

  // The steps that t takes in the run, until it is out of push.
  function StepsInPush(s: State, run: seq<Action>, t: Tid): nat
    requires Legal(s, run)
    decreases |run|
  {
    if run == [] || StepsLeft(PcOf(s, t)) == 0 then 0
    else (if IsStepOf(run[0], t) then 1 else 0) + StepsInPush(Apply(s, run[0]), run[1..], t)
  }

  // Whatever the others do and wherever they stop, a thread inside push can always take its next step, and is
  // out of push after at most five of its own.
  lemma {:induction false} PushIsWaitFree(s: State, run: seq<Action>, t: Tid)
    requires Legal(s, run)
    ensures StepsInPush(s, run, t) <= StepsLeft(PcOf(s, t)) <= 5
    ensures StepsLeft(PcOf(Exec(s, run), t)) > 0 ==>
              Enabled(Exec(s, run), NextStep(PcOf(Exec(s, run), t), t))
    decreases |run|
  {
    hide Apply, Enabled, StepsLeft;
    NextIsEnabled(s, t);
    if run != [] {
      if StepsLeft(PcOf(s, t)) > 0 { StepTakesOne(s, run[0], t); }
      PushIsWaitFree(Apply(s, run[0]), run[1..], t);
    }
  }

  lemma NextIsEnabled(s: State, t: Tid)
    ensures StepsLeft(PcOf(s, t)) <= 5
    ensures StepsLeft(PcOf(s, t)) > 0 ==> Enabled(s, NextStep(PcOf(s, t), t))
  {
  }

  lemma StepTakesOne(s: State, a: Action, t: Tid)
    requires Enabled(s, a) && StepsLeft(PcOf(s, t)) > 0
    ensures if IsStepOf(a, t) then StepsLeft(PcOf(Apply(s, a), t)) < StepsLeft(PcOf(s, t))
            else PcOf(Apply(s, a), t) == PcOf(s, t)
  {
    if CallerStep(a) && a.t != t { OtherPcs(s, a, t); }
  }

  // ---- tokens ----

  function Reads(run: seq<Action>): nat {
    if run == [] then 0 else (if run[0].Consume? then 1 else 0) + Reads(run[1..])
  }

  function Writes(run: seq<Action>): nat {
    if run == [] then 0 else (if run[0].Signal? then 1 else 0) + Writes(run[1..])
  }

  // The tokens that are left after n reads: each takes eight, or what there is.
  function TokensLeft(tokens: nat, n: nat): nat {
    if tokens <= 8 * n then 0 else tokens - 8 * n
  }

  lemma {:induction false} PipeStep(s: State, a: Action)
    requires Enabled(s, a)
    ensures Apply(s, a).pipe ==
            if a.Consume? then TokensLeft(s.pipe, 1) else if a.Signal? then s.pipe + 1 else s.pipe
    ensures a.Consume? ==> s.pipe > 0
  {
  }

  // While no token is written, whatever else goes on, p tokens are used up by exactly (p + 7) / 8 reads.  In
  // general no token gets lost, and none is read that was not written.
  lemma {:induction false} TokensReadExactly(s: State, run: seq<Action>)
    requires Legal(s, run)
    ensures var e := Exec(s, run);
            && s.pipe + Writes(run) - 8 * Reads(run) <= e.pipe <= s.pipe + Writes(run)
            && (Writes(run) == 0 ==>
                && e.pipe == TokensLeft(s.pipe, Reads(run)) && Reads(run) <= (s.pipe + 7) / 8
                && (e.pipe == 0 <==> Reads(run) == (s.pipe + 7) / 8))
    decreases |run|
  {
    hide Enabled, Apply;
    if run != [] {
      PipeStep(s, run[0]);
      TokensReadExactly(Apply(s, run[0]), run[1..]);
    }
  }
}
