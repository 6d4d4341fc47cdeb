/**
What the queue and its notification path promise, for every reachable state and every run.
*/
module NotifyTheorems {
  import opened Wrappers
  import opened NotifyProtocol
  import opened NotifyInvariant

  // ---- no lost wake-up ----

  // If the loop thread is blocked while ops are left in the queue, a token is waiting for it or some
  // thread is obliged to write one.
  lemma BlockedLoopWillBeWoken(s: State)
    requires Reachable(s)
    requires s.consumer.Parked? && s.popped < |s.items|
    ensures s.pipe > 0 || exists t :: Obliged(s, t)
  {
    ReachableInv(s);
  }

  // How many of its own steps an obliged thread takes, at most, up to and including its token.
  function StepsToToken(pc: Pc): nat {
    match pc
    case Exchanged(_, _, _, _) => 4
    case Checked(_, _, _, _, _) => 3
    case Published(_, _, _) => 2
    case Kick(_, _) => 1
    case _ => 0
  }

  // A step that some thread takes in a call.
  predicate CallerStep(a: Action) {
    a.Begin? || a.Exchange? || a.Check? || a.Publish? || a.Recheck? || a.Signal? || a.Wake?
  }

  predicate IsStepOf(a: Action, t: Tid) {
    CallerStep(a) && a.t == t
  }

  function StepsOf(run: seq<Action>, t: Tid): nat {
    if run == [] then 0 else (if IsStepOf(run[0], t) then 1 else 0) + StepsOf(run[1..], t)
  }

  predicate Unparks(a: Action) {
    a.Consume? || a.Return? || a.Spurious?
  }

  predicate StaysParked(run: seq<Action>) {
    forall a :: a in run ==> !Unparks(a)
  }

  // A step taken while the loop stays blocked leaves the loop, and every thread but the acting one, alone.
  lemma {:induction false} ParkedStep(s: State, a: Action)
    requires s.consumer.Parked? && Enabled(s, a) && !Unparks(a)
    ensures CallerStep(a) || a.RunInline?
    ensures Apply(s, a).consumer == s.consumer && Apply(s, a).popped == s.popped && Apply(s, a).tail == s.tail
    ensures Apply(s, a).pipe >= s.pipe
  {
  }

  lemma {:induction false} OtherPcs(s: State, a: Action, t: Tid)
    requires Enabled(s, a) && (a.RunInline? || (CallerStep(a) && a.t != t))
    ensures PcOf(Apply(s, a), t) == PcOf(s, t)
  {
  }

  lemma {:induction false} ObligationKept(s: State, a: Action, t: Tid)
    requires Inv(s) && s.consumer.Parked? && Obliged(s, t)
    requires Enabled(s, a) && !Unparks(a)
    ensures var s' := Apply(s, a);
            && s'.consumer.Parked? && s'.pipe >= s.pipe
            && if IsStepOf(a, t)
               then s'.pipe > s.pipe || (Obliged(s', t) && StepsToToken(PcOf(s', t)) < StepsToToken(PcOf(s, t)))
               else Obliged(s', t) && PcOf(s', t) == PcOf(s, t)
  {
    ParkedStep(s, a);
    if !IsStepOf(a, t) { OtherPcs(s, a, t); }
    assert ThreadOk(s, t);
    if a == Publish(t) { assert LiveAt(s, PcOf(s, t).slot); }
  }

  lemma {:induction false} PipeGrows(s: State, run: seq<Action>)
    requires Legal(s, run) && s.consumer.Parked? && StaysParked(run)
    ensures Exec(s, run).pipe >= s.pipe
    decreases |run|
  {
    if run != [] {
      assert run[0] in run;
      ParkedStep(s, run[0]);
      PipeGrows(Apply(s, run[0]), run[1..]);
    }
  }

  // An obliged thread writes its token within four of its own steps if the loop stays blocked,
  // whatever the other threads do in between.
  lemma {:induction false} ObligedThreadSignals(s: State, run: seq<Action>, t: Tid)
    requires Inv(s) && s.consumer.Parked? && Obliged(s, t)
    requires Legal(s, run) && StaysParked(run)
    requires StepsOf(run, t) >= StepsToToken(PcOf(s, t))
    ensures Exec(s, run).pipe > s.pipe
    decreases |run|
  {
    var a := run[0];
    assert a in run;
    ObligationKept(s, a, t);
    var s' := Apply(s, a);
    StepInv(s, a);
    if s'.pipe > s.pipe {
      PipeGrows(s', run[1..]);
    } else {
      ObligedThreadSignals(s', run[1..], t);
    }
  }

  // Once no call is under way, a blocked loop with an empty pipe has run every op ever pushed,
  // and every thread that still waits may return.
  lemma QuiescenceMeansAllRan(s: State)
    requires Reachable(s)
    requires s.consumer.Parked? && s.pipe == 0
    requires forall t: Tid :: PcOf(s, t).Idle? || PcOf(s, t).Waiting?
    ensures s.taken == s.items
    ensures forall t: Tid :: PcOf(s, t).Waiting? ==> Enabled(s, Wake(t))
    ensures s.nodes.Keys == {s.head}
  {
    ReachableInv(s);
    QuietState(s);
  }

  lemma {:induction false} QuietState(s: State)
    requires Inv(s)
    requires s.consumer.Parked? && s.pipe == 0
    requires forall t: Tid :: PcOf(s, t).Idle? || PcOf(s, t).Waiting?
    ensures s.taken == s.items
    ensures forall t: Tid :: PcOf(s, t).Waiting? ==> Enabled(s, Wake(t))
    ensures s.nodes.Keys == {s.head}
  {
    forall t: Tid | PcOf(s, t).Waiting? ensures Enabled(s, Wake(t)) {
      assert ThreadOk(s, t) && FlagOk(s, PcOf(s, t).slot);
    }
    assert LiveAt(s, s.popped);
    forall x | x in s.nodes ensures x == s.head { assert TagOk(s, x); }
  }

  // ---- order, and exactly once ----

  // The popped ops are a prefix of the ops in head_ exchange order, and each caller's ops are queued
  // in the order of its calls.
  lemma FifoInExchangeOrder(s: State)
    requires Reachable(s)
    ensures s.taken <= s.items
    ensures forall i: nat, j: nat :: i < j < |s.items| && s.items[i].caller == s.items[j].caller ==>
              s.items[i].ticket < s.items[j].ticket
  {
    ReachableInv(s);
    forall i: nat, j: nat | i < j < |s.items| && s.items[i].caller == s.items[j].caller
      ensures s.items[i].ticket < s.items[j].ticket
    {
      assert InOrder(s, i, j);
    }
  }

  // Neither order is ever revised.
  lemma {:induction false} HistoryOnlyGrows(s: State, run: seq<Action>)
    requires Legal(s, run)
    ensures s.items <= Exec(s, run).items && s.taken <= Exec(s, run).taken
    decreases |run|
  {
    if run != [] {
      HistoryStep(s, run[0]);
      HistoryOnlyGrows(Apply(s, run[0]), run[1..]);
    }
  }

  lemma {:induction false} HistoryStep(s: State, a: Action)
    requires Enabled(s, a)
    ensures s.items <= Apply(s, a).items && s.taken <= Apply(s, a).taken
  {
    if a.Exchange? {
      assert Apply(s, a) == ExchangeStep(s, a.t);
    } else if a.Take? {
      assert Apply(s, a) == TakeStep(s);
    } else {
      HistoryFrame(s, a);
    }
  }

  lemma {:induction false} HistoryFrame(s: State, a: Action)
    requires Enabled(s, a) && !a.Exchange? && !a.Take?
    ensures s.items == Apply(s, a).items && s.taken == Apply(s, a).taken
  {
    if a.Begin? || a.Check? || a.Publish? || a.Recheck? || a.Signal? || a.Wake? {
      HistoryFrameOfCaller(s, a);
    } else {
      HistoryFrameOfLoop(s, a);
    }
  }

  lemma {:induction false} HistoryFrameOfCaller(s: State, a: Action)
    requires Enabled(s, a) && (a.Begin? || a.Check? || a.Publish? || a.Recheck? || a.Signal? || a.Wake?)
    ensures s.items == Apply(s, a).items && s.taken == Apply(s, a).taken
  {
    var s' := Apply(s, a);
    match a
    case Begin(t, awaited, addr) => assert s' == BeginStep(s, t, awaited, addr);
    case Check(t) => assert s' == CheckStep(s, t);
    case Publish(t) => assert s' == PublishStep(s, t);
    case Recheck(t) => assert s' == RecheckStep(s, t);
    case Signal(t) => assert s' == SignalStep(s, t);
    case Wake(t) => assert s' == WakeStep(s, t);
  }

  lemma {:induction false} HistoryFrameOfLoop(s: State, a: Action)
    requires Enabled(s, a)
    requires a.RunInline? || a.Load? || a.Advance? || a.Free? || a.Finish? || Unparks(a)
    ensures s.items == Apply(s, a).items && s.taken == Apply(s, a).taken
  {
    var s' := Apply(s, a);
    match a
    case RunInline(awaited) => assert s' == RunInlineStep(s, awaited);
    case Load => assert s' == LoadStep(s);
    case Advance => assert s' == AdvanceStep(s);
    case Free => assert s' == FreeStep(s);
    case Finish => assert s' == FinishStep(s);
    case Consume => assert s' == ConsumeStep(s);
    case Return => assert s' == ReturnStep(s);
    case Spurious => assert s' == ReturnStep(s);
  }

  // How often the op with ticket x appears among `ops`.
  function Times(ops: seq<Op>, x: nat): nat {
    if ops == [] then 0 else Times(ops[..|ops| - 1], x) + (if ops[|ops| - 1].ticket == x then 1 else 0)
  }

  function TimesRun(s: State, x: nat): nat {
    Times(s.taken, x) + Times(s.inlined, x)
  }

  lemma {:induction false} TimesAbsent(ops: seq<Op>, x: nat)
    requires forall i :: 0 <= i < |ops| ==> ops[i].ticket != x
    ensures Times(ops, x) == 0
  {
    if ops != [] { TimesAbsent(ops[..|ops| - 1], x); }
  }

  lemma {:induction false} TimesOnce(ops: seq<Op>, x: nat, k: nat)
    requires k < |ops| && ops[k].ticket == x
    requires forall i :: 0 <= i < |ops| && i != k ==> ops[i].ticket != x
    ensures Times(ops, x) == 1
  {
    var rest := ops[..|ops| - 1];
    if k == |ops| - 1 { TimesAbsent(rest, x); } else { TimesOnce(rest, x, k); }
  }

  lemma {:induction false} TimesByFate(s: State, x: nat)
    requires Inv(s) && x in s.fates
    ensures TimesRun(s, x) ==
            match s.fates[x]
            case Pending(_) => 0
            case Inline(k) => if k < |s.inlined| && s.inlined[k].ticket == x then 1 else 0
            case Queued(i) => if i < |s.taken| && s.items[i].ticket == x then 1 else 0
  {
    forall i: nat | i < |s.items| && s.items[i].ticket == x ensures s.fates[x] == Queued(i) { assert ItemOk(s, i); }
    match s.fates[x]
    case Pending(_) =>
      TimesAbsent(s.taken, x); TimesAbsent(s.inlined, x);
    case Inline(k) =>
      TimesAbsent(s.taken, x);
      if k < |s.inlined| && s.inlined[k].ticket == x { TimesOnce(s.inlined, x, k); } else { TimesAbsent(s.inlined, x); }
    case Queued(i) =>
      TimesAbsent(s.inlined, x);
      if i < |s.taken| && s.items[i].ticket == x { TimesOnce(s.taken, x, i); } else { TimesAbsent(s.taken, x); }
  }

  // No op runs twice.
  lemma NothingRunsTwice(s: State, x: nat)
    requires Reachable(s)
    ensures TimesRun(s, x) <= 1
  {
    ReachableInv(s);
    if x in s.fates {
      TimesByFate(s, x);
    } else {
      forall i: nat | i < |s.items| ensures s.items[i].ticket != x { assert ItemOk(s, i); }
      TimesAbsent(s.taken, x);
      TimesAbsent(s.inlined, x);
    }
  }

  // x was handed out for a runOnEventLoop call that queued its op and did not wait for it.
  ghost predicate FireAndForget(s: State, x: nat) {
    exists i: nat :: i < |s.items| && s.items[i].ticket == x && !s.items[i].awaited
  }

  // A call that waits, or that runs its op at once, returns true only after its op has run, to its end and
  // exactly once.
  lemma ReturnsOnlyAfterItsOpRan(s: State, x: nat)
    requires Reachable(s)
    requires x in s.returned && !FireAndForget(s, x)
    ensures TimesRun(s, x) == 1
    ensures s.consumer.Running? ==> s.consumer.op.ticket != x
  {
    ReachableInv(s);
    assert ReturnOk(s, x);
    TimesByFate(s, x);
    if s.fates[x].Queued? {
      assert FlagOk(s, s.fates[x].slot);
    }
    if s.consumer.Running? {
      assert ItemOk(s, s.popped - 1) && FlagOk(s, s.popped - 1);
    }
  }

  // ---- reclamation ----

  // No step ever touched memory that had been freed.  The node at head_ is allocated and ends the chain;
  // the predecessor a thread is about to link to is the very node it exchanged out, still in its place.
  lemma SafeReclamation(s: State, t: Tid)
    requires Reachable(s)
    ensures !s.fault
    ensures s.head in s.nodes && s.nodes[s.head].next == None
    ensures InFlightPc(PcOf(s, t)) ==>
              var pc := PcOf(s, t);
              && pc.prev in s.nodes && s.nodes[pc.prev].next == None
              && pc.prev in s.tags && s.tags[pc.prev] == Linked(pc.slot)
    ensures s.consumer.AtTail? ==> s.tail in s.nodes
    ensures s.consumer.Advanced? ==> s.consumer.spent in s.nodes && s.consumer.spent != s.head
    ensures s.consumer.Freed? ==> s.consumer.next in s.nodes && s.nodes[s.consumer.next].data.Some?
    ensures !MidPop(s) ==> s.tail in s.nodes && s.nodes[s.tail].data == None
  {
    ReachableInv(s);
    assert LiveAt(s, |s.items|) && ThreadOk(s, t) && LiveAt(s, s.popped);
    if InFlightPc(PcOf(s, t)) { assert LiveAt(s, PcOf(s, t).slot); }
  }

  // What a step reads, writes or frees through a pointer.
  function Touched(s: State, a: Action): set<Addr> {
    match a
    case Publish(t) => if PcOf(s, t).Checked? then {PcOf(s, t).prev} else {}
    case Load => {s.tail}
    case Free => if s.consumer.Advanced? then {s.consumer.spent} else {}
    case Take => if s.consumer.Freed? then {s.consumer.next} else {}
    case _ => {}
  }

  // A fault is recorded exactly if a step touches what is not allocated, or takes data that have been taken.
  lemma FaultsAreRecorded(s: State, a: Action)
    requires Enabled(s, a)
    ensures Apply(s, a).fault <==>
            || s.fault || !(Touched(s, a) <= s.nodes.Keys)
            || (a.Take? && s.consumer.next in s.nodes && s.nodes[s.consumer.next].data == None)
  {
  }

  // And that never happens.
  lemma EveryAccessIsLive(s: State, a: Action)
    requires Reachable(s) && Enabled(s, a)
    ensures Touched(s, a) <= s.nodes.Keys && !Apply(s, a).fault
  {
    ReachableInv(s);
    StepInv(s, a);
    FaultsAreRecorded(s, a);
  }

  // With no call and no pop under way, what is allocated is the chain from the tail on, and nothing else.
  lemma NothingLeaks(s: State)
    requires Reachable(s)
    requires forall t: Tid :: !PcOf(s, t).Allocated?
    requires !s.consumer.Advanced?
    ensures |s.chain| == |s.items| + 1 && s.popped <= |s.items|
    ensures s.nodes.Keys == AddrSet(s.chain[s.popped..])
    ensures |s.nodes| == |s.items| - s.popped + 1
  {
    hide Inv, AddrSet;
    ReachableInv(s);
    ChainLength(s);
    var live := s.chain[s.popped..];
    LiveTags(s);
    AddrSetIs(live);
    forall a | a in s.nodes ensures a in live { AllLinked(s, a); }
    DistinctSize(live);
    assert |s.nodes| == |s.nodes.Keys|;
  }

  lemma ChainLength(s: State)
    requires Inv(s)
    ensures |s.chain| == |s.items| + 1 && s.popped <= |s.items|
  {
  }

  lemma AddrSetIs(xs: seq<Addr>)
    ensures forall a :: a in AddrSet(xs) <==> a in xs
  {
  }

  function AddrSet(xs: seq<Addr>): set<Addr> {
    set a | a in xs
  }

  lemma {:induction false} DistinctSize(xs: seq<Addr>)
    requires forall i, j :: 0 <= i < j < |xs| ==> xs[i] != xs[j]
    ensures |AddrSet(xs)| == |xs|
  {
    if xs == [] {
      assert AddrSet(xs) == {};
    } else {
      var rest := xs[..|xs| - 1];
      var z := xs[|xs| - 1];
      DistinctSize(rest);
      assert z !in rest;
      assert AddrSet(xs) == AddrSet(rest) + {z};
    }
  }

  lemma {:induction false} LiveTags(s: State)
    requires Inv(s)
    ensures var live := s.chain[s.popped..];
            && (forall i :: 0 <= i < |live| ==> live[i] in s.nodes)
            && forall i, j :: 0 <= i < j < |live| ==> live[i] != live[j]
  {
    var live := s.chain[s.popped..];
    forall i: nat | i < |live|
      ensures live[i] in s.nodes && live[i] in s.tags && s.tags[live[i]] == Linked(s.popped + i)
    {
      assert LiveAt(s, s.popped + i);
    }
  }

  lemma {:induction false} AllLinked(s: State, a: Addr)
    requires Inv(s) && a in s.nodes
    requires forall t: Tid :: !PcOf(s, t).Allocated?
    requires !s.consumer.Advanced?
    ensures a in s.chain[s.popped..]
  {
    assert TagOk(s, a);
    assert s.chain[s.popped..][s.tags[a].index - s.popped] == a;
  }

  // ---- the destructor ----

  // The destructor of the queue: pops, each through the same accesses as the loop thread's, until one comes
  // back empty, and then the release of the node that is left.  What is popped is dropped.
  function Destroyed(s: State): State
    requires s.consumer.AtTail?
    decreases s.nodes.Keys
  {
    var looked := LoadStep(s);
    if looked.consumer.Loaded? then Destroyed(PopRest(looked).(consumer := AtTail))
    else looked.(fault := looked.fault || looked.head !in looked.nodes, nodes := looked.nodes - {looked.head})
  }

  // A pop that has seen a next node, to its end.
  function PopRest(s: State): (r: State)
    requires s.consumer.Loaded?
    ensures r.nodes.Keys == s.nodes.Keys - {s.tail}
  {
    TakeStep(FreeStep(AdvanceStep(s)))
  }

  // No thread is inside push, and the loop thread neither waits nor is inside pop.
  ghost predicate NoCallUnderWay(s: State) {
    && (forall t :: t in s.threads ==> s.threads[t].Idle? || (s.threads[t].Waiting? && t != LOOP))
    && (s.consumer.AtTail? || InClientCode(s))
  }

  // Whatever has gone before, interleaved in whatever way: destroying the queue with no call under way frees
  // every node, touches none that is not allocated, and hands out every op left, in order.
  lemma DestructorFreesAll(s: State)
    requires Reachable(s) && NoCallUnderWay(s)
    ensures var s' := Destroyed(s.(consumer := AtTail));
            s'.nodes == map[] && !s'.fault && s'.taken == s.items
  {
    hide Inv, Destroyed;
    ReachableInv(s);
    var t := BackAtTail(s);
    DestroyedFreesAll(s.(consumer := AtTail), t);
  }

  // Apart from completion flags and from whether a token has been received, t is the same state.
  predicate SameQueue(s: State, t: State) {
    t == s.(done := t.done, receiving := t.receiving)
  }

  lemma BackAtTail(s: State) returns (t: State)
    requires Inv(s) && NoCallUnderWay(s)
    ensures Inv(t) && SameQueue(s.(consumer := AtTail), t)
  {
    hide Inv;
    t := s;
    if s.consumer.Running? {
      StepInv(s, Finish);
      t := FinishStep(s);
    } else if s.consumer.Parked? {
      StepInv(s, if s.receiving then Return else Spurious);
      t := ReturnStep(s);
    }
  }

  // The ops that are dropped set no completion flag.  In t they do, and so the invariant holds.
  lemma {:induction false} DestroyedFreesAll(s: State, t: State)
    requires s.consumer.AtTail? && SameQueue(s, t) && Inv(t) && NoCallUnderWay(t)
    ensures var s' := Destroyed(s); s'.nodes == map[] && !s'.fault && s'.taken == s.items
    decreases s.nodes.Keys
  {
    hide Inv, Enabled, Apply;
    if LoadStep(s).consumer.Loaded? {
      var t' := PopKeeps(s, t);
      var s' := PopRest(LoadStep(s)).(consumer := AtTail);
      DestroyedFreesAll(s', t');
    } else {
      EmptyAtLast(t);
    }
  }

  lemma PopKeeps(s: State, t: State) returns (t': State)
    requires s.consumer.AtTail? && LoadStep(s).consumer.Loaded? && SameQueue(s, t) && Inv(t) && NoCallUnderWay(t)
    ensures SameQueue(PopRest(LoadStep(s)).(consumer := AtTail), t') && Inv(t') && NoCallUnderWay(t')
    ensures t'.items == s.items
  {
    hide Inv;
    t' := PopStarts(t);
    t' := PopEnds(t');
  }

  lemma PopStarts(t: State) returns (t': State)
    requires t.consumer.AtTail? && LoadStep(t).consumer.Loaded? && Inv(t)
    ensures Inv(t') && t' == FreeStep(AdvanceStep(LoadStep(t)))
  {
    hide Inv;
    StepInv(t, Load);
    t' := LoadStep(t);
    StepInv(t', Advance);
    t' := AdvanceStep(t');
    StepInv(t', NotifyProtocol.Free);
    t' := FreeStep(t');
  }

  lemma PopEnds(t: State) returns (t': State)
    requires t.consumer.Freed? && Inv(t) && PcOf(t, LOOP).Idle?
    ensures TakeStep(t).consumer.Running? && PcOf(TakeStep(t), LOOP).Idle?
    ensures Inv(t') && t' == FinishStep(TakeStep(t))
  {
    hide Inv;
    RunningAfterTake(t);
    StepInv(t, Take);
    t' := TakeStep(t);
    StepInv(t', Finish);
    t' := FinishStep(t');
  }

  lemma RunningAfterTake(s: State)
    requires Inv(s) && s.consumer.Freed?
    ensures TakeStep(s).consumer.Running?
  {
    assert LiveAt(s, s.popped);
  }

  // When pop finds nothing, the node at head_ is the only one.
  lemma EmptyAtLast(s: State)
    requires Inv(s) && s.consumer.AtTail? && NoCallUnderWay(s) && !LoadStep(s).consumer.Loaded?
    ensures s.nodes.Keys == {s.head} && !LoadStep(s).fault && s.taken == s.items
  {
    assert LiveAt(s, s.popped);
    assert s.popped == |s.items|;
    forall a | a in s.nodes ensures a == s.head { AllLinked(s, a); }
  }

  // ---- what push reports ----

  // Whether the queue was empty at an exchange is on record from then on.
  lemma {:induction false} VacantKept(s: State, run: seq<Action>, i: nat)
    requires Legal(s, run) && i < |s.vacant|
    ensures i < |Exec(s, run).vacant| && Exec(s, run).vacant[i] == s.vacant[i]
    decreases |run|
  {
    hide Enabled;
    if run != [] {
      VacantStep(s, run[0]);
      VacantKept(Apply(s, run[0]), run[1..], i);
    }
  }

  lemma {:induction false} VacantStep(s: State, a: Action)
    requires Enabled(s, a)
    ensures s.vacant <= Apply(s, a).vacant
  {
  }

  // A push that finds every earlier op already popped when it swaps head_ always returns true, whatever happens
  // before it gets its answer.
  lemma EmptyAtInsertIsReported(s: State, t: Tid, run: seq<Action>)
    requires Reachable(s) && PcOf(s, t).Allocated? && s.popped == |s.items|
    requires Legal(ExchangeStep(s, t), run)
    ensures var e := Exec(ExchangeStep(s, t), run);
            |s.items| < |e.items| && e.items[|s.items|] == PcOf(s, t).op &&
            (|s.items| in e.answers ==> e.answers[|s.items|])
  {
    var s1 := ExchangeStep(s, t);
    ReachableInv(s);
    StepInv(s, Exchange(t));
    RunInv(s1, run);
    VacantKept(s1, run, |s.items|);
    HistoryOnlyGrows(s1, run);
  }

  // The second look at tail_ may compare against a recycled address, but never misses the case that
  // matters: when the pushed op is the oldest one left, it answers true.
  lemma SecondCheckNeverMisses(s: State, t: Tid)
    requires Reachable(s)
    requires PcOf(s, t).Published? && PcOf(s, t).slot == s.popped
    ensures s.tail == PcOf(s, t).prev
    ensures Apply(s, Recheck(t)).answers[PcOf(s, t).slot]
  {
    ReachableInv(s);
    assert ThreadOk(s, t);
  }

  // Run without interference, push answers exactly "every earlier op has been popped".
  lemma UninterruptedPush(s: State, t: Tid, awaited: bool, addr: Addr)
    returns (s1: State, s2: State, s3: State, s4: State)
    requires Reachable(s) && Enabled(s, Begin(t, awaited, addr))
    ensures s1 == Apply(s, Begin(t, awaited, addr))
    ensures Enabled(s1, Exchange(t)) && s2 == Apply(s1, Exchange(t))
    ensures Enabled(s2, Check(t)) && s3 == Apply(s2, Check(t))
    ensures Enabled(s3, Publish(t)) && s4 == Apply(s3, Publish(t))
    ensures s4.items == s.items + [Op(s.issued, t, awaited)]
    ensures s.popped == |s.items| ==> |s.items| in s4.answers && s4.answers[|s.items|]
    ensures s.popped != |s.items| ==> Enabled(s4, Recheck(t)) && !Apply(s4, Recheck(t)).answers[|s.items|]
  {
    ReachableInv(s);
    s1 := BeginStep(s, t, awaited, addr);
    s2 := UninterruptedExchange(s, t, awaited, addr);
    s3 := CheckStep(s2, t);
    CheckInv(s2, t);
    FirstCheckExact(s2, t);
    UninterruptedPublish(s3, t);
    s4 := PublishStep(s3, t);
  }

  lemma UninterruptedExchange(s: State, t: Tid, awaited: bool, addr: Addr) returns (s2: State)
    requires Inv(s) && Enabled(s, Begin(t, awaited, addr))
    ensures PcOf(Apply(s, Begin(t, awaited, addr)), t).Allocated?
    ensures s2 == Apply(Apply(s, Begin(t, awaited, addr)), Exchange(t))
    ensures Inv(s2) && s2.popped == s.popped && s2.items == s.items + [Op(s.issued, t, awaited)]
    ensures PcOf(s2, t).Exchanged? && PcOf(s2, t).slot == |s.items|
  {
    var s1 := BeginStep(s, t, awaited, addr);
    BeginInv(s, t, awaited, addr);
    ExchangeInv(s1, t);
    s2 := ExchangeStep(s1, t);
  }

  lemma {:induction false} UninterruptedPublish(s: State, t: Tid)
    requires Inv(s) && PcOf(s, t).Checked? && PcOf(s, t).empty == (PcOf(s, t).slot == s.popped)
    ensures var s' := PublishStep(s, t); var slot := PcOf(s, t).slot;
            && s'.items == s.items
            && if slot == s.popped then slot in s'.answers && s'.answers[slot]
               else PcOf(s', t).Published? && !RecheckStep(s', t).answers[slot]
  {
    assert ThreadOk(s, t) && LiveAt(s, PcOf(s, t).slot) && LiveAt(s, s.popped);
  }
}
