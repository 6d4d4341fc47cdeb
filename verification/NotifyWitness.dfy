/**
Two things that the protocol allows for and that do happen: a run in which the second look at tail_
compares against an address that has been freed and handed out again, and one in which the loop thread
ends up waiting for itself.
*/
module NotifyWitness {
  import opened Wrappers
  import opened NotifyProtocol
  import opened NotifyInvariant

  const A := Op(0, 1, false)
  const B := Op(1, 2, false)
  const C := Op(2, 1, false)

  lemma ReachableStep(s: State, a: Action)
    requires Reachable(s) && Enabled(s, a)
    ensures Reachable(Apply(s, a))
  {
    var dummy: Addr, run: seq<Action> :| Legal(Init(dummy), run) && s == Exec(Init(dummy), run);
    ExecAppend(Init(dummy), run, a);
  }

  lemma {:induction false} ExecAppend(s: State, run: seq<Action>, a: Action)
    requires Legal(s, run) && Enabled(Exec(s, run), a)
    ensures Legal(s, run + [a]) && Exec(s, run + [a]) == Apply(Exec(s, run), a)
    decreases |run|
  {
    if run == [] {
      assert [a][1..] == [] && run + [a] == [a];
    } else {
      assert (run + [a])[0] == run[0] && (run + [a])[1..] == run[1..] + [a];
      ExecAppend(Apply(s, run[0]), run[1..], a);
    }
  }

  lemma Start() returns (s: State)
    ensures s == Init(0) && Reachable(s)
  {
    s := Init(0);
    assert Legal(Init(0), []) && s == Exec(Init(0), []);
  }

  // One push, with nobody interfering, up to its answer or its second look at tail_.
  lemma PushOne(s: State, t: Tid, awaited: bool, addr: Addr) returns (s': State)
    requires Reachable(s) && PcOf(s, t).Idle? && (t == LOOP ==> InClientCode(s)) && addr !in s.nodes &&
             s.head in s.nodes
    ensures var op, slot := Op(s.issued, t, awaited), |s.items|;
            && Reachable(s') && s'.issued == s.issued + 1 && s'.items == s.items + [op] && s'.popped == s.popped
            && s'.nodes == s.nodes[addr := Node(Some(op), None)][s.head := s.nodes[s.head].(next := Some(addr))]
            && s'.head == addr && s'.tail == s.tail && s'.consumer == s.consumer
            && PcOf(s', t) == (if s.head == s.tail then Kick(op, slot) else Published(op, s.head, slot))
            && forall u: Tid :: u != t ==> PcOf(s', u) == PcOf(s, u)
  {
    hide Reachable;
    ReachableStep(s, Begin(t, awaited, addr)); s' := BeginStep(s, t, awaited, addr);
    ReachableStep(s', Exchange(t)); s' := ExchangeStep(s', t);
    ReachableStep(s', Check(t)); s' := CheckStep(s', t);
    ReachableStep(s', Publish(t)); s' := PublishStep(s', t);
  }

  lemma SignalOne(s: State, t: Tid) returns (s': State)
    requires Reachable(s) && PcOf(s, t).Kick?
    ensures Reachable(s') && s'.issued == s.issued && s'.items == s.items && s'.popped == s.popped
    ensures s'.nodes == s.nodes && s'.head == s.head && s'.tail == s.tail && s'.consumer == s.consumer
    ensures PcOf(s', t) == AfterPush(PcOf(s, t).op, PcOf(s, t).slot)
    ensures forall u: Tid :: u != t ==> PcOf(s', u) == PcOf(s, u)
  {
    hide Reachable;
    ReachableStep(s, Signal(t));
    s' := SignalStep(s, t);
  }

  // One op popped and run.
  lemma PopOne(s: State, op: Op, next: Addr) returns (s': State)
    requires Reachable(s) && s.consumer.AtTail? && PcOf(s, LOOP).Idle? && s.tail in s.nodes &&
             s.nodes[s.tail].next == Some(next)
    requires next != s.tail && next in s.nodes && s.nodes[next].data == Some(op)
    ensures Reachable(s') && s'.issued == s.issued && s'.items == s.items && s'.popped == s.popped + 1
    ensures s'.threads == s.threads && s'.head == s.head && s'.tail == next && s'.consumer == AtTail
    ensures s'.nodes == (s.nodes - {s.tail})[next := Node(None, s.nodes[next].next)]
  {
    hide Reachable;
    ReachableStep(s, Load); s' := LoadStep(s);
    ReachableStep(s', Advance); s' := AdvanceStep(s');
    ReachableStep(s', Free); s' := FreeStep(s');
    ReachableStep(s', Take); s' := TakeStep(s');
    ReachableStep(s', Finish); s' := FinishStep(s');
  }

  // Thread 1 pushes A at address 1, thread 2 pushes B at address 2 up to its second look at tail_.
  lemma TwoPushes() returns (s: State)
    ensures Reachable(s) && s.issued == 2 && |s.items| == 2 && s.popped == 0
    ensures s.nodes == map[0 := Node(None, Some(1)), 1 := Node(Some(A), Some(2)), 2 := Node(Some(B), None)]
    ensures s.head == 2 && s.tail == 0 && s.consumer == AtTail
    ensures PcOf(s, 2) == Published(B, 1, 1) && forall u: Tid :: u != 2 ==> PcOf(s, u).Idle?
  {
    hide Reachable;
    s := Start();
    s := PushOne(s, 1, false, 1);
    s := SignalOne(s, 1);
    s := PushOne(s, 2, false, 2);
  }

  // Both are popped.
  lemma TwoPops() returns (s: State)
    ensures Reachable(s) && s.issued == 2 && |s.items| == 2 && s.popped == 2
    ensures s.nodes == map[2 := Node(None, None)] && s.head == 2 && s.tail == 2 && s.consumer == AtTail
    ensures PcOf(s, 2) == Published(B, 1, 1) && forall u: Tid :: u != 2 ==> PcOf(s, u).Idle?
  {
    hide Reachable;
    s := TwoPushes();
    ghost var before := s;
    s := PopOne(s, A, 1);
    s := PopOne(s, B, 2);
    assert forall u: Tid :: PcOf(s, u) == PcOf(before, u);
  }

  // Then thread 1 pushes C at the recycled address 1, and that is popped too: thread 2's second look
  // answers true although its own op was popped long before.
  lemma RecycledAddressAnswersTrue() returns (s: State)
    ensures Reachable(s) && PcOf(s, 2).Published? && PcOf(s, 2).slot + 1 < s.popped
    ensures s.tail == PcOf(s, 2).prev
    ensures Apply(s, Recheck(2)).answers[PcOf(s, 2).slot]
  {
    hide Reachable;
    s := TwoPops();
    s := PushOne(s, 1, false, 1);
    ghost var before := s;
    s := PopOne(s, C, 1);
    assert PcOf(s, 2) == PcOf(before, 2);
  }

  // A handler on the loop thread defers an op and waits for it: from there on the loop thread waits for
  // itself (NotifyProgress.SelfWaitIsForever).
  lemma LoopWaitsForItself() returns (s: State)
    ensures Reachable(s) && PcOf(s, LOOP).Waiting? && s.consumer.Parked? && s.taken == [] && |s.items| == 1
  {
    hide Reachable;
    s := Start();
    ReachableStep(s, Load);
    s := LoadStep(s);
    s := PushOne(s, LOOP, true, 1);
    s := SignalOne(s, LOOP);
    ReachableInv(s);
  }
}
