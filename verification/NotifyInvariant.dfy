/**
What every step of the protocol keeps.  The tags record what each allocated address is in use for,
and the fates what became of each ticket; both turn "no two of these are equal" into a lookup.
*/
module NotifyInvariant {
  import opened Wrappers
  import opened NotifyProtocol

  // Between the exchange and the publication.
  predicate InFlightPc(pc: Pc) {
    pc.Exchanged? || pc.Checked?
  }

  // The op in slot i is in the chain, but its node has not been published to the consumer.
  predicate InFlight(s: State, i: nat)
    requires i < |s.items|
  {
    var pc := PcOf(s, s.items[i].caller);
    InFlightPc(pc) && pc.slot == i
  }

  predicate MidPop(s: State) {
    s.consumer.Advanced? || s.consumer.Freed?
  }

  ghost predicate Shape(s: State) {
    && !s.fault
    && |s.chain| == |s.items| + 1
    && |s.vacant| == |s.items|
    && s.popped <= |s.items|
    && s.head == s.chain[|s.items|]
    && s.tail == s.chain[s.popped]
  }

  // The node at position i of the chain, from the tail on.
  predicate LiveAt(s: State, i: nat)
    requires |s.chain| == |s.items| + 1
    requires s.popped <= i <= |s.items|
  {
    var a := s.chain[i];
    && a in s.nodes
    && a in s.tags && s.tags[a] == Linked(i)
    && s.nodes[a].next == (if i == |s.items| || InFlight(s, i) then None else Some(s.chain[i + 1]))
    && (if i > s.popped || MidPop(s) then i > 0 && s.nodes[a].data == Some(s.items[i - 1]) else s.nodes[a].data == None)
  }

  ghost predicate Live(s: State)
    requires Shape(s)
  {
    forall i: nat :: s.popped <= i <= |s.items| ==> LiveAt(s, i)
  }

  predicate TagOk(s: State, a: Addr)
    requires a in s.tags
  {
    match s.tags[a]
    case Linked(i) => s.popped <= i < |s.chain| && s.chain[i] == a
    case Private(t) => PcOf(s, t).Allocated? && PcOf(s, t).cur == a
    case Retired => s.consumer.Advanced? && s.consumer.spent == a
  }

  ghost predicate Tagged(s: State) {
    && s.tags.Keys == s.nodes.Keys
    && forall a :: a in s.tags ==> TagOk(s, a)
  }

  // The op a thread holds sits in its slot.
  predicate Holds(s: State, t: Tid, op: Op, slot: nat) {
    && slot < |s.items|
    && s.items[slot] == op
    && op.caller == t
    && (t == LOOP ==> s.popped <= slot)
  }

  ghost predicate ThreadOk(s: State, t: Tid)
    requires Shape(s)
  {
    match PcOf(s, t)
    case Idle => true
    case Allocated(op, cur) =>
      && cur in s.nodes && s.nodes[cur] == Node(Some(op), None)
      && cur in s.tags && s.tags[cur] == Private(t)
      && op.caller == t
      && op.ticket < s.issued
      && op.ticket in s.fates && s.fates[op.ticket] == Pending(t)
      && forall i :: 0 <= i < |s.items| && s.items[i].caller == t ==> s.items[i].ticket < op.ticket
    case Exchanged(op, cur, prev, slot) =>
      && Holds(s, t, op, slot)
      && s.popped <= slot
      && prev == s.chain[slot] && cur == s.chain[slot + 1]
      && (s.vacant[slot] ==> s.popped == slot)
      && slot !in s.answers
    case Checked(op, cur, prev, slot, empty) =>
      && Holds(s, t, op, slot)
      && s.popped <= slot
      && prev == s.chain[slot] && cur == s.chain[slot + 1]
      && (empty ==> s.popped == slot)
      && (s.vacant[slot] ==> empty)
      && slot !in s.answers
    case Published(op, prev, slot) =>
      && Holds(s, t, op, slot)
      && prev == s.chain[slot]
      && !s.vacant[slot]
      && slot !in s.answers
    case Kick(op, slot) =>
      Holds(s, t, op, slot)
    case Waiting(op, slot) =>
      && Holds(s, t, op, slot)
      && op.awaited
  }

  ghost predicate ConsumerOk(s: State)
    requires Shape(s)
  {
    && (MidPop(s) ==> s.popped > 0)
    && s.taken == s.items[..if MidPop(s) then s.popped - 1 else s.popped]
    && (!PcOf(s, LOOP).Idle? ==> InClientCode(s))
    && match s.consumer
       case AtTail => true
       case Loaded(next) => s.popped < |s.items| && next == s.chain[s.popped + 1] && !InFlight(s, s.popped)
       case Advanced(spent, next) => next == s.tail && spent in s.nodes && spent in s.tags && s.tags[spent] == Retired
       case Freed(next) => next == s.tail
       case Running(op) => s.popped > 0 && op == s.items[s.popped - 1]
       case Parked => true
  }

  // Tickets are unique, and each caller's tickets are in order.
  predicate ItemOk(s: State, i: nat)
    requires i < |s.items|
  {
    && s.items[i].ticket in s.fates
    && s.fates[s.items[i].ticket] == Queued(i)
  }

  predicate InOrder(s: State, i: nat, j: nat)
    requires i < j < |s.items|
  {
    s.items[i].caller == s.items[j].caller ==> s.items[i].ticket < s.items[j].ticket
  }

  ghost predicate Ledger(s: State) {
    && (forall x :: x in s.fates ==> x < s.issued)
    && (forall i: nat :: i < |s.items| ==> ItemOk(s, i))
    && (forall i: nat, j: nat :: i < j < |s.items| ==> InOrder(s, i, j))
    && (forall k :: 0 <= k < |s.inlined| ==>
          s.inlined[k].ticket in s.fates && s.fates[s.inlined[k].ticket] == Inline(k))
  }

  // The op in slot i has set its completion flag, if it has one to set.
  predicate FlagOk(s: State, i: nat)
    requires i < |s.items|
  {
    s.items[i].awaited ==>
      (s.items[i].ticket in s.done <==>
       i < |s.taken| && !(s.consumer.Running? && i == |s.taken| - 1))
  }

  // A call that has returned true and had to wait did wait.
  predicate ReturnOk(s: State, x: nat) {
    x in s.fates &&
    match s.fates[x]
    case Pending(_) => false
    case Queued(i) => i < |s.items| && s.items[i].ticket == x && (s.items[i].awaited ==> x in s.done)
    case Inline(k) => k < |s.inlined| && s.inlined[k].ticket == x
  }

  ghost predicate Outcomes(s: State) {
    && (forall i: nat :: i < |s.items| ==> FlagOk(s, i))
    && (forall x :: x in s.returned ==> ReturnOk(s, x))
    && (forall x :: x in s.done ==> x in s.fates && s.fates[x].Queued?)
    && (forall i: nat :: i in s.answers ==> i < |s.items|)
    && (forall i: nat :: i < |s.vacant| && s.vacant[i] && i in s.answers ==> s.answers[i])
  }

  // Thread t is going to write a token unless the consumer moves on first.
  predicate Obliged(s: State, t: Tid) {
    match PcOf(s, t)
    case Exchanged(_, _, _, slot) => slot == s.popped
    case Checked(_, _, _, slot, _) => slot == s.popped
    case Published(_, _, slot) => slot == s.popped
    case Kick(_, _) => true
    case _ => false
  }

  ghost predicate NoLostWakeup(s: State) {
    s.consumer.Parked? && s.popped < |s.items| ==>
      s.pipe > 0 || exists t :: Obliged(s, t)
  }

  ghost predicate Inv(s: State) {
    && Shape(s)
    && Live(s)
    && Tagged(s)
    && (forall t: Tid :: ThreadOk(s, t))
    && ConsumerOk(s)
    && Ledger(s)
    && Outcomes(s)
    && NoLostWakeup(s)
  }

  lemma InitInv(dummy: Addr)
    ensures Inv(Init(dummy))
  {
    var s := Init(dummy);
    assert forall t: Tid :: PcOf(s, t).Idle?;
  }

  // ---- frames: what a step that leaves the fields of one part alone keeps ----

  predicate SameChain(s: State, s': State) {
    && s'.head == s.head && s'.tail == s.tail && s'.chain == s.chain && s'.items == s.items
    && s'.vacant == s.vacant && s'.popped == s.popped && s'.fault == s.fault
  }

  lemma MemoryFrame(s: State, s': State)
    requires Shape(s) && Live(s) && Tagged(s)
    requires SameChain(s, s') && s'.nodes == s.nodes && s'.tags == s.tags
    requires forall i: nat :: i < |s.items| ==> InFlight(s', i) == InFlight(s, i)
    requires forall t: Tid :: PcOf(s, t).Allocated? ==> PcOf(s', t) == PcOf(s, t)
    requires MidPop(s') == MidPop(s) && (s.consumer.Advanced? ==> s'.consumer == s.consumer)
    ensures Shape(s') && Live(s') && Tagged(s')
  {
    forall i: nat | s'.popped <= i <= |s'.items| ensures LiveAt(s', i) { assert LiveAt(s, i); }
    forall x | x in s'.tags ensures TagOk(s', x) { assert TagOk(s, x); }
  }

  lemma ThreadsFrame(s: State, s': State)
    requires Shape(s) && Shape(s')
    requires SameChain(s, s') && s'.threads == s.threads && s'.answers == s.answers
    requires s'.fates == s.fates && s'.issued == s.issued
    requires forall t: Tid, x: Addr :: x in s.tags && s.tags[x] == Private(t) ==>
               x in s'.tags && s'.tags[x] == Private(t) && x in s.nodes && x in s'.nodes && s'.nodes[x] == s.nodes[x]
    requires forall t: Tid :: ThreadOk(s, t)
    ensures forall t: Tid :: ThreadOk(s', t)
  {
    forall t: Tid ensures ThreadOk(s', t) { assert ThreadOk(s, t); }
  }

  lemma LedgerFrame(s: State, s': State)
    requires Ledger(s)
    requires s'.items == s.items && s'.fates == s.fates && s'.issued == s.issued && s'.inlined == s.inlined
    ensures Ledger(s')
  {
    forall i: nat | i < |s'.items| ensures ItemOk(s', i) { assert ItemOk(s, i); }
    forall i: nat, j: nat | i < j < |s'.items| ensures InOrder(s', i, j) { assert InOrder(s, i, j); }
  }

  // Threads other than t, in a step of t.
  lemma OtherThreads(s: State, s': State, t: Tid)
    requires Shape(s) && Shape(s')
    requires s.items <= s'.items && s.chain <= s'.chain && s.vacant <= s'.vacant && s'.popped == s.popped
    requires s.issued <= s'.issued
    requires forall u: Tid :: u != t ==> PcOf(s', u) == PcOf(s, u)
    requires forall i :: |s.items| <= i < |s'.items| ==> s'.items[i].caller == t
    requires forall u: Tid, x: Addr :: u != t && x in s.tags && s.tags[x] == Private(u) && x in s.nodes ==>
               x in s'.tags && s'.tags[x] == Private(u) && x in s'.nodes && s'.nodes[x] == s.nodes[x]
    requires forall u: Tid, x: nat :: u != t && x in s.fates && s.fates[x] == Pending(u) ==>
               x in s'.fates && s'.fates[x] == Pending(u)
    requires forall i: nat :: i in s'.answers ==> i in s.answers || (i < |s.items| && s.items[i].caller == t)
    requires forall u: Tid :: ThreadOk(s, u)
    ensures forall u: Tid :: u != t ==> ThreadOk(s', u)
  {
    forall u: Tid | u != t ensures ThreadOk(s', u) { assert ThreadOk(s, u); }
  }

  lemma OutcomesFrame(s: State, s': State)
    requires Outcomes(s)
    requires s'.items == s.items && s'.fates == s.fates && s'.inlined == s.inlined
    requires s'.done == s.done && s'.vacant == s.vacant
    requires s'.taken == s.taken && s'.consumer.Running? == s.consumer.Running?
    requires forall x :: x in s'.returned ==> x in s.returned || ReturnOk(s', x)
    requires forall i: nat :: i in s'.answers ==>
               i < |s.items| &&
               ((i in s.answers && s'.answers[i] == s.answers[i]) || (i < |s.vacant| && s.vacant[i] ==> s'.answers[i]))
    ensures Outcomes(s')
  {
    forall i: nat | i < |s'.items| ensures FlagOk(s', i) { assert FlagOk(s, i); }
    forall x | x in s'.returned ensures ReturnOk(s', x) { assert x in s.returned ==> ReturnOk(s, x); }
  }

  // Wake-ups stay accounted for when every obliged thread stays obliged.
  lemma WakeupFrame(s: State, s': State)
    requires Shape(s) && Shape(s') && NoLostWakeup(s)
    requires s'.popped == s.popped && s'.items == s.items && s'.consumer == s.consumer && s'.pipe >= s.pipe
    requires s'.pipe == s.pipe ==> forall u: Tid :: Obliged(s, u) ==> Obliged(s', u)
    ensures NoLostWakeup(s')
  {
    if s.consumer.Parked? && s.popped < |s.items| && s.pipe == 0 && s'.pipe == 0 {
      var u :| Obliged(s, u);
      assert Obliged(s', u);
    }
  }

  // Thread t moves from one stage to the next, perhaps writing a token, noting an answer or returning.
  function Move(s: State, t: Tid, pc: Pc, pipe: nat, answers: map<nat, bool>, returned: set<nat>): State {
    s.(threads := s.threads[t := pc], pipe := pipe, answers := answers, returned := returned)
  }

  lemma {:induction false} MoveThreads(s: State, t: Tid, pc: Pc, pipe: nat, answers: map<nat, bool>, returned: set<nat>)
    requires Inv(s) && !PcOf(s, t).Idle? && !PcOf(s, t).Allocated? && !pc.Allocated?
    requires InFlightPc(pc) == InFlightPc(PcOf(s, t)) && (InFlightPc(pc) ==> pc.slot == PcOf(s, t).slot)
    requires ThreadOk(Move(s, t, pc, pipe, answers, returned), t)
    requires forall i: nat :: i in answers ==> i in s.answers || (i < |s.items| && s.items[i].caller == t)
    ensures var s' := Move(s, t, pc, pipe, answers, returned);
            Shape(s') && Live(s') && Tagged(s') && ConsumerOk(s') && forall u: Tid :: ThreadOk(s', u)
  {
    var s' := Move(s, t, pc, pipe, answers, returned);
    MemoryFrame(s, s');
    OtherThreads(s, s', t);
    forall u: Tid ensures ThreadOk(s', u) { assert u != t ==> ThreadOk(s', u); }
  }

  lemma {:induction false} MoveInv(s: State, t: Tid, pc: Pc, pipe: nat, answers: map<nat, bool>, returned: set<nat>)
    requires Inv(s) && !PcOf(s, t).Idle? && !PcOf(s, t).Allocated? && !pc.Allocated?
    requires InFlightPc(pc) == InFlightPc(PcOf(s, t)) && (InFlightPc(pc) ==> pc.slot == PcOf(s, t).slot)
    requires ThreadOk(Move(s, t, pc, pipe, answers, returned), t)
    requires forall i: nat :: i in answers ==>
               (i in s.answers && answers[i] == s.answers[i])
               || (i < |s.items| && s.items[i].caller == t && (s.vacant[i] ==> answers[i]))
    requires forall x :: x in returned ==> x in s.returned || ReturnOk(s, x)
    requires pipe > s.pipe ||
             (pipe == s.pipe && (Obliged(s, t) ==> Obliged(Move(s, t, pc, pipe, answers, returned), t)))
    ensures Inv(Move(s, t, pc, pipe, answers, returned))
  {
    var s' := Move(s, t, pc, pipe, answers, returned);
    MoveThreads(s, t, pc, pipe, answers, returned);
    LedgerFrame(s, s');
    OutcomesFrame(s, s');
    WakeupFrame(s, s');
  }

  // The loop thread moves between stages that neither hold a node nor run an op.
  function Turn(s: State, consumer: Consumer, receiving: bool, pipe: nat): State {
    s.(consumer := consumer, receiving := receiving, pipe := pipe)
  }

  lemma {:induction false} TurnInv(s: State, consumer: Consumer, receiving: bool, pipe: nat)
    requires Inv(s) && !MidPop(s) && !s.consumer.Running?
    requires consumer.AtTail? || consumer.Parked? || consumer.Loaded?
    requires ConsumerOk(Turn(s, consumer, receiving, pipe)) && NoLostWakeup(Turn(s, consumer, receiving, pipe))
    ensures Inv(Turn(s, consumer, receiving, pipe))
  {
    var s' := Turn(s, consumer, receiving, pipe);
    MemoryFrame(s, s');
    ThreadsFrame(s, s');
    LedgerFrame(s, s');
    OutcomesFrame(s, s');
  }

  // ---- steps of the calling threads ----

  lemma {:induction false} BeginMemory(s: State, t: Tid, awaited: bool, addr: Addr)
    requires Inv(s) && PcOf(s, t).Idle? && addr !in s.nodes && (t == LOOP ==> InClientCode(s))
    ensures var s' := BeginStep(s, t, awaited, addr); Shape(s') && Live(s') && Tagged(s')
  {
    var s' := BeginStep(s, t, awaited, addr);
    forall i: nat | s'.popped <= i <= |s'.items| ensures LiveAt(s', i) { assert LiveAt(s, i); }
    forall a | a in s'.tags ensures TagOk(s', a) { assert a == addr || TagOk(s, a); }
  }

  lemma {:induction false} BeginOutcomes(s: State, t: Tid, awaited: bool, addr: Addr)
    requires Inv(s) && PcOf(s, t).Idle? && addr !in s.nodes && (t == LOOP ==> InClientCode(s))
    ensures Outcomes(BeginStep(s, t, awaited, addr))
  {
    var s' := BeginStep(s, t, awaited, addr);
    forall i: nat | i < |s'.items| ensures FlagOk(s', i) { assert FlagOk(s, i); }
    forall x | x in s'.returned ensures ReturnOk(s', x) { assert ReturnOk(s, x); }
  }

  lemma {:induction false} BeginThreads(s: State, t: Tid, awaited: bool, addr: Addr)
    requires Inv(s) && PcOf(s, t).Idle? && addr !in s.nodes && (t == LOOP ==> InClientCode(s))
    requires Shape(BeginStep(s, t, awaited, addr))
    ensures forall u: Tid :: ThreadOk(BeginStep(s, t, awaited, addr), u)
  {
    var s' := BeginStep(s, t, awaited, addr);
    OtherThreads(s, s', t);
    forall i: nat | i < |s.items| ensures s.items[i].ticket < s.issued { assert ItemOk(s, i); }
    forall u: Tid ensures ThreadOk(s', u) { assert u != t ==> ThreadOk(s', u); }
  }

  lemma {:induction false} BeginInv(s: State, t: Tid, awaited: bool, addr: Addr)
    requires Inv(s) && PcOf(s, t).Idle? && addr !in s.nodes && (t == LOOP ==> InClientCode(s))
    ensures Inv(BeginStep(s, t, awaited, addr))
  {
    var s' := BeginStep(s, t, awaited, addr);
    BeginMemory(s, t, awaited, addr);
    BeginThreads(s, t, awaited, addr);
    forall i: nat | i < |s.items| ensures ItemOk(s', i) { assert ItemOk(s, i); }
    forall i: nat, j: nat | i < j < |s'.items| ensures InOrder(s', i, j) { assert InOrder(s, i, j); }
    BeginOutcomes(s, t, awaited, addr);
    WakeupFrame(s, s');
  }

  lemma {:induction false} RunInlineInv(s: State, awaited: bool)
    requires Inv(s) && InClientCode(s) && PcOf(s, LOOP).Idle?
    ensures Inv(RunInlineStep(s, awaited))
  {
    var s' := RunInlineStep(s, awaited);
    MemoryFrame(s, s');
    WakeupFrame(s, s');
    forall u: Tid ensures ThreadOk(s', u) { assert ThreadOk(s, u); }
    forall i: nat | i < |s.items| ensures ItemOk(s', i) && FlagOk(s', i) { assert ItemOk(s, i) && FlagOk(s, i); }
    forall i: nat, j: nat | i < j < |s'.items| ensures InOrder(s', i, j) { assert InOrder(s, i, j); }
    forall x | x in s'.returned ensures ReturnOk(s', x) { assert x in s.returned ==> ReturnOk(s, x); }
  }

  lemma {:induction false} ExchangeMemory(s: State, t: Tid)
    requires Inv(s) && PcOf(s, t).Allocated?
    ensures var s' := ExchangeStep(s, t); Shape(s') && Live(s') && Tagged(s')
  {
    var s' := ExchangeStep(s, t);
    assert ThreadOk(s, t);
    forall i: nat | s'.popped <= i <= |s'.items| ensures LiveAt(s', i) {
      if i <= |s.items| { assert LiveAt(s, i); }
    }
    forall x | x in s'.tags ensures TagOk(s', x) { assert TagOk(s, x); }
  }

  lemma {:induction false} ExchangeThreads(s: State, t: Tid)
    requires Inv(s) && PcOf(s, t).Allocated?
    requires Shape(ExchangeStep(s, t))
    ensures forall u: Tid :: ThreadOk(ExchangeStep(s, t), u)
  {
    var s' := ExchangeStep(s, t);
    assert ThreadOk(s, t);
    OtherThreads(s, s', t);
    forall u: Tid ensures ThreadOk(s', u) { assert u != t ==> ThreadOk(s', u); }
  }

  lemma {:induction false} ExchangeInv(s: State, t: Tid)
    requires Inv(s) && PcOf(s, t).Allocated?
    ensures Inv(ExchangeStep(s, t))
  {
    var s' := ExchangeStep(s, t);
    assert ThreadOk(s, t);
    ExchangeMemory(s, t);
    ExchangeThreads(s, t);
    forall i: nat | i < |s'.items| ensures ItemOk(s', i) { assert i < |s.items| ==> ItemOk(s, i); }
    forall i: nat, j: nat | i < j < |s'.items| ensures InOrder(s', i, j) { assert j < |s.items| ==> InOrder(s, i, j); }
    ExchangeOutcomes(s, t);
    assert s.popped == |s.items| ==> Obliged(s', t);
    if s.consumer.Parked? && s.popped < |s.items| && s.pipe == 0 {
      var u :| Obliged(s, u);
      assert Obliged(s', u);
    }
  }

  lemma {:induction false} ExchangeOutcomes(s: State, t: Tid)
    requires Inv(s) && PcOf(s, t).Allocated?
    ensures Outcomes(ExchangeStep(s, t))
  {
    var s' := ExchangeStep(s, t);
    assert ThreadOk(s, t);
    forall i: nat | i < |s'.items| ensures FlagOk(s', i) {
      if i < |s.items| { assert FlagOk(s, i); }
    }
    forall x | x in s'.returned ensures ReturnOk(s', x) { assert ReturnOk(s, x); }
  }

  // The comparison at the first tail_ load is between two live nodes, so it is exact.
  lemma {:induction false} FirstCheckExact(s: State, t: Tid)
    requires Inv(s) && PcOf(s, t).Exchanged?
    ensures PcOf(s, t).prev in s.nodes && s.tail in s.nodes
    ensures PcOf(s, t).prev == s.tail <==> PcOf(s, t).slot == s.popped
  {
    assert ThreadOk(s, t) && LiveAt(s, s.popped) && LiveAt(s, PcOf(s, t).slot);
  }

  lemma {:induction false} CheckInv(s: State, t: Tid)
    requires Inv(s) && PcOf(s, t).Exchanged?
    ensures Inv(CheckStep(s, t))
  {
    assert ThreadOk(s, t);
    FirstCheckExact(s, t);
    var Exchanged(op, cur, prev, slot) := PcOf(s, t);
    MoveInv(s, t, Checked(op, cur, prev, slot, prev == s.tail), s.pipe, s.answers, s.returned);
  }

  lemma {:induction false} PublishMemory(s: State, t: Tid)
    requires Inv(s) && PcOf(s, t).Checked?
    ensures var s' := PublishStep(s, t); Shape(s') && Live(s') && Tagged(s')
  {
    var s' := PublishStep(s, t);
    assert ThreadOk(s, t);
    var slot := PcOf(s, t).slot;
    assert LiveAt(s, slot);
    forall i: nat | s'.popped <= i <= |s'.items| ensures LiveAt(s', i) { assert LiveAt(s, i); }
    forall x | x in s'.tags ensures TagOk(s', x) { assert TagOk(s, x); }
  }

  lemma {:induction false} PublishThreads(s: State, t: Tid)
    requires Inv(s) && PcOf(s, t).Checked?
    requires Shape(PublishStep(s, t))
    ensures forall u: Tid :: ThreadOk(PublishStep(s, t), u)
  {
    var s' := PublishStep(s, t);
    assert ThreadOk(s, t) && LiveAt(s, PcOf(s, t).slot);
    OtherThreads(s, s', t);
    forall u: Tid ensures ThreadOk(s', u) { assert u != t ==> ThreadOk(s', u); }
  }

  lemma {:induction false} PublishRest(s: State, t: Tid)
    requires Inv(s) && PcOf(s, t).Checked?
    requires Shape(PublishStep(s, t))
    ensures ConsumerOk(PublishStep(s, t)) && NoLostWakeup(PublishStep(s, t))
  {
    var s' := PublishStep(s, t);
    assert ThreadOk(s, t) && LiveAt(s, PcOf(s, t).slot);
    WakeupFrame(s, s');
  }

  lemma {:induction false} PublishInv(s: State, t: Tid)
    requires Inv(s) && PcOf(s, t).Checked?
    ensures Inv(PublishStep(s, t))
  {
    var s' := PublishStep(s, t);
    assert ThreadOk(s, t) && LiveAt(s, PcOf(s, t).slot);
    PublishMemory(s, t);
    PublishThreads(s, t);
    PublishRest(s, t);
    LedgerFrame(s, s');
    OutcomesFrame(s, s');
  }

  lemma {:induction false} RecheckInv(s: State, t: Tid)
    requires Inv(s) && PcOf(s, t).Published?
    ensures Inv(RecheckStep(s, t))
  {
    var s' := RecheckStep(s, t);
    var slot := PcOf(s, t).slot;
    assert ThreadOk(s, t) && ItemOk(s, slot);
    MoveInv(s, t, PcOf(s', t), s.pipe, s.answers[slot := s.tail == PcOf(s, t).prev], s'.returned);
  }

  lemma {:induction false} SignalInv(s: State, t: Tid)
    requires Inv(s) && PcOf(s, t).Kick?
    ensures Inv(SignalStep(s, t))
  {
    var s' := SignalStep(s, t);
    assert ThreadOk(s, t) && ItemOk(s, PcOf(s, t).slot);
    MoveInv(s, t, PcOf(s', t), s.pipe + 1, s.answers, s'.returned);
  }

  lemma {:induction false} WakeInv(s: State, t: Tid)
    requires Inv(s) && PcOf(s, t).Waiting? && PcOf(s, t).op.ticket in s.done
    ensures Inv(WakeStep(s, t))
  {
    var Waiting(op, slot) := PcOf(s, t);
    assert ThreadOk(s, t) && ItemOk(s, slot);
    MoveInv(s, t, Idle, s.pipe, s.answers, s.returned + {op.ticket});
  }

  // ---- steps of the loop thread ----

  // No next node: every op is popped, or the oldest one left is between its exchange and its publication.
  lemma {:induction false} PopExact(s: State)
    requires Inv(s)
    ensures s.tail in s.nodes
    ensures s.nodes[s.tail].next.None? <==> s.popped == |s.items| || InFlight(s, s.popped)
    ensures s.nodes[s.tail].next.Some? ==> s.nodes[s.tail].next.value == s.chain[s.popped + 1]
  {
    assert LiveAt(s, s.popped);
  }

  lemma {:induction false} LoadInv(s: State)
    requires Inv(s) && s.consumer.AtTail?
    ensures Inv(LoadStep(s))
  {
    PopExact(s);
    match s.nodes[s.tail].next
    case Some(n) =>
      TurnInv(s, Loaded(n), s.receiving, s.pipe);
    case None =>
      var s' := Turn(s, Parked, s.receiving, s.pipe);
      if s.popped < |s.items| { assert Obliged(s', s.items[s.popped].caller); }
      TurnInv(s, Parked, s.receiving, s.pipe);
  }

  lemma {:induction false} AdvanceMemory(s: State)
    requires Inv(s) && s.consumer.Loaded?
    ensures var s' := AdvanceStep(s); Shape(s') && Live(s') && Tagged(s')
  {
    var s' := AdvanceStep(s);
    assert LiveAt(s, s.popped);
    forall i: nat | s'.popped <= i <= |s'.items| ensures LiveAt(s', i) { assert LiveAt(s, i); }
    forall x | x in s'.tags ensures TagOk(s', x) { assert TagOk(s, x); }
  }

  lemma {:induction false} AdvanceInv(s: State)
    requires Inv(s) && s.consumer.Loaded?
    ensures Inv(AdvanceStep(s))
  {
    var s' := AdvanceStep(s);
    assert LiveAt(s, s.popped);
    AdvanceMemory(s);
    forall u: Tid ensures ThreadOk(s', u) { assert ThreadOk(s, u); }
    LedgerFrame(s, s');
    OutcomesFrame(s, s');
  }

  lemma {:induction false} FreeMemory(s: State)
    requires Inv(s) && s.consumer.Advanced?
    ensures var s' := FreeStep(s); Shape(s') && Live(s') && Tagged(s')
  {
    var s' := FreeStep(s);
    forall i: nat | s'.popped <= i <= |s'.items| ensures LiveAt(s', i) { assert LiveAt(s, i); }
    forall x | x in s'.tags ensures TagOk(s', x) { assert TagOk(s, x); }
  }

  lemma {:induction false} FreeInv(s: State)
    requires Inv(s) && s.consumer.Advanced?
    ensures Inv(FreeStep(s))
  {
    var s' := FreeStep(s);
    FreeMemory(s);
    ThreadsFrame(s, s');
    LedgerFrame(s, s');
    OutcomesFrame(s, s');
  }

  lemma {:induction false} TakeMemory(s: State)
    requires Inv(s) && s.consumer.Freed?
    ensures var s' := TakeStep(s); Shape(s') && Live(s') && Tagged(s')
  {
    var s' := TakeStep(s);
    assert LiveAt(s, s.popped);
    forall i: nat | s'.popped <= i <= |s'.items| ensures LiveAt(s', i) { assert LiveAt(s, i); }
    forall x | x in s'.tags ensures TagOk(s', x) { assert TagOk(s, x); }
  }

  lemma {:induction false} TakeOutcomes(s: State)
    requires Inv(s) && s.consumer.Freed?
    ensures Outcomes(TakeStep(s))
  {
    var s' := TakeStep(s);
    assert LiveAt(s, s.popped);
    forall i: nat | i < |s'.items| ensures FlagOk(s', i) { assert FlagOk(s, i); }
    forall x | x in s'.returned ensures ReturnOk(s', x) { assert ReturnOk(s, x); }
  }

  lemma {:induction false} TakeThreads(s: State)
    requires Inv(s) && s.consumer.Freed?
    requires Shape(TakeStep(s))
    ensures forall u: Tid :: ThreadOk(TakeStep(s), u)
  {
    assert LiveAt(s, s.popped);
    ThreadsFrame(s, TakeStep(s));
  }

  lemma {:induction false} TakeInv(s: State)
    requires Inv(s) && s.consumer.Freed?
    ensures Inv(TakeStep(s))
  {
    var s' := TakeStep(s);
    assert LiveAt(s, s.popped);
    TakeMemory(s);
    TakeThreads(s);
    LedgerFrame(s, s');
    TakeOutcomes(s);
  }

  lemma {:induction false} FinishInv(s: State)
    requires Inv(s) && s.consumer.Running? && PcOf(s, LOOP).Idle?
    ensures Inv(FinishStep(s))
  {
    var s' := FinishStep(s);
    MemoryFrame(s, s');
    ThreadsFrame(s, s');
    LedgerFrame(s, s');
    assert ItemOk(s, s.popped - 1);
    forall i: nat | i < |s'.items| ensures FlagOk(s', i) { assert FlagOk(s, i) && ItemOk(s, i); }
    forall x | x in s'.returned ensures ReturnOk(s', x) { assert ReturnOk(s, x); }
  }

  lemma {:induction false} UnparkInv(s: State, receiving: bool, pipe: nat)
    requires Inv(s) && s.consumer.Parked? && PcOf(s, LOOP).Idle?
    ensures Inv(Turn(s, AtTail, receiving, pipe))
  {
    TurnInv(s, AtTail, receiving, pipe);
  }

  lemma {:induction false} StepInv(s: State, a: Action)
    requires Inv(s) && Enabled(s, a)
    ensures Inv(Apply(s, a))
  {
    match a
    case Begin(t, awaited, addr) => BeginInv(s, t, awaited, addr);
    case RunInline(awaited) => RunInlineInv(s, awaited);
    case Exchange(t) => ExchangeInv(s, t);
    case Check(t) => CheckInv(s, t);
    case Publish(t) => PublishInv(s, t);
    case Recheck(t) => RecheckInv(s, t);
    case Signal(t) => SignalInv(s, t);
    case Wake(t) => WakeInv(s, t);
    case Load => LoadInv(s);
    case Advance => AdvanceInv(s);
    case Free => FreeInv(s);
    case Take => TakeInv(s);
    case Finish => FinishInv(s);
    case Consume => UnparkInv(s, true, Apply(s, a).pipe);
    case Return => UnparkInv(s, false, s.pipe);
    case Spurious => UnparkInv(s, false, s.pipe);
  }

  lemma {:induction false} RunInv(s: State, run: seq<Action>)
    requires Inv(s) && Legal(s, run)
    ensures Inv(Exec(s, run))
    decreases |run|
  {
    if run != [] {
      StepInv(s, run[0]);
      RunInv(Apply(s, run[0]), run[1..]);
    }
  }

  lemma ReachableInv(s: State)
    requires Reachable(s)
    ensures Inv(s)
  {
    var dummy: Addr, run: seq<Action> :| Legal(Init(dummy), run) && s == Exec(Init(dummy), run);
    InitInv(dummy);
    RunInv(Init(dummy), run);
  }
}
