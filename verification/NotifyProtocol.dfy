/**
The multi-producer queue of `src/mpsc_queue.h` together with the notification path of
`src/libevent_event_base.cc`, as an interleaved step system.

Every shared-memory access of `push` and `pop` is a step of its own, and so is every token written
to or read from the notification pipe.  Steps are sequentially consistent.  Any number of threads
may push; thread `LOOP` drives the event loop, and may itself push while it is running an op or the
handler of some other event.
Freed addresses may be handed out again by a later allocation.
*/
module NotifyProtocol {
  import opened Wrappers

  type Tid = nat
  type Addr = nat

  // The thread that drives the event loop.
  const LOOP: Tid := 0
  // The most tokens one read of the pipe can take: sizeof(uint64_t) one-byte tokens.
  const TOKENS_PER_READ: nat := 8

  // One call of runOnEventLoop (or of runOnEventLoopAndWait, when awaited), identified by its ticket.
  datatype Op = Op(ticket: nat, caller: Tid, awaited: bool)

  // A queue node.  The data are gone once the consumer has moved them out.
  datatype Node = Node(data: Option<Op>, next: Option<Addr>)

  // Where a calling thread stands.  `slot` is the position of its op in exchange order.
  datatype Pc =
    | Idle
    | Allocated(op: Op, cur: Addr)                                       // node built
    | Exchanged(op: Op, cur: Addr, prev: Addr, slot: nat)                // head_ swapped
    | Checked(op: Op, cur: Addr, prev: Addr, slot: nat, empty: bool)     // emptyAtInit known
    | Published(op: Op, prev: Addr, slot: nat)                           // prev->next stored, not emptyAtInit
    | Kick(op: Op, slot: nat)                                            // push returned true, token not yet written
    | Waiting(op: Op, slot: nat)                                         // awaiting completion

  // Where the loop thread stands.
  datatype Consumer =
    | AtTail                                // in runOpsInQueue, about to look at tail->next
    | Loaded(next: Addr)                    // saw a next node
    | Advanced(spent: Addr, next: Addr)       // tail_ stored
    | Freed(next: Addr)                     // old tail released
    | Running(op: Op)                       // inside op.value()()
    | Parked                                // in event_base_loop: blocked, or in the handler of some event

  // What an allocated address is in use for.
  datatype Tag = Linked(index: nat) | Private(owner: Tid) | Retired
  // What became of a ticket.
  datatype Fate = Pending(holder: Tid) | Queued(slot: nat) | Inline(index: nat)

  datatype State = State(
    // shared memory and threads
    nodes: map<Addr, Node>,
    head: Addr,
    tail: Addr,
    pipe: nat,
    threads: map<Tid, Pc>,
    consumer: Consumer,
    receiving: bool,          // a token has been received since the top of the loop
    done: set<nat>,           // tickets whose completion flag is set
    fault: bool,              // some step touched an address that is not allocated, or took data twice
    // what has happened so far
    chain: seq<Addr>,         // the first dummy node, then every node in exchange order
    items: seq<Op>,           // every op in exchange order; items[i] was put in chain[i + 1]
    vacant: seq<bool>,        // had every earlier item been popped when items[i] was exchanged?
    answers: map<nat, bool>,  // what push returned, by slot
    popped: nat,              // how often tail_ has moved
    taken: seq<Op>,           // what pop has returned
    inlined: seq<Op>,         // ops the loop thread ran without queueing them
    returned: set<nat>,       // tickets whose call has returned true
    tags: map<Addr, Tag>,
    fates: map<nat, Fate>,
    issued: nat)              // tickets handed out so far

  datatype Action =
    | Begin(t: Tid, awaited: bool, addr: Addr)
    | RunInline(inlineAwaited: bool)
    | Exchange(t: Tid)
    | Check(t: Tid)
    | Publish(t: Tid)
    | Recheck(t: Tid)
    | Signal(t: Tid)
    | Wake(t: Tid)
    | Load
    | Advance
    | Free
    | Take
    | Finish
    | Consume
    | Return
    | Spurious

  function PcOf(s: State, t: Tid): Pc {
    if t in s.threads then s.threads[t] else Idle
  }

  function Init(dummy: Addr): State {
    State(map[dummy := Node(None, None)], dummy, dummy, 0, map[], AtTail, false, {}, false,
          [dummy], [], [], map[], 0, [], [], {}, map[dummy := Linked(0)], map[], 0)
  }

  // The loop thread runs client code: an op, or a handler called by event_base_loop.
  predicate InClientCode(s: State) {
    s.consumer.Running? || s.consumer.Parked?
  }

  predicate Enabled(s: State, a: Action) {
    match a
    case Begin(t, _, addr) => PcOf(s, t).Idle? && addr !in s.nodes && (t == LOOP ==> InClientCode(s))
    case RunInline(_) => InClientCode(s) && PcOf(s, LOOP).Idle?
    case Exchange(t) => PcOf(s, t).Allocated?
    case Check(t) => PcOf(s, t).Exchanged?
    case Publish(t) => PcOf(s, t).Checked?
    case Recheck(t) => PcOf(s, t).Published?
    case Signal(t) => PcOf(s, t).Kick?
    case Wake(t) => PcOf(s, t).Waiting? && PcOf(s, t).op.ticket in s.done
    case Load => s.consumer.AtTail?
    case Advance => s.consumer.Loaded?
    case Free => s.consumer.Advanced?
    case Take => s.consumer.Freed?
    case Finish => s.consumer.Running? && PcOf(s, LOOP).Idle?
    case Consume => s.consumer.Parked? && !s.receiving && s.pipe > 0 && PcOf(s, LOOP).Idle?
    case Return => s.consumer.Parked? && s.receiving && PcOf(s, LOOP).Idle?
    case Spurious => s.consumer.Parked? && !s.receiving && PcOf(s, LOOP).Idle?
  }

  // Where a call goes once push is over and any token is written: it waits, or it returns true.
  function AfterPush(op: Op, slot: nat): Pc {
    if op.awaited then Waiting(op, slot) else Idle
  }

  function Returning(s: State, op: Op): set<nat> {
    if op.awaited then s.returned else s.returned + {op.ticket}
  }

  function BeginStep(s: State, t: Tid, awaited: bool, addr: Addr): State
    requires PcOf(s, t).Idle? && addr !in s.nodes && (t == LOOP ==> InClientCode(s))
  {
    var op := Op(s.issued, t, awaited);
    s.(nodes := s.nodes[addr := Node(Some(op), None)],
       threads := s.threads[t := Allocated(op, addr)],
       tags := s.tags[addr := Private(t)],
       fates := s.fates[op.ticket := Pending(t)],
       issued := s.issued + 1)
  }

  function RunInlineStep(s: State, awaited: bool): State
    requires InClientCode(s) && PcOf(s, LOOP).Idle?
  {
    var op := Op(s.issued, LOOP, awaited);
    s.(inlined := s.inlined + [op],
       returned := s.returned + {op.ticket},
       fates := s.fates[op.ticket := Inline(|s.inlined|)],
       issued := s.issued + 1)
  }

  function ExchangeStep(s: State, t: Tid): State
    requires PcOf(s, t).Allocated?
  {
    var Allocated(op, cur) := PcOf(s, t);
    s.(head := cur,
       threads := s.threads[t := Exchanged(op, cur, s.head, |s.items|)],
       chain := s.chain + [cur],
       items := s.items + [op],
       vacant := s.vacant + [s.popped == |s.items|],
       tags := s.tags[cur := Linked(|s.items| + 1)],
       fates := s.fates[op.ticket := Queued(|s.items|)])
  }

  function CheckStep(s: State, t: Tid): State
    requires PcOf(s, t).Exchanged?
  {
    var Exchanged(op, cur, prev, slot) := PcOf(s, t);
    s.(threads := s.threads[t := Checked(op, cur, prev, slot, prev == s.tail)])
  }

  function PublishStep(s: State, t: Tid): State
    requires PcOf(s, t).Checked?
  {
    var Checked(op, cur, prev, slot, empty) := PcOf(s, t);
    s.(fault := s.fault || prev !in s.nodes,
       nodes := if prev in s.nodes then s.nodes[prev := s.nodes[prev].(next := Some(cur))] else s.nodes,
       threads := s.threads[t := if empty then Kick(op, slot) else Published(op, prev, slot)],
       answers := if empty then s.answers[slot := true] else s.answers)
  }

  function RecheckStep(s: State, t: Tid): State
    requires PcOf(s, t).Published?
  {
    var Published(op, prev, slot) := PcOf(s, t);
    var answer := s.tail == prev;
    s.(threads := s.threads[t := if answer then Kick(op, slot) else AfterPush(op, slot)],
       answers := s.answers[slot := answer],
       returned := if answer then s.returned else Returning(s, op))
  }

  function SignalStep(s: State, t: Tid): State
    requires PcOf(s, t).Kick?
  {
    var Kick(op, slot) := PcOf(s, t);
    s.(pipe := s.pipe + 1,
       threads := s.threads[t := AfterPush(op, slot)],
       returned := Returning(s, op))
  }

  function WakeStep(s: State, t: Tid): State
    requires PcOf(s, t).Waiting? && PcOf(s, t).op.ticket in s.done
  {
    var Waiting(op, _) := PcOf(s, t);
    s.(threads := s.threads[t := Idle], returned := s.returned + {op.ticket})
  }

  // An empty pop ends the drain: on to the blocking wait, or back to event_base_loop, which returns.
  function LoadStep(s: State): State
    requires s.consumer.AtTail?
  {
    var next := if s.tail in s.nodes then s.nodes[s.tail].next else None;
    s.(fault := s.fault || s.tail !in s.nodes,
       consumer := if next.Some? then Loaded(next.value) else Parked)
  }

  function AdvanceStep(s: State): State
    requires s.consumer.Loaded?
  {
    s.(tail := s.consumer.next,
       consumer := Advanced(s.tail, s.consumer.next),
       popped := s.popped + 1,
       tags := s.tags[s.tail := Retired])
  }

  function FreeStep(s: State): State
    requires s.consumer.Advanced?
  {
    s.(fault := s.fault || s.consumer.spent !in s.nodes,
       nodes := s.nodes - {s.consumer.spent},
       tags := s.tags - {s.consumer.spent},
       consumer := Freed(s.consumer.next))
  }

  function TakeStep(s: State): State
    requires s.consumer.Freed?
  {
    var n := s.consumer.next;
    var ok := n in s.nodes && s.nodes[n].data.Some?;
    s.(fault := s.fault || !ok,
       nodes := if ok then s.nodes[n := s.nodes[n].(data := None)] else s.nodes,
       consumer := if ok then Running(s.nodes[n].data.value) else AtTail,
       taken := if ok then s.taken + [s.nodes[n].data.value] else s.taken)
  }

  function FinishStep(s: State): State
    requires s.consumer.Running? && PcOf(s, LOOP).Idle?
  {
    s.(consumer := AtTail,
       done := if s.consumer.op.awaited then s.done + {s.consumer.op.ticket} else s.done)
  }

  function ConsumeStep(s: State): State
    requires s.consumer.Parked? && s.pipe > 0
  {
    s.(pipe := if s.pipe <= TOKENS_PER_READ then 0 else s.pipe - TOKENS_PER_READ,
       consumer := AtTail,
       receiving := true)
  }

  // event_base_loop returns, with or without having received a token.
  function ReturnStep(s: State): State
    requires s.consumer.Parked?
  {
    s.(consumer := AtTail, receiving := false)
  }

  function Apply(s: State, a: Action): State
    requires Enabled(s, a)
  {
    match a
    case Begin(t, awaited, addr) => BeginStep(s, t, awaited, addr)
    case RunInline(awaited) => RunInlineStep(s, awaited)
    case Exchange(t) => ExchangeStep(s, t)
    case Check(t) => CheckStep(s, t)
    case Publish(t) => PublishStep(s, t)
    case Recheck(t) => RecheckStep(s, t)
    case Signal(t) => SignalStep(s, t)
    case Wake(t) => WakeStep(s, t)
    case Load => LoadStep(s)
    case Advance => AdvanceStep(s)
    case Free => FreeStep(s)
    case Take => TakeStep(s)
    case Finish => FinishStep(s)
    case Consume => ConsumeStep(s)
    case Return => ReturnStep(s)
    case Spurious => ReturnStep(s)
  }

  // A run: the actions taken from `s`, each of them enabled when it is taken.
  predicate Legal(s: State, run: seq<Action>)
    decreases |run|
  {
    run == [] || (Enabled(s, run[0]) && Legal(Apply(s, run[0]), run[1..]))
  }

  function Exec(s: State, run: seq<Action>): State
    requires Legal(s, run)
    decreases |run|
  {
    if run == [] then s else Exec(Apply(s, run[0]), run[1..])
  }

  ghost predicate Reachable(s: State) {
    exists dummy: Addr, run: seq<Action> :: Legal(Init(dummy), run) && s == Exec(Init(dummy), run)
  }
}
