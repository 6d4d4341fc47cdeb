/**
StreamImpl's write side as values (src/stream.cc): the list of requests, the calls that a client or a
re-entrant callback can make, and the write helper.  `repaired` false is the code as it stands; true has
the tail of the list advanced, a short write end the turn, both bits of interest kept, and the buffers
repaired.

Beside the state of the program a State keeps what an observer would have noted down: the bytes given
to write and the bytes put on the wire, where each request ends, and which callbacks were made when.
*/
module StreamModel {
  import opened Wrappers
  import opened Extents
  import opened Interest
  import opened Sending

  // ---- the list of requests ----

  datatype Request = Request(id: nat, buf: seq<Ext>, notify: bool)

  // As written the tail, when it is still in the list at all, is the list's first request; repaired it is
  // the last.  `since` counts the requests appended since the list was last empty.
  datatype Queue = Queue(reqs: seq<Request>, tailInList: bool, since: nat)

  ghost predicate QueueOk(q: Queue, repaired: bool) {
    && (q.reqs == [] <==> q.since == 0)
    && (repaired && q.reqs != [] ==> q.tailInList)
    && (!repaired && q.reqs != [] ==>
          if q.tailInList then |q.reqs| == Min(q.since, 2) else q.since >= 2 && |q.reqs| == 1)
  }

  // Requests::append: the request goes behind the tail, and whatever was there is cut off.  With the tail
  // no longer in the list the request gets lost.
  function Enqueue(q: Queue, r: Request, repaired: bool): Queue {
    Queue(if repaired || q.reqs == [] then q.reqs + [r] else if q.tailInList then [q.reqs[0], r] else q.reqs,
          repaired || q.reqs == [] || q.tailInList,
          q.since + 1)
  }

  // As written the tail can be left behind by consumeFront; append then stores through it into a request
  // that has been deleted.  What that does is undefined; here it does nothing to the list.
  predicate Strays(q: Queue, repaired: bool) {
    !repaired && q.reqs != [] && !q.tailInList
  }

  // Requests::consumeFront.
  function Dequeue(q: Queue, repaired: bool): Queue
    requires q.reqs != []
  {
    Queue(q.reqs[1..], repaired && |q.reqs| > 1, if |q.reqs| == 1 then 0 else q.since)
  }

  // As written append works exactly up to the second request since the list was last empty.
  lemma EnqueueExact(q: Queue, r: Request)
    requires QueueOk(q, false)
    ensures Enqueue(q, r, false).reqs == q.reqs + [r] <==> q.since < 2
    ensures QueueOk(Enqueue(q, r, false), false)
  {
    var q' := Enqueue(q, r, false);
    if q.reqs != [] {
      assert |q.reqs + [r]| == |q.reqs| + 1;
      if q.since < 2 { assert q.reqs + [r] == [q.reqs[0], r]; }
    }
  }

  // ---- state ----

  datatype Issue = Issue(end: nat, notify: bool)

  // A request completed or failed: how much was on the wire, what was watched, and whether it was the last.
  datatype Event =
    | Done(id: nat, at: nat, notify: bool, watched: What, last: bool)
    | Failed(id: nat, notify: bool)

  // busiest: the most requests there have been in one busy period.  skipped: a short write was followed by
  // another.  scrambled: bytes went out that were not the next ones of their request.  clobbered: a bit of
  // interest that was needed got lost when the other was added.  strayed: a request was stored through a tail
  // left behind.  alive: the stream has not been freed; of one that has been, the state is the one it was
  // freed in.
  datatype State = State(queue: Queue, watched: What, reader: Option<nat>,
                         wire: seq<Byte>, given: seq<Byte>, issued: seq<Issue>, log: seq<Event>,
                         busiest: nat, skipped: bool, scrambled: bool, clobbered: bool, strayed: bool, alive: bool)

  // ---- what a client or a callback can do ----

  datatype Call = Submit(buf: seq<Ext>, notify: bool) | StartReading(callback: nat) | StopReading

  // A write is not empty, and fits the address space.
  ghost predicate Sendable(buf: seq<Ext>, repaired: bool) {
    AllOk(buf, repaired) && 0 < |View(buf, repaired)| < TWO_64 - 1
  }

  ghost predicate LegalCall(c: Call, repaired: bool) {
    c.Submit? ==> Sendable(c.buf, repaired)
  }

  // write
  function Write(s: State, buf: seq<Ext>, notify: bool, repaired: bool): State
    requires AllOk(buf, repaired)
  {
    var r := Request(|s.issued|, buf, notify);
    var q := Enqueue(s.queue, r, repaired);
    s.(queue := q, watched := EnsureWrite(s.watched, repaired),
       given := s.given + View(buf, repaired), issued := s.issued + [Issue(|s.given| + |View(buf, repaired)|, notify)],
       busiest := if q.since > s.busiest then q.since else s.busiest,
       clobbered := s.clobbered || (!repaired && s.watched == READ_WRITE && s.reader.Some?),
       strayed := s.strayed || Strays(s.queue, repaired))
  }

  function StartRead(s: State, callback: nat, repaired: bool): State {
    if s.reader == Some(callback) then s
    else s.(reader := Some(callback), watched := EnsureRead(s.watched, repaired),
            clobbered := s.clobbered || (!repaired && s.watched == READ_WRITE && s.queue.reqs != []))
  }

  // The handler stays registered for reading unless it is also registered for writing.
  function StopRead(s: State): State {
    s.(reader := None, watched := if s.reader.Some? && s.watched == READ_WRITE then WRITE else s.watched)
  }

  function DoCall(s: State, c: Call, repaired: bool): State
    requires c.Submit? ==> AllOk(c.buf, repaired)
  {
    match c
    case Submit(buf, notify) => Write(s, buf, notify, repaired)
    case StartReading(callback) => StartRead(s, callback, repaired)
    case StopReading => StopRead(s)
  }

  ghost predicate LegalCalls(cs: seq<Call>, repaired: bool) {
    forall i :: 0 <= i < |cs| ==> LegalCall(cs[i], repaired)
  }

  function DoCalls(s: State, cs: seq<Call>, repaired: bool): State
    requires forall i :: 0 <= i < |cs| ==> cs[i].Submit? ==> AllOk(cs[i].buf, repaired)
    decreases |cs|
  {
    if cs == [] then s else DoCalls(DoCall(s, cs[0], repaired), cs[1..], repaired)
  }

  // ---- the write helper ----

  // The kernel's replies to the writes of one turn, and the calls made by the callback that ends it.
  // release: if that is the completion callback of the last request, it frees the stream at its end.
  datatype Turn = Turn(replies: seq<Reply>, calls: seq<Call>, release: bool)

  ghost predicate LegalTurn(t: Turn, repaired: bool) {
    LegalCalls(t.calls, repaired)
  }

  function Parts(buf: seq<Ext>, repaired: bool): seq<seq<Byte>>
    requires AllOk(buf, repaired)
  {
    PeekExtents(buf, TWO_64 - 1, 0, repaired)
  }

  function SentOf(buf: seq<Ext>, replies: seq<Reply>, repaired: bool): Sent
    requires AllOk(buf, repaired)
  {
    SendParts(Parts(buf, repaired), replies, repaired)
  }

  // Every request's buffer is in good order.
  ghost predicate BufsOk(s: State, repaired: bool) {
    forall i :: 0 <= i < |s.queue.reqs| ==> AllOk(s.queue.reqs[i].buf, repaired)
  }

  // The front request after its turn with the kernel.
  function Transmit(s: State, replies: seq<Reply>, repaired: bool): (r: State)
    requires s.queue.reqs != [] && BufsOk(s, repaired)
    ensures BufsOk(r, repaired) && |r.queue.reqs| == |s.queue.reqs|
  {
    var req := s.queue.reqs[0];
    var sent := SentOf(req.buf, replies, repaired);
    DrainExact(req.buf, |sent.wire|, repaired);
    var left := req.(buf := Drained(req.buf, |sent.wire|, repaired));
    s.(wire := s.wire + sent.wire, queue := s.queue.(reqs := [left] + s.queue.reqs[1..]),
       skipped := s.skipped || Skips(Lengths(Parts(req.buf, repaired)), replies),
       scrambled := s.scrambled || !IsPrefix(sent.wire, View(req.buf, repaired)))
  }

  // The front request is done: it is taken off the list, and interest in writing goes with the last one.
  function Finish(s: State, repaired: bool): State
    requires s.queue.reqs != []
  {
    var req := s.queue.reqs[0];
    var q := Dequeue(s.queue, repaired);
    var watched := if q.reqs == [] then RemoveWrite(s.watched) else s.watched;
    s.(queue := q, watched := watched,
       log := s.log + [Done(req.id, |s.wire|, req.notify, watched, q.reqs == [])])
  }

  function Fail(s: State): State
    requires s.queue.reqs != []
  {
    s.(log := s.log + [Failed(s.queue.reqs[0].id, s.queue.reqs[0].notify)])
  }

  lemma CallKeepsBufs(s: State, c: Call, repaired: bool)
    requires BufsOk(s, repaired) && LegalCall(c, repaired)
    ensures var s' := DoCall(s, c, repaired);
            BufsOk(s', repaired) && |s'.queue.reqs| >= Min(1, |s.queue.reqs|)
  {
  }

  lemma {:induction false} CallsKeepBufs(s: State, cs: seq<Call>, repaired: bool)
    requires BufsOk(s, repaired) && LegalCalls(cs, repaired)
    ensures BufsOk(DoCalls(s, cs, repaired), repaired)
    ensures |DoCalls(s, cs, repaired).queue.reqs| >= Min(1, |s.queue.reqs|)
    decreases |cs|
  {
    if cs != [] {
      CallKeepsBufs(s, cs[0], repaired);
      hide DoCall, BufsOk;
      CallsKeepBufs(DoCall(s, cs[0], repaired), cs[1..], repaired);
    }
  }

  // A callback makes its calls, if there is a callback.
  function Notify(s: State, notify: bool, cs: seq<Call>, repaired: bool): (r: State)
    requires BufsOk(s, repaired) && LegalCalls(cs, repaired)
    ensures BufsOk(r, repaired)
  {
    CallsKeepBufs(s, cs, repaired);
    if notify then DoCalls(s, cs, repaired) else s
  }

  // The stream's owner frees it, or not.
  function Release(s: State, release: bool): State {
    s.(alive := s.alive && !release)
  }

  // One time round the loop of writeHelper, and whether there is a next.
  ghost function HelperTurn(s: State, t: Turn, repaired: bool): (r: (State, bool))
    requires BufsOk(s, repaired) && LegalTurn(t, repaired) && s.queue.reqs != []
    ensures BufsOk(r.0, repaired)
  {
    var req := s.queue.reqs[0];
    var sent := SentOf(req.buf, t.replies, repaired);
    var s1 := Transmit(s, t.replies, repaired);
    if sent.blocked || sent.failed then
      (if sent.failed then Notify(Fail(s1), req.notify, t.calls, repaired) else s1, false)
    else
      var s2 := Finish(s1, repaired);
      var last := s2.queue.reqs == [];
      (Release(Notify(s2, req.notify, t.calls, repaired), req.notify && last && t.release), !last)
  }

  // writeHelper.  When the turns have run out the kernel takes nothing more.
  ghost function Helper(s: State, ts: seq<Turn>, repaired: bool): (r: State)
    requires BufsOk(s, repaired) && forall i :: 0 <= i < |ts| ==> LegalTurn(ts[i], repaired)
    ensures BufsOk(r, repaired)
    decreases |ts|
  {
    if ts == [] || s.queue.reqs == [] then s
    else
      var (s', more) := HelperTurn(s, ts[0], repaired);
      if more then Helper(s', ts[1..], repaired) else s'
  }

  // ---- runs ----

  datatype Action = Client(call: Call) | Writable(turns: seq<Turn>)

  ghost predicate LegalAction(a: Action, repaired: bool) {
    match a
    case Client(call) => LegalCall(call, repaired)
    case Writable(turns) => forall i :: 0 <= i < |turns| ==> LegalTurn(turns[i], repaired)
  }

  ghost function Act(s: State, a: Action, repaired: bool): (r: State)
    requires BufsOk(s, repaired) && LegalAction(a, repaired)
    ensures BufsOk(r, repaired)
  {
    match a
    case Client(call) => DoCall(s, call, repaired)
    case Writable(turns) => Helper(s, turns, repaired)
  }

  // Nothing more happens to a stream that has been freed.
  ghost function Run(s: State, acts: seq<Action>, repaired: bool): (r: State)
    requires BufsOk(s, repaired) && forall i :: 0 <= i < |acts| ==> LegalAction(acts[i], repaired)
    ensures BufsOk(r, repaired)
    decreases |acts|
  {
    if acts == [] || !s.alive then s else Run(Act(s, acts[0], repaired), acts[1..], repaired)
  }

  const INITIAL := State(Queue([], false, 0), NONE, None, [], [], [], [], 0, false, false, false, false, true)
}
