/**
StreamImpl and its list of requests as objects (src/stream.cc), proved against module StreamModel.
The buffer of a request is the list of its extents; module BufferHeap has the buffers themselves.
*/
module StreamHeap {
  import opened Wrappers
  import opened Extents
  import opened Interest
  import opened Sending
  import opened StreamModel
  import opened StreamInvariant
  import opened StreamTheorems
  import opened StreamCallbacks

  class WriteRequest {
    ghost const id: nat
    const notify: bool
    var buffer: seq<Ext>
    var next: WriteRequest?

    constructor (ghost id: nat, buf: seq<Ext>, notify: bool)
      ensures this.id == id && this.notify == notify && buffer == buf && next == null
    {
      this.id, this.notify, buffer, next := id, notify, buf, null;
    }

    ghost function Value(): Request
      reads this`buffer
    {
      Request(id, buffer, notify)
    }
  }

  // Each node points at the next, the last at nothing, and later nodes have greater ids.
  ghost predicate Chain(nodes: seq<WriteRequest>)
    reads nodes`next
  {
    && (forall i {:trigger nodes[i].next} :: 0 <= i < |nodes| ==>
          nodes[i].next == if i + 1 < |nodes| then nodes[i + 1] else null)
    && (forall i, j :: 0 <= i < j < |nodes| ==> nodes[i].id < nodes[j].id)
  }

  ghost function Values(nodes: seq<WriteRequest>): (rs: seq<Request>)
    reads nodes
    ensures |rs| == |nodes| && forall i :: 0 <= i < |nodes| ==> rs[i] == nodes[i].Value()
  {
    seq(|nodes|, i requires 0 <= i < |nodes| reads nodes => nodes[i].Value())
  }

  lemma ValuesConcat(a: seq<WriteRequest>, b: seq<WriteRequest>)
    ensures Values(a + b) == Values(a) + Values(b)
  {
  }

  lemma ChainOne(n: WriteRequest)
    requires n.next == null
    ensures Chain([n]) && Values([n]) == [n.Value()]
  {
  }

  lemma ChainTail(nodes: seq<WriteRequest>)
    requires Chain(nodes) && nodes != []
    ensures Chain(nodes[1..]) && Values(nodes[1..]) == Values(nodes)[1..]
    ensures nodes[0] !in nodes[1..] && forall i :: 0 < i < |nodes| ==> nodes[i] != nodes[0]
    ensures nodes[0].next == if |nodes| > 1 then nodes[1] else null
  {
  }

  // Relinking leaves the values alone.
  twostate lemma ValuesKept(nodes: seq<WriteRequest>)
    requires forall n :: n in nodes ==> n.buffer == old(n.buffer)
    ensures Values(nodes) == old(Values(nodes))
  {
  }

  // Only the first node has changed.
  twostate lemma FirstChanged(nodes: seq<WriteRequest>)
    requires nodes != [] && forall i :: 0 < i < |nodes| ==> nodes[i].buffer == old(nodes[i].buffer)
    ensures Values(nodes) == [nodes[0].Value()] + old(Values(nodes))[1..]
  {
  }

  // Hangs req behind a node, which need not be in the list.
  method Link(at: WriteRequest, req: WriteRequest, ghost nodes: seq<WriteRequest>)
    requires Chain(nodes) && req.next == null && nodes != [] && at != req && req !in nodes
    requires forall n :: n in nodes ==> n.id < req.id
    modifies at`next
    ensures at == nodes[|nodes| - 1] ==> Chain(nodes + [req])
    ensures at == nodes[0] ==> Chain([nodes[0]] + [req])
    ensures at !in nodes ==> Chain(nodes)
  {
    at.next := req;
  }

  // Sweeping a list takes as many out of what is allocated as the list is long.
  lemma {:induction false} SweptSize<T>(xs: seq<T>, live: set<T>)
    requires forall i, j :: 0 <= i < j < |xs| ==> xs[i] != xs[j]
    requires forall x :: x in xs ==> x in live
    ensures |live - set x | x in xs| + |xs| == |live|
  {
    var swept := set x | x in xs;
    DistinctSize(xs, swept);
    assert live == live - swept + swept;
  }

  lemma {:induction false} DistinctSize<T>(xs: seq<T>, members: set<T>)
    requires forall i, j :: 0 <= i < j < |xs| ==> xs[i] != xs[j]
    requires forall x :: x in members <==> x in xs
    ensures |members| == |xs|
  {
    if xs != [] {
      var rest, last := xs[..|xs| - 1], xs[|xs| - 1];
      assert xs == rest + [last] && last !in rest;
      DistinctSize(rest, members - {last});
    }
  }

  class Requests {
    const repaired: bool
    var head: WriteRequest?
    var tail: WriteRequest?
    ghost var nodes: seq<WriteRequest>
    ghost var tailInList: bool
    ghost var since: nat
    // The requests that have been appended and not deleted.
    ghost var live: set<WriteRequest>
    // Everything that was ever in the list: a tail left behind points at a request already deleted.
    ghost var Repr: set<object>

    // The list's nodes are alive, and repaired nothing else is.
    ghost predicate Owned(members: seq<WriteRequest>, owned: set<WriteRequest>) {
      (forall n :: n in members ==> n in owned) && (repaired ==> forall n :: n in owned ==> n in members)
    }

    ghost predicate Valid()
      reads this, Repr
    {
      && this in Repr && (forall n :: n in live ==> n in Repr) && (tail != null ==> tail in Repr)
      && Owned(nodes, live)
      && Chain(nodes)
      && head == (if nodes == [] then null else nodes[0])
      && (tail == null <==> nodes == [])
      && (nodes == [] ==> !tailInList)
      && (nodes != [] && repaired ==> tailInList && tail == nodes[|nodes| - 1])
      && (nodes != [] && !repaired ==> if tailInList then tail == nodes[0] else tail !in live)
    }

    ghost function Contents(): (q: Queue)
      reads this, Repr
      requires Valid()
      ensures q.since == since && (q.reqs == [] <==> head == null) &&
              (head != null ==> head in Repr && q.reqs[0] == head.Value())
      ensures Strays(q, repaired) <==> tail != null && tail !in live
    {
      Queue(Values(nodes), tailInList, since)
    }

    constructor (repaired: bool)
      ensures Valid() && fresh(Repr) && Repr == {this} && this.repaired == repaired && Contents() == INITIAL.queue
    {
      this.repaired := repaired;
      head, tail, nodes, tailInList, since, live := null, null, [], false, 0, {};
      Repr := {this};
    }

    // Requests::append.  Strays: the store goes to a request that has been deleted.
    method Append(req: WriteRequest) returns (ghost strays: bool)
      requires Valid() && req !in Repr && req.next == null
      requires forall n :: n in nodes ==> n.id < req.id
      modifies Repr
      ensures Valid() && Repr == old(Repr) + {req} && forall n :: n in nodes ==> n in old(nodes) || n == req
      ensures old(head) != null ==> head == old(head)
      ensures Contents() == Enqueue(old(Contents()), req.Value(), repaired)
      ensures live == old(live) + {req} && req !in old(live)
      ensures strays == (old(tail) != null && old(tail) !in old(live)) == Strays(old(Contents()), repaired)
    {
      hide Values, Chain;
      strays := tail != null && tail !in live;
      if head == null {
        head := req;
        tail := req;
        ChainOne(req);
        Adopt([req], true, req);
      } else {
        AppendBehind(tail, req);
      }
    }

    method AppendBehind(at: WriteRequest, req: WriteRequest)
      requires Valid() && req !in Repr && req.next == null && at == tail
      requires forall n :: n in nodes ==> n.id < req.id
      modifies Repr
      ensures Valid() && Repr == old(Repr) + {req} && forall n :: n in nodes ==> n in old(nodes) || n == req
      ensures old(head) != null ==> head == old(head)
      ensures Contents() == Enqueue(old(Contents()), req.Value(), repaired) && live == old(live) + {req}
    {
      hide Values, Chain, Owned;
      ghost var chain := nodes;
      OwnedBoth(chain, live, req);
      Link(at, req, chain);
      ValuesKept(chain);
      if repaired {
        tail := req;
        ValuesConcat(chain, [req]);
        Adopt(chain + [req], true, req);
      } else if tailInList {
        ValuesConcat([chain[0]], [req]);
        Adopt([chain[0]] + [req], true, req);
      } else {
        Adopt(chain, false, req);
      }
    }

    lemma OwnedBoth(members: seq<WriteRequest>, owned: set<WriteRequest>, req: WriteRequest)
      requires Owned(members, owned)
      ensures forall n :: n in members ==> n in owned
      ensures Owned(members + [req], owned + {req})
      ensures !repaired ==> Owned(members, owned + {req})
      ensures !repaired && members != [] ==> Owned([members[0]] + [req], owned + {req})
    {
    }

    // Records that the list now consists of `members`, req being new.
    ghost method Adopt(members: seq<WriteRequest>, inList: bool, req: WriteRequest)
      requires this in Repr && (forall n :: n in live ==> n in Repr) && tail != null && tail in Repr + {req}
      requires Owned(members, live + {req})
      requires Chain(members) && members != [] && head == members[0]
      requires repaired ==> inList && tail == members[|members| - 1]
      requires !repaired ==> if inList then tail == members[0] else tail !in live + {req}
      modifies this`nodes, this`tailInList, this`since, this`live, this`Repr
      ensures Valid() && Repr == old(Repr) + {req} && live == old(live) + {req}
      ensures nodes == members && tailInList == inList && since == old(since) + 1
    {
      hide Chain;
      nodes, tailInList, since, live, Repr := members, inList, since + 1, live + {req}, Repr + {req};
    }

    lemma OwnedTail(members: seq<WriteRequest>, owned: set<WriteRequest>)
      requires Owned(members, owned) && members != [] && members[0] !in members[1..]
      ensures members[0] in owned && Owned(members[1..], owned - {members[0]})
    {
    }

    // delete: only what is allocated may be deleted.
    ghost method Delete(req: WriteRequest)
      requires req in live
      modifies this`live
      ensures live == old(live) - {req}
    {
      live := live - {req};
    }

    // Requests::consumeFront
    method ConsumeFront() returns (next: WriteRequest?)
      requires Valid()
      modifies this
      ensures Valid() && Repr == old(Repr) && next == head && (next == null <==> nodes == [])
      ensures old(nodes) == [] ==> Contents() == old(Contents()) && live == old(live)
      ensures old(nodes) != [] ==> nodes == old(nodes)[1..] && Contents() == Dequeue(old(Contents()), repaired)
                                   && live == old(live) - {old(nodes)[0]} && old(nodes)[0] in old(live)
    {
      hide Chain, Values, Owned;
      if head == null {
        return null;
      }
      ChainTail(nodes);
      OwnedTail(nodes, live);
      var spent := head;
      head := head.next;
      if head == null {
        tail := null;
      }
      Delete(spent);
      tailInList := repaired && |nodes| > 1;
      since := if |nodes| == 1 then 0 else since;
      nodes := nodes[1..];
      return head;
    }

    // Changes the buffer of the front request.
    method SetFront(req: WriteRequest, buf: seq<Ext>)
      requires Valid() && req == head
      modifies req`buffer
      ensures Valid()
      ensures Contents() == old(Contents()).(reqs := [req.Value()] + old(Contents()).reqs[1..]) && req.buffer == buf
    {
      hide Chain, Values, Owned;
      ChainTail(nodes);
      req.buffer := buf;
      FirstChanged(nodes);
    }

    // The destructor's sweep: every request still in the list is deleted.  What stays allocated is what had
    // dropped out of the list; repaired that is nothing.
    method ConsumeAll() returns (n: nat)
      requires Valid()
      modifies this
      ensures Valid() && Repr == old(Repr) && nodes == [] && n == |old(nodes)|
      ensures live == old(live) - set m | m in old(nodes)
      ensures |live| + n == |old(live)| && (repaired ==> live == {})
    {
      hide Valid, Contents;
      Ends();
      SweptSize(nodes, live);
      n := if head == null then 0 else 1;
      var r := ConsumeFront();
      while r != null
        invariant Valid() && Repr == old(Repr) && r == head && (r == null <==> nodes == [])
        invariant n <= |old(nodes)| && nodes == old(nodes)[n..] && live == old(live) - set m | m in old(nodes)[..n]
        decreases |nodes|
      {
        r := ConsumeFront();
        n := n + 1;
      }
      assert old(nodes)[..n] == old(nodes);
      Ends();
    }

    lemma Ends()
      requires Valid()
      ensures head == null <==> nodes == []
      ensures repaired && nodes == [] ==> live == {}
      ensures forall n :: n in nodes ==> n in live
      ensures forall i, j :: 0 <= i < j < |nodes| ==> nodes[i] != nodes[j]
    {
      assert forall i, j :: 0 <= i < j < |nodes| ==> nodes[i].id < nodes[j].id;
    }
  }

  // What has been sent so far followed by what is sent from now on.
  function SentThen(sent: seq<Byte>, blocked: bool, later: Sent): Sent {
    Sent(sent + later.wire, blocked || later.blocked, later.failed)
  }

  // One time round the loop over the extents.
  lemma SendTurn(sent: seq<Byte>, blocked: bool, parts: seq<seq<Byte>>, replies: seq<Reply>, repaired: bool)
    requires parts != []
    ensures var start := SentThen(sent, blocked, SendParts(parts, replies, repaired));
            match ReplyTo(replies)
            case Fails => start == Sent(sent, blocked, true)
            case Takes(limit) =>
              var n := Min(limit, |parts[0]|);
              var sent', blocked' := sent + parts[0][..n], blocked || n < |parts[0]|;
              if repaired && n < |parts[0]| then start == Sent(sent', true, false)
              else start == SentThen(sent', blocked', SendParts(parts[1..], Later(replies), repaired))
  {
    if ReplyTo(replies).Takes? {
      var part := parts[0][..Min(ReplyTo(replies).limit, |parts[0]|)];
      var after := SendParts(parts[1..], Later(replies), repaired);
      assert sent + (part + after.wire) == (sent + part) + after.wire;
    } else {
      assert sent + [] == sent;
    }
  }

  lemma SendEnds(sent: seq<Byte>, blocked: bool, replies: seq<Reply>, repaired: bool)
    ensures SentThen(sent, blocked, SendParts([], replies, repaired)) == Sent(sent, blocked, false)
  {
    assert sent + [] == sent;
  }

  // The loop of writeHelper over the extents of one request.
  method SendExtents(parts: seq<seq<Byte>>, replies: seq<Reply>, repaired: bool)
    returns (total: nat, blocked: bool, failed: bool, ghost sent: seq<Byte>)
    ensures var s := SendParts(parts, replies, repaired);
            total == |s.wire| && blocked == s.blocked && failed == s.failed && sent == s.wire
  {
    hide SendParts, SentThen;
    total, blocked, failed, sent := 0, false, false, [];
    var i, rest := 0, replies;
    ghost var start := SendParts(parts, replies, repaired);
    SendStarts(start);
    assert parts[0..] == parts;
    while i < |parts| && !failed && !(repaired && blocked)
      invariant i <= |parts| && total == |sent|
      invariant failed || (repaired && blocked) ==> start == Sent(sent, blocked, failed)
      invariant !failed && !(repaired && blocked) ==>
                  start == SentThen(sent, blocked, SendParts(parts[i..], rest, repaired))
    {
      SendTurn(sent, blocked, parts[i..], rest, repaired);
      assert parts[i..][1..] == parts[i + 1..];
      match ReplyTo(rest) {
        case Fails =>
          failed := true;
        case Takes(limit) =>
          var written := Min(limit, |parts[i]|);
          if written < |parts[i]| {
            blocked := true;
          }
          total, sent := total + written, sent + parts[i][..written];
      }
      rest := Later(rest);
      i := i + 1;
    }
    if !failed && !(repaired && blocked) {
      SendEnds(sent, blocked, rest, repaired);
    }
  }

  lemma SendStarts(s: Sent)
    ensures SentThen([], false, s) == s
  {
    assert [] + s.wire == s.wire;
  }

  lemma InvFront(s: State, repaired: bool)
    requires Inv(s, repaired) && s.queue.reqs != []
    ensures Sendable(s.queue.reqs[0].buf, repaired) && BufsOk(s, repaired)
  {
  }

  // One turn of the helper, taken apart the way the loop goes through it.
  lemma HelperStep(s: State, ts: seq<Turn>, repaired: bool)
    requires Inv(s, repaired) && LegalTurns(ts, repaired) && s.queue.reqs != [] && ts != []
    ensures BufsOk(s, repaired) && LegalCalls(ts[0].calls, repaired)
    ensures var notify := s.queue.reqs[0].notify;
            var sent := SentOf(s.queue.reqs[0].buf, ts[0].replies, repaired);
            var s1 := Transmit(s, ts[0].replies, repaired);
            && s1.queue.reqs != [] && s1.queue.reqs[0].notify == notify
            && BufsOk(Fail(s1), repaired)
            && (sent.failed ==> Helper(s, ts, repaired) == Notify(Fail(s1), notify, ts[0].calls, repaired))
            && (sent.blocked && !sent.failed ==> Helper(s, ts, repaired) == s1)
            && (!sent.blocked && !sent.failed ==>
                  var s2 := Finish(s1, repaired);
                  BufsOk(s2, repaired) &&
                  var last := s2.queue.reqs == [];
                  var s3 := Release(Notify(s2, notify, ts[0].calls, repaired), notify && ts[0].release && last);
                  && Inv(s3, repaired) && BufsOk(s3, repaired)
                  && (!last ==> s3.alive == s.alive && Helper(s, ts, repaired) == Helper(s3, ts[1..], repaired))
                  && (last ==> Helper(s, ts, repaired) == s3))
  {
    hide Inv, LegalCalls, DoCalls;
    assert LegalTurn(ts[0], repaired);
    InvBufs(s, repaired);
    HelperTurnInv(s, ts[0], repaired);
    InvBufs(HelperTurn(s, ts[0], repaired).0, repaired);
    var s2 := Finish(Transmit(s, ts[0].replies, repaired), repaired);
    CallsAreSilent(s2, ts[0].calls, repaired);
  }

  lemma HelperEnds(s: State, ts: seq<Turn>, repaired: bool)
    requires BufsOk(s, repaired) && LegalTurns(ts, repaired)
    ensures ts == [] || s.queue.reqs == [] ==> Helper(s, ts, repaired) == s
  {
  }

  ghost predicate LegalActions(acts: seq<Action>, repaired: bool) {
    forall i :: 0 <= i < |acts| ==> LegalAction(acts[i], repaired)
  }

  lemma RunStep(s: State, acts: seq<Action>, repaired: bool)
    requires Inv(s, repaired) && s.alive && LegalActions(acts, repaired) && acts != []
    ensures BufsOk(s, repaired) && LegalAction(acts[0], repaired)
    ensures acts[0].Client? ==> LegalCalls([acts[0].call], repaired)
    ensures acts[0].Writable? ==> LegalTurns(acts[0].turns, repaired)
    ensures var s' := Act(s, acts[0], repaired);
            && Inv(s', repaired) && BufsOk(s', repaired) && Run(s, acts, repaired) == Run(s', acts[1..], repaired)
            && (!s'.alive ==> Run(s, acts, repaired) == s')
            && (acts[0].Client? ==> s' == DoCalls(s, [acts[0].call], repaired) && s'.alive)
            && (acts[0].Writable? ==> s' == Helper(s, acts[0].turns, repaired))
  {
    InvBufs(s, repaired);
    RunInv(s, acts[..1], repaired);
    var s' := Act(s, acts[0], repaired);
    assert acts[..1][1..] == [] && acts[..1][0] == acts[0];
    assert Run(s, acts[..1], repaired) == Run(s', [], repaired) == s';
    if acts[0].Client? {
      CallIsSilent(s, acts[0].call, repaired);
      assert [acts[0].call][1..] == [];
    }
  }

  lemma RunEnds(s: State, acts: seq<Action>, repaired: bool)
    requires BufsOk(s, repaired) && LegalActions(acts, repaired)
    ensures acts == [] ==> Run(s, acts, repaired) == s
  {
  }

  class StreamImpl {
    const requests: Requests
    const repaired: bool
    var watched: What
    var reader: Option<nat>
    // What an observer notes down.
    ghost var wire: seq<Byte>
    ghost var given: seq<Byte>
    ghost var issued: seq<Issue>
    ghost var log: seq<Event>
    ghost var busiest: nat
    ghost var skipped: bool
    ghost var scrambled: bool
    ghost var clobbered: bool
    ghost var strayed: bool
    // The stream has not been freed.  Every function and method needs that, through Valid.
    ghost var alive: bool

    ghost predicate Valid()
      reads this, requests, requests.Repr
    {
      && alive
      && requests.Valid() && this !in requests.Repr && requests.repaired == repaired
      && |requests.live| + DoneCount(log) == |issued|
      && (forall n :: n in requests.nodes ==> n.id < |issued|)
    }

    ghost function Now(): (s: State)
      reads this, requests, requests.Repr
      requires Valid()
      ensures s.alive && (s.queue.reqs == [] <==> requests.head == null)
      ensures requests.head != null ==> s.queue.reqs[0].notify == requests.head.notify
    {
      State(requests.Contents(), watched, reader, wire, given, issued, log,
            busiest, skipped, scrambled, clobbered, strayed, alive)
    }

    // The notes agree with those in r; unlike the stream, they outlive it.
    ghost predicate Noted(r: State)
      reads this
    {
      && wire == r.wire && given == r.given && issued == r.issued && log == r.log && busiest == r.busiest
      && skipped == r.skipped && scrambled == r.scrambled && clobbered == r.clobbered && strayed == r.strayed
    }

    // Every request ever made has been deleted, or some are still allocated and out of reach: that depends on
    // whether a busy period has had a third.
    ghost predicate Swept()
      reads this, requests
    {
      requests.live == {} <==> repaired || busiest <= 2
    }

    // What is left of the stream is as in r: if r is alive everything, and otherwise the notes; and then nothing is
    // watched any more.
    ghost predicate Leaves(r: State)
      reads this, requests, requests.Repr
    {
      && alive == r.alive && Noted(r) && (alive ==> Valid() && Now() == r)
      && (!alive ==> watched == NONE && (Inv(r, repaired) ==> Swept()))
    }

    // requests_.head
    function Front(): (req: WriteRequest?)
      requires Valid()
      reads this, requests, requests.Repr
      ensures req == requests.head && (req == null <==> Now().queue.reqs == [])
    {
      requests.head
    }

    // The front request's callback_, as far as there is one.
    function HasCallback(req: WriteRequest): (notify: bool)
      requires Valid() && req == requests.head
      reads this, requests, requests.Repr
      ensures notify == Now().queue.reqs[0].notify
    {
      req.notify
    }

    constructor (repaired: bool)
      ensures Valid() && fresh(requests.Repr) && this.repaired == repaired && Now() == INITIAL
    {
      this.repaired := repaired;
      requests := new Requests(repaired);
      watched, reader := NONE, None;
      wire, given, issued, log, busiest := [], [], [], [], 0;
      skipped, scrambled, clobbered, strayed, alive := false, false, false, false, true;
    }

    // write
    method Write(buf: seq<Ext>, notify: bool)
      requires Valid() && AllOk(buf, repaired)
      modifies this, requests, requests.Repr
      ensures Valid() && fresh(requests.Repr - old(requests.Repr))
      ensures Now() == StreamModel.Write(old(Now()), buf, notify, repaired)
      ensures old(requests.head) != null ==> requests.head == old(requests.head)
    {
      hide Requests.Valid, Requests.Contents, EnsureWrite, View, AllOk, Enqueue, Strays;
      ghost var strays := AppendRequest(buf, notify);
      Note(buf, notify, strays);
      watched := EnsureWrite(watched, repaired);
    }

    method AppendRequest(buf: seq<Ext>, notify: bool) returns (ghost strays: bool)
      requires Valid()
      modifies requests, requests.Repr
      ensures requests.Valid() && this !in requests.Repr && fresh(requests.Repr - old(requests.Repr))
      ensures forall n :: n in requests.nodes ==> n.id <= |issued|
      ensures old(requests.head) != null ==> requests.head == old(requests.head)
      ensures requests.Contents() == Enqueue(old(requests.Contents()), Request(|issued|, buf, notify), repaired)
      ensures strays == Strays(old(requests.Contents()), repaired) && |requests.live| == |old(requests.live)| + 1
    {
      hide Requests.Valid, Requests.Contents, Enqueue, Strays;
      var req := new WriteRequest(|issued|, buf, notify);
      strays := requests.Append(req);
    }

    // The observer's notes about a write.
    ghost method Note(buf: seq<Ext>, notify: bool, strays: bool)
      requires AllOk(buf, repaired)
      modifies `clobbered, `given, `issued, `busiest, `strayed
      ensures strayed == (old(strayed) || strays)
      ensures clobbered == (old(clobbered) || (!repaired && watched == READ_WRITE && reader.Some?))
      ensures given == old(given) + View(buf, repaired) && issued == old(issued) + [Issue(|given|, notify)]
      ensures busiest == if requests.since > old(busiest) then requests.since else old(busiest)
    {
      strayed := strayed || strays;
      clobbered := clobbered || (!repaired && watched == READ_WRITE && reader.Some?);
      given := given + View(buf, repaired);
      issued := issued + [Issue(|given|, notify)];
      busiest := if requests.since > busiest then requests.since else busiest;
    }

    method StartRead(callback: nat)
      requires Valid()
      modifies this
      ensures Valid() && Now() == StreamModel.StartRead(old(Now()), callback, repaired)
    {
      hide Requests.Valid, Requests.Contents, EnsureRead;
      if reader == Some(callback) {
        return;
      }
      reader := Some(callback);
      clobbered := clobbered || (!repaired && watched == READ_WRITE && requests.head != null);
      watched := EnsureRead(watched, repaired);
    }

    method StopRead()
      requires Valid()
      modifies this
      ensures Valid() && Now() == StreamModel.StopRead(old(Now()))
    {
      hide Requests.Valid, Requests.Contents;
      if reader == None {
        return;
      }
      reader := None;
      if !IsRead(watched) {
        return;
      } else if IsWrite(watched) {
        watched := WRITE;
      }
    }

    // What a callback does to the stream.
    method MakeCalls(cs: seq<Call>)
      requires Valid() && LegalCalls(cs, repaired)
      modifies this, requests, requests.Repr
      ensures Valid() && fresh(requests.Repr - old(requests.Repr))
      ensures Now() == DoCalls(old(Now()), cs, repaired)
      ensures old(requests.head) != null ==> requests.head == old(requests.head)
    {
      hide Valid, Now, Requests.Valid, StreamModel.Write, StreamModel.StartRead, StreamModel.StopRead;
      ghost var start := Now();
      var i := 0;
      assert cs[0..] == cs;
      while i < |cs|
        invariant i <= |cs| && Valid() && fresh(requests.Repr - old(requests.Repr))
        invariant DoCalls(Now(), cs[i..], repaired) == DoCalls(start, cs, repaired)
        invariant old(requests.head) != null ==> requests.head == old(requests.head)
      {
        assert cs[i..][1..] == cs[i + 1..];
        assert LegalCall(cs[i], repaired);
        match cs[i] {
          case Submit(buf, notify) => Write(buf, notify);
          case StartReading(callback) => StartRead(callback);
          case StopReading => StopRead();
        }
        i := i + 1;
      }
    }

    // The part of a turn in which the kernel is given the front request's extents.
    method SendFront(req: WriteRequest, replies: seq<Reply>) returns (blocked: bool, failed: bool)
      requires Valid() && req == requests.head && Inv(Now(), repaired)
      modifies this, requests.Repr
      ensures Valid() && requests.Repr == old(requests.Repr) && requests.head == req
      ensures Now() == Transmit(old(Now()), replies, repaired)
      ensures var sent := SentOf(old(Now()).queue.reqs[0].buf, replies, repaired);
              blocked == sent.blocked && failed == sent.failed
    {
      hide Requests.Valid, Requests.Contents, View, PeekExtents, SendParts, Drained, AllOk, Skips, Lengths, Inv,
          IsPrefix;
      assert Now().queue.reqs[0] == req.Value();
      InvFront(Now(), repaired);
      TurnSends(req.buffer, replies, repaired);
      var extents := PeekExtents(req.buffer, TWO_64 - 1, 0, repaired);
      assert extents != [];
      ghost var sent;
      var total;
      total, blocked, failed, sent := SendExtents(extents, replies, repaired);
      NoteSent(sent, Skips(Lengths(extents), replies), IsPrefix(sent, View(req.buffer, repaired)));
      requests.SetFront(req, Drained(req.buffer, total, repaired));
    }

    ghost method NoteSent(sent: seq<Byte>, skips: bool, inOrder: bool)
      modifies `wire, `skipped, `scrambled
      ensures wire == old(wire) + sent
      ensures skipped == (old(skipped) || skips) && scrambled == (old(scrambled) || !inOrder)
    {
      wire, skipped, scrambled := wire + sent, skipped || skips, scrambled || !inOrder;
    }

    // The part of a turn that takes a request which is done off the list, and deletes it.
    method FinishFront(req: WriteRequest) returns (next: WriteRequest?)
      requires Valid() && req == requests.head
      modifies this, requests
      ensures Valid() && requests.Repr == old(requests.Repr) && next == requests.head
      ensures Now() == Finish(old(Now()), repaired)
    {
      hide Requests.Valid, RemoveWrite, DoneCount;
      ghost var done := Now().queue.reqs[0];
      next := requests.ConsumeFront();
      assert |requests.live| + 1 == |old(requests.live)|;
      CountAdded(log, Done(done.id, |wire|, done.notify, if next == null then RemoveWrite(watched) else watched,
                           next == null));
      if next == null {
        // before the callback, which may be the last thing that happens to this stream
        watched := RemoveWrite(watched);
      }
      log := log + [Done(done.id, |wire|, done.notify, watched, next == null)];
    }

    ghost method NoteFailure(req: WriteRequest)
      requires Valid() && req == requests.head
      modifies `log
      ensures Valid() && Now() == Fail(old(Now()))
    {
      hide Requests.Valid, Requests.Contents, DoneCount;
      CountAdded(log, Failed(req.id, req.notify));
      log := log + [Failed(req.id, req.notify)];
    }

    // A callback, if there is one: its calls, and then perhaps the end of the stream.
    method Invoke(callback: bool, cs: seq<Call>, release: bool) returns (released: bool)
      requires Valid() && LegalCalls(cs, repaired) && BufsOk(Now(), repaired)
      modifies this, requests, requests.Repr
      ensures fresh(requests.Repr - old(requests.Repr)) && released == (callback && release)
      ensures Leaves(Release(Notify(old(Now()), callback, cs, repaired), callback && release))
      ensures alive == !released && (alive ==> Valid())
      ensures old(requests.head) != null && !released ==> requests.head == old(requests.head)
    {
      hide Requests.Valid, DoCalls;
      released := callback && release;
      if callback {
        MakeCalls(cs);
        if release {
          ghost var end := Now();
          ReleaseInv(end);
          var swept := Destroy();
        }
      }
    }

    // Released: a callback has freed the stream.  The last thing this method does with the stream is then to
    // invoke that callback; from there on only local variables are left to it.
    method WriteHelper(ts: seq<Turn>) returns (released: bool)
      requires Valid() && Inv(Now(), repaired) && LegalTurns(ts, repaired)
      modifies this, requests, requests.Repr
      ensures fresh(requests.Repr - old(requests.Repr)) && BufsOk(old(Now()), repaired)
      ensures Leaves(Helper(old(Now()), ts, repaired)) && released == !alive
    {
      hide Valid, Now, Requests.Valid, Inv, Transmit, Finish, Helper, SentOf, LegalTurn, BufsOk, DoCalls, Fail, Noted;
      ghost var start := Now();
      InvBufs(start, repaired);
      NowLeaves();
      ghost var end := Helper(start, ts, repaired);
      released := false;
      var req := Front();
      var blocked, failed, calls, i := false, false, [], 0;
      assert ts[0..] == ts;
      HelperEnds(start, ts, repaired);
      while req != null && i < |ts|
        invariant i <= |ts| && !blocked && !failed && released == !alive && fresh(requests.Repr - old(requests.Repr))
        invariant req != null ==> !released && Valid() && Inv(Now(), repaired) && BufsOk(Now(), repaired)
        invariant req != null ==> req == requests.head && Helper(Now(), ts[i..], repaired) == end
        invariant req == null || i == |ts| ==> Leaves(end)
      {
        HelperStep(Now(), ts[i..], repaired);
        assert ts[i..][1..] == ts[i + 1..];
        blocked, failed := SendFront(req, ts[i].replies);
        if blocked || failed {
          NowLeaves();
          calls := ts[i].calls;
          break;
        }
        var callback := HasCallback(req);
        var next := FinishFront(req);
        released := Invoke(callback, ts[i].calls, ts[i].release && next == null);
        req := next;
        i := i + 1;
        if req != null {
          NowLeaves();
          HelperEnds(Now(), ts[i..], repaired);
        }
      }
      if failed {
        NoteFailure(req);
        released := Invoke(HasCallback(req), calls, false);
      }
    }

    lemma ReleaseInv(s: State)
      ensures Inv(Release(s, true), repaired) ==> Inv(s, repaired)
    {
    }

    lemma NowLeaves()
      requires Valid()
      ensures alive && Leaves(Now())
    {
    }

    // Any run at all: what comes out is what StreamModel says, so everything StreamTheorems says holds.
    method Perform(acts: seq<Action>)
      requires Valid() && Inv(Now(), repaired) && LegalActions(acts, repaired)
      modifies this, requests, requests.Repr
      ensures fresh(requests.Repr - old(requests.Repr)) && BufsOk(old(Now()), repaired)
      ensures Leaves(Run(old(Now()), acts, repaired)) && (!alive ==> watched == NONE && Swept())
    {
      hide Valid, Now, Requests.Valid, Inv, Helper, BufsOk, DoCall, DoCalls, Run, LegalAction, Noted;
      ghost var start := Now();
      InvBufs(start, repaired);
      ghost var end := Run(start, acts, repaired);
      RunInv(start, acts, repaired);
      NowLeaves();
      RunEnds(start, acts, repaired);
      var i, released := 0, false;
      assert acts[0..] == acts;
      while i < |acts| && !released
        invariant i <= |acts| && released == !alive && fresh(requests.Repr - old(requests.Repr))
        invariant alive ==> Valid() && Inv(Now(), repaired) && BufsOk(Now(), repaired)
        invariant alive ==> Run(Now(), acts[i..], repaired) == end
        invariant !alive || i == |acts| ==> Leaves(end)
      {
        RunStep(Now(), acts[i..], repaired);
        assert acts[i..][1..] == acts[i + 1..];
        match acts[i] {
          case Client(call) => MakeCalls([call]);
          case Writable(turns) => released := WriteHelper(turns);
        }
        i := i + 1;
        if !released {
          NowLeaves();
          RunEnds(Now(), acts[i..], repaired);
        }
      }
    }

    // ~StreamImpl: the handler is unregistered and the requests are swept.  As many stay allocated as were
    // made and are neither done nor in the list: none, exactly if no busy period has had a third request.
    method Destroy() returns (swept: nat)
      requires Valid()
      modifies this, requests
      ensures !alive && watched == NONE && Noted(old(Now())) && requests.Repr == old(requests.Repr)
      ensures swept == |old(Now()).queue.reqs| && requests.nodes == []
      ensures |requests.live| + swept + DoneCount(log) == |issued|
      ensures Inv(old(Now()), repaired) ==> Swept()
    {
      watched := NONE;
      swept := requests.ConsumeAll();
      alive := false;
    }
  }
}
