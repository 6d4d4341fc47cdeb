/**
What every call and every turn of the write helper keeps, for the code as it stands and repaired alike.
As written the bytes are all accounted for exactly as long as no busy period has had a third request.
*/
module StreamInvariant {
  import opened Extents
  import opened Interest
  import opened Sending
  import opened StreamModel

  // The contents of all requests, in list order.
  function Pending(reqs: seq<Request>, repaired: bool): seq<Byte>
    requires forall i :: 0 <= i < |reqs| ==> AllOk(reqs[i].buf, repaired)
  {
    if reqs == [] then [] else View(reqs[0].buf, repaired) + Pending(reqs[1..], repaired)
  }

  lemma {:induction false} PendingConcat(a: seq<Request>, b: seq<Request>, repaired: bool)
    requires forall i :: 0 <= i < |a| ==> AllOk(a[i].buf, repaired)
    requires forall i :: 0 <= i < |b| ==> AllOk(b[i].buf, repaired)
    ensures Pending(a + b, repaired) == Pending(a, repaired) + Pending(b, repaired)
  {
    if a == [] {
      assert a + b == b;
    } else {
      assert (a + b)[1..] == a[1..] + b;
      PendingConcat(a[1..], b, repaired);
    }
  }

  ghost predicate AllSendable(reqs: seq<Request>, repaired: bool) {
    forall i :: 0 <= i < |reqs| ==> Sendable(reqs[i].buf, repaired)
  }

  // ---- the parts of the invariant ----

  // No busy period has had a third request, or the tail is kept up to date.
  predicate Roomy(s: State, repaired: bool) {
    repaired || s.busiest <= 2
  }

  ghost predicate Accounted(s: State, repaired: bool)
    requires BufsOk(s, repaired)
  {
    && |s.wire| + |Pending(s.queue.reqs, repaired)| <= |s.given|
    && (|s.wire| + |Pending(s.queue.reqs, repaired)| == |s.given| <==> Roomy(s, repaired))
    && (s.scrambled ==> !repaired && s.skipped)
    && (Roomy(s, repaired) && !s.scrambled ==> s.wire + Pending(s.queue.reqs, repaired) == s.given)
    && (Roomy(s, repaired) && s.scrambled ==> !IsPrefix(s.wire, s.given))
  }

  // The requests are the latest ones issued, and with `at` bytes sent each ends where it should.
  ghost predicate Placed(reqs: seq<Request>, at: nat, first: nat, issued: seq<Issue>, repaired: bool)
    requires forall i :: 0 <= i < |reqs| ==> AllOk(reqs[i].buf, repaired)
    decreases |reqs|
  {
    if reqs == [] then first == |issued|
    else
      && first < |issued| && reqs[0].id == first && reqs[0].notify == issued[first].notify
      && issued[first].end == at + |View(reqs[0].buf, repaired)|
      && Placed(reqs[1..], issued[first].end, first + 1, issued, repaired)
  }

  function DoneCount(log: seq<Event>): nat {
    if log == [] then 0 else DoneCount(log[..|log| - 1]) + if log[|log| - 1].Done? then 1 else 0
  }

  // An event is about the oldest request not yet done; a completion comes when the last of the request's
  // bytes is on the wire and none of the next, and the last completion without interest in writing.
  ghost predicate EventOk(log: seq<Event>, k: nat, issued: seq<Issue>)
    requires k < |log|
  {
    var e := log[k];
    && e.id == DoneCount(log[..k]) && e.id < |issued|
    && e.notify == issued[e.id].notify
    && (e.Done? ==> e.at == issued[e.id].end && (e.last ==> !IsWrite(e.watched)))
  }

  // Every request has been completed or is pending exactly if no busy period has had a third.
  ghost predicate Counted(s: State, repaired: bool) {
    && DoneCount(s.log) + |s.queue.reqs| <= |s.issued|
    && (DoneCount(s.log) + |s.queue.reqs| == |s.issued| <==> Roomy(s, repaired))
  }

  ghost predicate Logged(s: State, repaired: bool)
    requires BufsOk(s, repaired)
  {
    && DoneCount(s.log) + |s.queue.reqs| == |s.issued|
    && Placed(s.queue.reqs, |s.wire|, DoneCount(s.log), s.issued, repaired)
    && forall k :: 0 <= k < |s.log| ==> EventOk(s.log, k, s.issued)
  }

  ghost predicate Interested(s: State) {
    && (s.queue.reqs != [] ==> IsWrite(s.watched))
    && (s.reader.Some? ==> IsRead(s.watched))
  }

  ghost predicate Inv(s: State, repaired: bool) {
    && QueueOk(s.queue, repaired) && s.queue.since <= s.busiest
    && (s.strayed ==> !repaired && s.busiest > 2)
    && AllSendable(s.queue.reqs, repaired)
    && Accounted(s, repaired) && Counted(s, repaired)
    && (Roomy(s, repaired) ==> Logged(s, repaired))
    && (!s.clobbered ==> Interested(s)) && (repaired ==> !s.clobbered)
  }

  lemma InitInv(repaired: bool)
    ensures Inv(INITIAL, repaired)
  {
  }

  // ---- one turn with the kernel ----

  // The helper's assertion holds: a request has something to send.  What a turn sends and what it leaves
  // make up what there was, and it stops exactly when something is left.
  lemma TurnSends(buf: seq<Ext>, replies: seq<Reply>, repaired: bool)
    requires Sendable(buf, repaired)
    ensures Parts(buf, repaired) != [] && AllOk(Drained(buf, |SentOf(buf, replies, repaired).wire|, repaired), repaired)
    ensures var sent := SentOf(buf, replies, repaired);
            var left := View(Drained(buf, |sent.wire|, repaired), repaired);
            && |sent.wire| + |left| == |View(buf, repaired)|
            && (sent.blocked || sent.failed <==> left != [])
            && (IsPrefix(sent.wire, View(buf, repaired)) <==> sent.wire + left == View(buf, repaired))
            && (repaired || !Skips(Lengths(Parts(buf, repaired)), replies) ==> sent.wire + left == View(buf, repaired))
  {
    var sent := SentOf(buf, replies, repaired);
    PeekExtentsExact(buf, TWO_64 - 1, 0, repaired);
    SentLength(Parts(buf, repaired), replies, repaired);
    DrainExact(buf, |sent.wire|, repaired);
    assert Joined(Parts(buf, repaired)) == View(buf, repaired);
    if repaired || !Skips(Lengths(Parts(buf, repaired)), replies) {
      SentInOrder(Parts(buf, repaired), replies, repaired);
    }
  }

  // ---- calls ----

  lemma {:induction false} PlacedAppend(reqs: seq<Request>, at: nat, first: nat, issued: seq<Issue>, r: Request,
      last: Issue, repaired: bool)
    requires AllSendable(reqs, repaired) && Sendable(r.buf, repaired) && Placed(reqs, at, first, issued, repaired)
    requires r.id == |issued| && r.notify == last.notify &&
             last.end == at + |Pending(reqs, repaired)| + |View(r.buf, repaired)|
    ensures Placed(reqs + [r], at, first, issued + [last], repaired)
    decreases |reqs|
  {
    if reqs == [] {
      assert reqs + [r] == [r];
    } else {
      assert (reqs + [r])[1..] == reqs[1..] + [r];
      PlacedAppend(reqs[1..], issued[first].end, first + 1, issued, r, last, repaired);
    }
  }

  // What appending does to the contents of the list.
  lemma EnqueuePending(q: Queue, r: Request, repaired: bool)
    requires QueueOk(q, repaired) && AllSendable(q.reqs, repaired) && Sendable(r.buf, repaired)
    ensures var q' := Enqueue(q, r, repaired);
            && QueueOk(q', repaired) && AllSendable(q'.reqs, repaired)
            && (Strays(q, repaired) ==> q.since >= 2)
            && |q'.reqs| <= |q.reqs| + 1 && (|q'.reqs| == |q.reqs| + 1 <==> repaired || q.since < 2)
            && |Pending(q'.reqs, repaired)| <= |Pending(q.reqs, repaired)| + |View(r.buf, repaired)|
            && (|Pending(q'.reqs, repaired)| == |Pending(q.reqs, repaired)| + |View(r.buf, repaired)| <==>
                repaired || q.since < 2)
            && (repaired || q.since < 2 ==>
                q'.reqs == q.reqs + [r] && Pending(q'.reqs, repaired) ==
                    Pending(q.reqs, repaired) + View(r.buf, repaired))
  {
    var reqs := q.reqs;
    assert Pending([r], repaired) == View(r.buf, repaired);
    PendingConcat(reqs, [r], repaired);
    if !repaired {
      EnqueueExact(q, r);
      if q.since >= 2 && q.tailInList {
        assert reqs[1..][1..] == [] && [reqs[0], r] == [reqs[0]] + [r];
        PendingConcat([reqs[0]], [r], repaired);
        assert Pending([reqs[0]], repaired) == View(reqs[0].buf, repaired);
      }
    }
  }

  lemma WriteAccounted(s: State, buf: seq<Ext>, notify: bool, repaired: bool)
    requires Inv(s, repaired) && Sendable(buf, repaired)
    ensures var s' := Write(s, buf, notify, repaired);
            && QueueOk(s'.queue, repaired) && AllSendable(s'.queue.reqs, repaired)
            && Accounted(s', repaired) && Counted(s', repaired)
            && s'.queue.since <= s'.busiest && (s'.strayed ==> !repaired && s'.busiest > 2)
            && (Roomy(s', repaired) ==>
                Roomy(s, repaired) && s'.queue.reqs == s.queue.reqs + [Request(|s.issued|, buf, notify)])
  {
    hide View, Pending, AllOk, Placed, EventOk, DoneCount, QueueOk, EnsureWrite;
    EnqueuePending(s.queue, Request(|s.issued|, buf, notify), repaired);
    assert s.wire + (Pending(s.queue.reqs, repaired) + View(buf, repaired)) ==
        (s.wire + Pending(s.queue.reqs, repaired)) + View(buf, repaired);
    if s.scrambled && Roomy(s, repaired) {
      StaysScrambled(s.wire, [], s.given, View(buf, repaired));
      assert s.wire + [] == s.wire;
    }
  }

  // Once something wrong is on the wire, it stays so whatever else is sent and given.
  lemma StaysScrambled(wire: seq<Byte>, sent: seq<Byte>, given: seq<Byte>, more: seq<Byte>)
    requires |wire| <= |given|
    ensures IsPrefix(wire + sent, given + more) ==> IsPrefix(wire, given)
  {
    if IsPrefix(wire + sent, given + more) {
      assert wire == (wire + sent)[..|wire|] == (given + more)[..|wire + sent|][..|wire|] == given[..|wire|];
    }
  }

  lemma BecomesScrambled(wire: seq<Byte>, sent: seq<Byte>, front: seq<Byte>, rest: seq<Byte>, given: seq<Byte>)
    requires wire + (front + rest) == given && |sent| <= |front|
    ensures IsPrefix(wire + sent, given) ==> IsPrefix(sent, front)
  {
    if IsPrefix(wire + sent, given) {
      assert sent == (wire + sent)[|wire|..] == given[..|wire + sent|][|wire|..] == front[..|sent|];
    }
  }

  lemma EventsLater(log: seq<Event>, issued: seq<Issue>, more: seq<Issue>)
    requires forall k :: 0 <= k < |log| ==> EventOk(log, k, issued)
    ensures forall k :: 0 <= k < |log| ==> EventOk(log, k, issued + more)
  {
    forall k | 0 <= k < |log| ensures EventOk(log, k, issued + more) {
      assert EventOk(log, k, issued);
    }
  }

  lemma WriteInv(s: State, buf: seq<Ext>, notify: bool, repaired: bool)
    requires Inv(s, repaired) && Sendable(buf, repaired)
    ensures Inv(Write(s, buf, notify, repaired), repaired)
  {
    var s' := Write(s, buf, notify, repaired);
    WriteAccounted(s, buf, notify, repaired);
    if Roomy(s', repaired) {
      var last := Issue(|s.given| + |View(buf, repaired)|, notify);
      PlacedAppend(s.queue.reqs, |s.wire|, DoneCount(s.log), s.issued, Request(|s.issued|, buf, notify), last,
          repaired);
      EventsLater(s.log, s.issued, [last]);
    }
  }

  lemma CallInv(s: State, c: Call, repaired: bool)
    requires Inv(s, repaired) && LegalCall(c, repaired)
    ensures Inv(DoCall(s, c, repaired), repaired)
  {
    if c.Submit? { WriteInv(s, c.buf, c.notify, repaired); }
  }

  lemma {:induction false} CallsInv(s: State, cs: seq<Call>, repaired: bool)
    requires Inv(s, repaired) && LegalCalls(cs, repaired)
    ensures Inv(DoCalls(s, cs, repaired), repaired)
    decreases |cs|
  {
    if cs != [] {
      CallInv(s, cs[0], repaired);
      CallsInv(DoCall(s, cs[0], repaired), cs[1..], repaired);
    }
  }

  // ---- turns of the helper ----

  // With the first request cut down to `left`.
  lemma CutPending(reqs: seq<Request>, left: Request, repaired: bool)
    requires reqs != [] && AllSendable(reqs, repaired) && AllOk(left.buf, repaired)
    ensures Pending([left] + reqs[1..], repaired) == View(left.buf, repaired) + Pending(reqs[1..], repaired)
    ensures Pending(reqs, repaired) == View(reqs[0].buf, repaired) + Pending(reqs[1..], repaired)
  {
    assert ([left] + reqs[1..])[1..] == reqs[1..];
  }

  // Bytes moved from the front of the list to the wire.
  lemma Moved(wire: seq<Byte>, sent: seq<Byte>, left: seq<Byte>, front: seq<Byte>, rest: seq<Byte>)
    ensures |sent| + |left| == |front| ==> |wire + sent| + |left + rest| == |wire| + |front + rest|
    ensures sent + left == front ==> (wire + sent) + (left + rest) == wire + (front + rest)
  {
    assert (wire + sent) + (left + rest) == wire + ((sent + left) + rest);
  }

  lemma TransmitAccounted(s: State, replies: seq<Reply>, repaired: bool)
    requires Inv(s, repaired) && s.queue.reqs != []
    ensures var s' := Transmit(s, replies, repaired);
            && BufsOk(s', repaired) && Accounted(s', repaired)
            && s'.queue.reqs[1..] == s.queue.reqs[1..]
            && Counted(s', repaired) && (Roomy(s, repaired) ==> Logged(s', repaired))
            && (SentOf(s.queue.reqs[0].buf, replies, repaired).blocked ||
                SentOf(s.queue.reqs[0].buf, replies, repaired).failed
                <==> View(s'.queue.reqs[0].buf, repaired) != [])
  {
    hide View, Drained, SendParts, PeekExtents, Skips, DoneCount, EventOk, Lengths, QueueOk;
    var reqs := s.queue.reqs;
    var sent := SentOf(reqs[0].buf, replies, repaired);
    var s' := Transmit(s, replies, repaired);
    var left := s'.queue.reqs[0];
    TurnSends(reqs[0].buf, replies, repaired);
    assert s'.queue.reqs[1..] == reqs[1..];
    CutPending(reqs, left, repaired);
    Moved(s.wire, sent.wire, View(left.buf, repaired), View(reqs[0].buf, repaired), Pending(reqs[1..], repaired));
    if Roomy(s, repaired) && s.scrambled {
      StaysScrambled(s.wire, sent.wire, s.given, []);
      assert s.given + [] == s.given;
    } else if Roomy(s, repaired) && s'.scrambled {
      BecomesScrambled(s.wire, sent.wire, View(reqs[0].buf, repaired), Pending(reqs[1..], repaired), s.given);
    }
  }

  // One more event about the oldest request.
  lemma EventAdded(log: seq<Event>, e: Event, issued: seq<Issue>)
    requires forall k :: 0 <= k < |log| ==> EventOk(log, k, issued)
    requires e.id == DoneCount(log) && e.id < |issued| && e.notify == issued[e.id].notify
    requires e.Done? ==> e.at == issued[e.id].end && (e.last ==> !IsWrite(e.watched))
    ensures forall k :: 0 <= k < |log + [e]| ==> EventOk(log + [e], k, issued)
  {
    var log' := log + [e];
    assert log'[..|log|] == log;
    forall k | 0 <= k < |log| ensures EventOk(log', k, issued) {
      assert EventOk(log, k, issued) && log'[..k] == log[..k];
    }
  }

  lemma CountAdded(log: seq<Event>, e: Event)
    ensures DoneCount(log + [e]) == DoneCount(log) + if e.Done? then 1 else 0
  {
    assert (log + [e])[..|log|] == log;
  }

  // A turn that stops with something left of the front request.
  lemma StopInv(s: State, replies: seq<Reply>, repaired: bool)
    requires Inv(s, repaired) && s.queue.reqs != []
    requires var sent := SentOf(s.queue.reqs[0].buf, replies, repaired); sent.blocked || sent.failed
    ensures var s' := Transmit(s, replies, repaired); Inv(s', repaired) && Inv(Fail(s'), repaired)
  {
    hide View, Drained, SendParts, PeekExtents, Skips, DoneCount, EventOk, Lengths, Pending;
    TransmitAccounted(s, replies, repaired);
    TurnSends(s.queue.reqs[0].buf, replies, repaired);
    var s' := Transmit(s, replies, repaired);
    CountAdded(s'.log, Failed(s'.queue.reqs[0].id, s'.queue.reqs[0].notify));
    if Roomy(s, repaired) {
      EventAdded(s'.log, Failed(s'.queue.reqs[0].id, s'.queue.reqs[0].notify), s'.issued);
    }
  }

  // A turn that sends all that was left of the front request.
  lemma FinishInv(s: State, replies: seq<Reply>, repaired: bool)
    requires Inv(s, repaired) && s.queue.reqs != []
    requires var sent := SentOf(s.queue.reqs[0].buf, replies, repaired); !sent.blocked && !sent.failed
    ensures Inv(Finish(Transmit(s, replies, repaired), repaired), repaired)
  {
    hide View, Drained, SendParts, PeekExtents, Skips, DoneCount, EventOk, Lengths;
    TransmitAccounted(s, replies, repaired);
    var s1 := Transmit(s, replies, repaired);
    var s' := Finish(s1, repaired);
    assert s'.queue.reqs == s.queue.reqs[1..];
    CountAdded(s1.log, s'.log[|s1.log|]);
    if Roomy(s, repaired) {
      EventAdded(s1.log, s'.log[|s1.log|], s1.issued);
    }
  }

  lemma InvBufs(s: State, repaired: bool)
    requires Inv(s, repaired)
    ensures BufsOk(s, repaired)
  {
  }

  // One time round the loop of the helper, taken apart.
  lemma HelperTurnIs(s: State, t: Turn, repaired: bool)
    requires BufsOk(s, repaired) && LegalTurn(t, repaired) && s.queue.reqs != []
    ensures var req := s.queue.reqs[0];
            var sent := SentOf(req.buf, t.replies, repaired);
            var s1 := Transmit(s, t.replies, repaired);
            var s2 := Finish(s1, repaired);
            && LegalCalls(t.calls, repaired) && BufsOk(s2, repaired)
            && HelperTurn(s, t, repaired).0 ==
               if sent.failed then Notify(Fail(s1), req.notify, t.calls, repaired)
               else if sent.blocked then s1
               else Release(Notify(s2, req.notify, t.calls, repaired), req.notify && s2.queue.reqs == [] && t.release)
  {
    hide Transmit, DoCalls, SentOf, Fail;
  }

  lemma NotifyInv(s: State, notify: bool, cs: seq<Call>, repaired: bool)
    requires Inv(s, repaired) && LegalCalls(cs, repaired)
    ensures BufsOk(s, repaired) && Inv(Notify(s, notify, cs, repaired), repaired)
  {
    InvBufs(s, repaired);
    hide Inv, DoCalls, LegalCalls;
    CallsInv(s, cs, repaired);
  }

  // Every turn keeps the invariant.
  lemma HelperTurnInv(s: State, t: Turn, repaired: bool)
    requires Inv(s, repaired) && LegalTurn(t, repaired) && s.queue.reqs != []
    ensures Inv(HelperTurn(s, t, repaired).0, repaired)
  {
    InvBufs(s, repaired);
    HelperTurnIs(s, t, repaired);
    hide *;
    var req := s.queue.reqs[0];
    var sent := SentOf(req.buf, t.replies, repaired);
    var s1 := Transmit(s, t.replies, repaired);
    if sent.blocked || sent.failed {
      StopInv(s, t.replies, repaired);
      NotifyInv(Fail(s1), req.notify, t.calls, repaired);
    } else {
      FinishInv(s, t.replies, repaired);
      var s2 := Finish(s1, repaired);
      NotifyInv(s2, req.notify, t.calls, repaired);
      ReleaseInv(Notify(s2, req.notify, t.calls, repaired), req.notify && s2.queue.reqs == [] && t.release, repaired);
    }
  }

  lemma ReleaseInv(s: State, release: bool, repaired: bool)
    requires Inv(s, repaired)
    ensures Inv(Release(s, release), repaired)
  {
  }

  lemma {:induction false} HelperInv(s: State, ts: seq<Turn>, repaired: bool)
    requires Inv(s, repaired) && forall i :: 0 <= i < |ts| ==> LegalTurn(ts[i], repaired)
    ensures Inv(Helper(s, ts, repaired), repaired)
    decreases |ts|
  {
    if ts != [] && s.queue.reqs != [] {
      HelperTurnInv(s, ts[0], repaired);
      HelperInv(HelperTurn(s, ts[0], repaired).0, ts[1..], repaired);
    }
  }

  lemma {:induction false} RunInv(s: State, acts: seq<Action>, repaired: bool)
    requires Inv(s, repaired) && forall i :: 0 <= i < |acts| ==> LegalAction(acts[i], repaired)
    ensures Inv(Run(s, acts, repaired), repaired)
    decreases |acts|
  {
    if acts != [] && s.alive {
      match acts[0] {
        case Client(call) => CallInv(s, call, repaired);
        case Writable(turns) => HelperInv(s, turns, repaired);
      }
      RunInv(Act(s, acts[0], repaired), acts[1..], repaired);
    }
  }

  // What holds after every run.
  lemma ReachableInv(acts: seq<Action>, repaired: bool)
    requires forall i :: 0 <= i < |acts| ==> LegalAction(acts[i], repaired)
    ensures Inv(Run(INITIAL, acts, repaired), repaired)
  {
    InitInv(repaired);
    RunInv(INITIAL, acts, repaired);
  }
}
