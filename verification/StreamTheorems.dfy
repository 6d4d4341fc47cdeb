/**
What a stream promises about its writes, over every run: any calls by the client, any calls made by the
callbacks, and any kernel.
*/
module StreamTheorems {
  import opened Wrappers
  import opened Extents
  import opened Interest
  import opened Sending
  import opened StreamModel
  import opened StreamInvariant

  ghost predicate Legal(acts: seq<Action>, repaired: bool) {
    forall i :: 0 <= i < |acts| ==> LegalAction(acts[i], repaired)
  }

  // ---- conservation ----

  // Repaired: the bytes on the wire followed by those of the pending requests are the bytes written.
  lemma WriteConservation(acts: seq<Action>)
    requires Legal(acts, true)
    ensures var s := Run(INITIAL, acts, true); s.wire + Pending(s.queue.reqs, true) == s.given
  {
    ReachableInv(acts, true);
  }

  // As written none are lost exactly as long as there have never been more than two requests between two
  // moments without any.  They are all there in order exactly if, besides, no turn has put other bytes on
  // the wire than the next ones of its request, which takes a request cut short in the middle.
  lemma AsWrittenConservation(acts: seq<Action>)
    requires Legal(acts, false)
    ensures var s := Run(INITIAL, acts, false);
            && (|s.wire| + |Pending(s.queue.reqs, false)| == |s.given| <==> s.busiest <= 2)
            && |s.wire| + |Pending(s.queue.reqs, false)| <= |s.given|
            && (s.wire + Pending(s.queue.reqs, false) == s.given <==> s.busiest <= 2 && !s.scrambled)
            && (s.scrambled ==> s.skipped) && (s.strayed ==> s.busiest > 2)
  {
    ReachableInv(acts, false);
    var s := Run(INITIAL, acts, false);
    if s.wire + Pending(s.queue.reqs, false) == s.given {
      assert s.wire == s.given[..|s.wire|];
    }
  }

  ghost predicate Grows(s: State, s': State) {
    && s.busiest <= s'.busiest && (s.scrambled ==> s'.scrambled)
    && s.wire <= s'.wire && s.given <= s'.given && s.issued <= s'.issued && s.log <= s'.log
  }

  lemma GrowsOn(a: State, b: State, c: State)
    requires Grows(a, b) && Grows(b, c)
    ensures Grows(a, c)
  {
  }

  lemma {:induction false} CallsGrow(s: State, cs: seq<Call>, repaired: bool)
    requires LegalCalls(cs, repaired)
    ensures Grows(s, DoCalls(s, cs, repaired))
    decreases |cs|
  {
    if cs == [] {
      GrowsSame(s);
    } else {
      assert LegalCall(cs[0], repaired);
      CallGrows(s, cs[0], repaired);
      hide Grows, DoCall, LegalCall;
      CallsGrow(DoCall(s, cs[0], repaired), cs[1..], repaired);
      GrowsOn(s, DoCall(s, cs[0], repaired), DoCalls(s, cs, repaired));
    }
  }

  lemma HelperTurnGrows(s: State, t: Turn, repaired: bool)
    requires BufsOk(s, repaired) && LegalTurn(t, repaired) && s.queue.reqs != []
    ensures Grows(s, HelperTurn(s, t, repaired).0)
  {
    hide AllOk, View, Drained, SendParts, PeekExtents, Skips, Lengths, DoCalls;
    var s1 := Transmit(s, t.replies, repaired);
    var r := HelperTurn(s, t, repaired);
    CallsGrow(Fail(s1), t.calls, repaired);
    CallsGrow(Finish(s1, repaired), t.calls, repaired);
  }

  lemma {:induction false} HelperGrows(s: State, ts: seq<Turn>, repaired: bool)
    requires BufsOk(s, repaired) && forall i :: 0 <= i < |ts| ==> LegalTurn(ts[i], repaired)
    ensures Grows(s, Helper(s, ts, repaired))
    decreases |ts|
  {
    hide HelperTurn, Grows, LegalTurn;
    if ts == [] || s.queue.reqs == [] {
      GrowsSame(s);
    } else {
      HelperTurnGrows(s, ts[0], repaired);
      HelperGrows(HelperTurn(s, ts[0], repaired).0, ts[1..], repaired);
      GrowsOn(s, HelperTurn(s, ts[0], repaired).0, Helper(s, ts, repaired));
    }
  }

  lemma GrowsSame(s: State)
    ensures Grows(s, s)
  {
  }

  // Nothing that happens later brings lost bytes back, or takes back what is on the wire.
  lemma {:induction false} RunGrows(s: State, acts: seq<Action>, repaired: bool)
    requires BufsOk(s, repaired) && Legal(acts, repaired)
    ensures Grows(s, Run(s, acts, repaired))
    decreases |acts|
  {
    hide Grows, Helper, DoCalls;
    if acts == [] || !s.alive {
      GrowsSame(s);
    } else {
      var s1 := Act(s, acts[0], repaired);
      match acts[0] {
        case Client(call) => CallGrows(s, call, repaired);
        case Writable(turns) => HelperGrows(s, turns, repaired);
      }
      RunGrows(s1, acts[1..], repaired);
      GrowsOn(s, s1, Run(s, acts, repaired));
    }
  }

  lemma CallGrows(s: State, c: Call, repaired: bool)
    requires LegalCall(c, repaired)
    ensures Grows(s, DoCall(s, c, repaired))
  {
  }

  // ---- writes of plain bytes ----

  // Writes made with write(const char*, size_t): the request has a single extent.
  ghost predicate PlainCall(c: Call, repaired: bool) {
    LegalCall(c, repaired) && (c.Submit? ==> |c.buf| == 1)
  }

  ghost predicate PlainTurn(t: Turn, repaired: bool) {
    LegalTurn(t, repaired) && forall i :: 0 <= i < |t.calls| ==> PlainCall(t.calls[i], repaired)
  }

  ghost predicate PlainAction(a: Action, repaired: bool) {
    match a
    case Client(call) => PlainCall(call, repaired)
    case Writable(turns) => forall i :: 0 <= i < |turns| ==> PlainTurn(turns[i], repaired)
  }

  ghost predicate Plain(s: State, repaired: bool) {
    BufsOk(s, repaired) && !s.skipped && forall i :: 0 <= i < |s.queue.reqs| ==> |s.queue.reqs[i].buf| <= 1
  }

  lemma CallKeepsPlain(s: State, c: Call, repaired: bool)
    requires Plain(s, repaired) && PlainCall(c, repaired)
    ensures Plain(DoCall(s, c, repaired), repaired)
  {
  }

  lemma {:induction false} PlainCalls(s: State, cs: seq<Call>, repaired: bool)
    requires Plain(s, repaired) && LegalCalls(cs, repaired) && forall i :: 0 <= i < |cs| ==> PlainCall(cs[i], repaired)
    ensures Plain(DoCalls(s, cs, repaired), repaired)
    decreases |cs|
  {
    if cs != [] {
      assert PlainCall(cs[0], repaired);
      CallKeepsPlain(s, cs[0], repaired);
      hide DoCall, Plain, PlainCall, LegalCall;
      PlainCalls(DoCall(s, cs[0], repaired), cs[1..], repaired);
    }
  }

  lemma PlainParts(buf: seq<Ext>, n: nat, repaired: bool)
    requires AllOk(buf, repaired) && |buf| <= 1
    ensures |Parts(buf, repaired)| <= 1 && |Drained(buf, n, repaired)| <= 1
  {
    if buf != [] { assert PeekExtents(buf[1..], TWO_64 - 1, Readable(buf[0], repaired), repaired) == []; }
  }

  lemma PlainHelperTurn(s: State, t: Turn, repaired: bool)
    requires Plain(s, repaired) && PlainTurn(t, repaired) && s.queue.reqs != []
    ensures Plain(HelperTurn(s, t, repaired).0, repaired)
  {
    hide View, Drained, SendParts, PeekExtents, Skips, Lengths, DoCalls, AllOk;
    var buf := s.queue.reqs[0].buf;
    var sent := SentOf(buf, t.replies, repaired);
    PlainParts(buf, |sent.wire|, repaired);
    OneExtentNeverSkips(Lengths(Parts(buf, repaired)), t.replies);
    DrainExact(buf, |sent.wire|, repaired);
    var s1 := Transmit(s, t.replies, repaired);
    assert Plain(s1, repaired) && Plain(Fail(s1), repaired) && Plain(Finish(s1, repaired), repaired);
    PlainCalls(Fail(s1), t.calls, repaired);
    PlainCalls(Finish(s1, repaired), t.calls, repaired);
  }

  lemma {:induction false} PlainHelper(s: State, ts: seq<Turn>, repaired: bool)
    requires Plain(s, repaired)
    requires forall i :: 0 <= i < |ts| ==> LegalTurn(ts[i], repaired) && PlainTurn(ts[i], repaired)
    ensures Plain(Helper(s, ts, repaired), repaired)
    decreases |ts|
  {
    if ts != [] && s.queue.reqs != [] {
      PlainHelperTurn(s, ts[0], repaired);
      PlainHelper(HelperTurn(s, ts[0], repaired).0, ts[1..], repaired);
    }
  }

  lemma {:induction false} PlainRun(s: State, acts: seq<Action>, repaired: bool)
    requires Plain(s, repaired) && Legal(acts, repaired)
    requires forall i :: 0 <= i < |acts| ==> PlainAction(acts[i], repaired)
    ensures Plain(Run(s, acts, repaired), repaired)
    decreases |acts|
  {
    if acts != [] && s.alive {
      match acts[0] {
        case Client(call) =>
        case Writable(turns) => PlainHelper(s, turns, repaired);
      }
      PlainRun(Act(s, acts[0], repaired), acts[1..], repaired);
    }
  }

  // As written, writes of plain bytes are conserved, order and all, exactly as long as no busy period has
  // had a third.
  lemma PlainWritesConserved(acts: seq<Action>)
    requires Legal(acts, false) && forall i :: 0 <= i < |acts| ==> PlainAction(acts[i], false)
    ensures var s := Run(INITIAL, acts, false);
            s.wire + Pending(s.queue.reqs, false) == s.given <==> s.busiest <= 2
  {
    ReachableInv(acts, false);
    PlainRun(INITIAL, acts, false);
  }

  // As written: a third request in a busy period, and from then on bytes are missing for ever, and some
  // request is neither done nor pending.
  lemma LossIsForever(acts: seq<Action>, more: seq<Action>)
    requires Legal(acts, false) && Legal(more, false)
    requires Run(INITIAL, acts, false).busiest > 2
    ensures var s := Run(Run(INITIAL, acts, false), more, false);
            && |s.wire| + |Pending(s.queue.reqs, false)| < |s.given|
            && DoneCount(s.log) + |s.queue.reqs| < |s.issued|
  {
    ReachableInv(acts, false);
    RunInv(Run(INITIAL, acts, false), more, false);
    RunGrows(Run(INITIAL, acts, false), more, false);
  }

  // The third of any three writes made before the first is complete drops the second.
  lemma ThirdWriteDropsSecond(a: seq<Ext>, b: seq<Ext>, c: seq<Ext>)
    requires Sendable(a, false) && Sendable(b, false) && Sendable(c, false)
    ensures var s := Write(Write(Write(INITIAL, a, true, false), b, true, false), c, true, false);
            && s.given == View(a, false) + View(b, false) + View(c, false)
            && |s.queue.reqs| == 2 && s.queue.reqs[0].id == 0 && s.queue.reqs[1].id == 2
            && Pending(s.queue.reqs, false) == View(a, false) + View(c, false)
  {
    hide View, AllOk, EnsureWrite;
    var r0, r2 := Request(0, a, true), Request(2, c, true);
    PendingConcat([r0], [r2], false);
    assert [r0, r2] == [r0] + [r2] && Pending([r0], false) == View(a, false) + [] &&
        Pending([r2], false) == View(c, false) + [];
    assert [] + View(a, false) == View(a, false);
  }

  // ---- progress ----

  // The kernel takes each of these parts whole.
  predicate TakesAll(lens: seq<nat>, replies: seq<Reply>) {
    lens == [] ||
    (ReplyTo(replies).Takes? && ReplyTo(replies).limit >= lens[0] && TakesAll(lens[1..], Later(replies)))
  }

  lemma {:induction false} AllTaken(parts: seq<seq<Byte>>, replies: seq<Reply>, repaired: bool)
    requires TakesAll(Lengths(parts), replies)
    ensures SendParts(parts, replies, repaired) == Sent(Joined(parts), false, false)
    decreases |parts|
  {
    if parts != [] {
      assert Lengths(parts)[1..] == Lengths(parts[1..]);
      AllTaken(parts[1..], Later(replies), repaired);
    }
  }

  lemma AllTakenTurn(s: State, t: Turn, repaired: bool)
    requires AllSendable(s.queue.reqs, repaired) && s.queue.reqs != [] && t.calls == []
    requires TakesAll(Lengths(Parts(s.queue.reqs[0].buf, repaired)), t.replies)
    ensures var (s1, more) := HelperTurn(s, t, repaired);
            && s1.queue.reqs == s.queue.reqs[1..] && s1.wire == s.wire + View(s.queue.reqs[0].buf, repaired)
            && more == (s1.queue.reqs != []) && (!more ==> !IsWrite(s1.watched))
  {
    hide View, Drained, SendParts, PeekExtents, Skips, Lengths, TakesAll;
    var buf := s.queue.reqs[0].buf;
    AllTaken(Parts(buf, repaired), t.replies, repaired);
    TurnSends(buf, t.replies, repaired);
    PeekExtentsExact(buf, TWO_64 - 1, 0, repaired);
    assert SentOf(buf, t.replies, repaired).wire == View(buf, repaired);
  }

  // Turn by turn, the kernel takes each request whole, and the callbacks make no calls.
  ghost predicate TakesAllOf(reqs: seq<Request>, ts: seq<Turn>, repaired: bool)
    requires forall i :: 0 <= i < |reqs| ==> AllOk(reqs[i].buf, repaired)
    decreases |reqs|
  {
    reqs == [] ||
    (ts != [] && ts[0].calls == [] && TakesAll(Lengths(Parts(reqs[0].buf, repaired)), ts[0].replies) &&
        TakesAllOf(reqs[1..], ts[1..], repaired))
  }

  // One readiness event sends everything there is, all the requests in turn, if the kernel takes it.
  lemma {:induction false} AllGetsSent(s: State, ts: seq<Turn>, repaired: bool)
    requires AllSendable(s.queue.reqs, repaired) && TakesAllOf(s.queue.reqs, ts, repaired)
    requires forall i :: 0 <= i < |ts| ==> LegalTurn(ts[i], repaired)
    ensures var s' := Helper(s, ts, repaired);
            && s'.queue.reqs == [] && s'.wire == s.wire + Pending(s.queue.reqs, repaired)
            && (s.queue.reqs != [] ==> !IsWrite(s'.watched))
    decreases |ts|
  {
    hide View, AllOk, Parts, HelperTurn, Lengths, TakesAll, LegalTurn;
    var reqs := s.queue.reqs;
    if reqs == [] {
      assert s.wire + [] == s.wire;
    } else {
      AllTakenTurn(s, ts[0], repaired);
      var s1 := HelperTurn(s, ts[0], repaired).0;
      assert s1.wire + Pending(reqs[1..], repaired) ==
          s.wire + (View(reqs[0].buf, repaired) + Pending(reqs[1..], repaired));
      if reqs[1..] != [] {
        AllGetsSent(s1, ts[1..], repaired);
      } else {
        assert s1.wire + [] == s1.wire;
      }
    }
  }

  // Turn by turn, the kernel takes whatever request is then in front whole; the callbacks do as they like.
  ghost predicate TakesEach(s: State, ts: seq<Turn>, repaired: bool)
    requires BufsOk(s, repaired) && forall i :: 0 <= i < |ts| ==> LegalTurn(ts[i], repaired)
    decreases |ts|
  {
    ts == [] || s.queue.reqs == [] ||
    (TakesAll(Lengths(Parts(s.queue.reqs[0].buf, repaired)), ts[0].replies) &&
     var (s1, more) := HelperTurn(s, ts[0], repaired);
     more ==> TakesEach(s1, ts[1..], repaired))
  }

  // Repaired, appending leaves the requests that are there where they are.
  lemma {:induction false} CallsAppend(s: State, cs: seq<Call>)
    requires LegalCalls(cs, true)
    ensures s.queue.reqs <= DoCalls(s, cs, true).queue.reqs
    decreases |cs|
  {
    if cs != [] { CallsAppend(DoCall(s, cs[0], true), cs[1..]); }
  }

  lemma TakenTurn(s: State, t: Turn)
    requires AllSendable(s.queue.reqs, true) && LegalTurn(t, true) && s.queue.reqs != []
    requires TakesAll(Lengths(Parts(s.queue.reqs[0].buf, true)), t.replies)
    ensures var (s1, more) := HelperTurn(s, t, true);
            && more == (|s.queue.reqs| > 1) && s.queue.reqs[1..] <= s1.queue.reqs
            && DoneCount(s1.log) == DoneCount(s.log) + 1
            && s1.wire == s.wire + View(s.queue.reqs[0].buf, true)
  {
    hide View, Drained, SendParts, PeekExtents, Skips, Lengths, TakesAll, DoCalls, DoneCount, AllOk;
    var buf := s.queue.reqs[0].buf;
    AllTaken(Parts(buf, true), t.replies, true);
    TurnSends(buf, t.replies, true);
    PeekExtentsExact(buf, TWO_64 - 1, 0, true);
    assert SentOf(buf, t.replies, true).wire == View(buf, true);
    var s2 := Finish(Transmit(s, t.replies, true), true);
    CountAdded(s.log, s2.log[|s.log|]);
    CallsAppend(s2, t.calls);
    CallsAreSilent(s2, t.calls, true);
  }

  // Repaired, one readiness event completes every request that was pending when it came, or as many as it
  // has turns, whatever the callbacks write in the meantime.
  lemma {:induction false} AllPendingGetDone(s: State, ts: seq<Turn>)
    requires Inv(s, true) && (forall i :: 0 <= i < |ts| ==> LegalTurn(ts[i], true)) && TakesEach(s, ts, true)
    ensures DoneCount(Helper(s, ts, true).log) >= DoneCount(s.log) + Min(|ts|, |s.queue.reqs|)
    decreases |ts|
  {
    hide Inv, LegalTurn, HelperTurn, TakesAll, Lengths, Parts, DoneCount;
    if ts != [] && s.queue.reqs != [] {
      InvSendable(s);
      TakenTurn(s, ts[0]);
      HelperTurnInv(s, ts[0], true);
      var (s1, more) := HelperTurn(s, ts[0], true);
      if more {
        AllPendingGetDone(s1, ts[1..]);
      }
    }
  }

  lemma InvSendable(s: State)
    requires Inv(s, true)
    ensures AllSendable(s.queue.reqs, true)
  {
  }

  // ---- completions ----

  lemma {:induction false} DoneCountGrows(log: seq<Event>, i: nat, j: nat)
    requires i <= j <= |log|
    ensures DoneCount(log[..i]) <= DoneCount(log[..j])
    ensures i < j && log[i].Done? ==> DoneCount(log[..i]) < DoneCount(log[..j])
    decreases j - i
  {
    if i < j {
      assert log[..j][..j - 1] == log[..j - 1];
      DoneCountGrows(log, i, j - 1);
    }
  }

  // Each request that has left the list completed once; completions come in submission order, each when
  // exactly the bytes up to the end of its request are on the wire; the last one comes with interest in
  // writing gone; and an error is always the oldest unfinished request's.
  lemma CompletionDiscipline(acts: seq<Action>, repaired: bool)
    requires Legal(acts, repaired)
    requires repaired || Run(INITIAL, acts, false).busiest <= 2
    ensures var s := Run(INITIAL, acts, repaired);
            && (forall i, j :: 0 <= i < j < |s.log| && s.log[i].Done? ==> s.log[i].id < s.log[j].id)
            && (forall i :: 0 <= i < |s.log| ==> s.log[i].id == DoneCount(s.log[..i]))
            && (forall i :: 0 <= i < |s.log| && s.log[i].Done? ==>
                  && s.log[i].id < |s.issued| && s.log[i].at == s.issued[s.log[i].id].end
                  && (s.log[i].last ==> !IsWrite(s.log[i].watched)))
            && (forall id :: 0 <= id < |s.issued| - |s.queue.reqs| ==> Completed(s.log, id))
  {
    ReachableInv(acts, repaired);
    var s := Run(INITIAL, acts, repaired);
    forall i, j | 0 <= i < j < |s.log| && s.log[i].Done? ensures s.log[i].id < s.log[j].id {
      assert EventOk(s.log, i, s.issued) && EventOk(s.log, j, s.issued);
      DoneCountGrows(s.log, i, j);
    }
    forall i | 0 <= i < |s.log| ensures s.log[i].id == DoneCount(s.log[..i]) {
      assert EventOk(s.log, i, s.issued);
    }
    forall i | 0 <= i < |s.log| && s.log[i].Done?
      ensures s.log[i].id < |s.issued| && s.log[i].at == s.issued[s.log[i].id].end
      ensures s.log[i].last ==> !IsWrite(s.log[i].watched)
    {
      assert EventOk(s.log, i, s.issued);
    }
    forall id | 0 <= id < |s.issued| - |s.queue.reqs| ensures Completed(s.log, id) {
      assert s.log[..|s.log|] == s.log;
      var k := CompletionOf(s.log, s.issued, |s.log|, id);
    }
  }

  predicate CompletedAt(log: seq<Event>, k: nat, id: nat)
    requires k < |log|
  {
    log[k].Done? && log[k].id == id
  }

  ghost predicate Completed(log: seq<Event>, id: nat) {
    exists k :: 0 <= k < |log| && CompletedAt(log, k, id)
  }

  lemma {:induction false} CompletionOf(log: seq<Event>, issued: seq<Issue>, n: nat, id: nat) returns (k: nat)
    requires n <= |log| && id < DoneCount(log[..n])
    requires forall i :: 0 <= i < |log| ==> EventOk(log, i, issued)
    ensures k < n && CompletedAt(log, k, id)
    decreases n
  {
    assert log[..n][..n - 1] == log[..n - 1];
    assert EventOk(log, n - 1, issued);
    if id < DoneCount(log[..n - 1]) {
      k := CompletionOf(log, issued, n - 1, id);
    } else {
      k := n - 1;
    }
  }

  predicate IsPending(reqs: seq<Request>, id: nat) {
    exists i :: 0 <= i < |reqs| && reqs[i].id == id
  }

  lemma {:induction false} PlacedIds(reqs: seq<Request>, at: nat, first: nat, issued: seq<Issue>, k: nat,
      repaired: bool)
    requires AllSendable(reqs, repaired) && Placed(reqs, at, first, issued, repaired) && k < |reqs|
    ensures reqs[k].id == first + k
    decreases |reqs|
  {
    if k > 0 { PlacedIds(reqs[1..], issued[first].end, first + 1, issued, k - 1, repaired); }
  }

  function DoneIds(log: seq<Event>): set<nat> {
    if log == [] then {}
    else DoneIds(log[..|log| - 1]) + if log[|log| - 1].Done? then {log[|log| - 1].id} else {}
  }

  function PendingIds(reqs: seq<Request>): set<nat> {
    if reqs == [] then {} else PendingIds(reqs[..|reqs| - 1]) + {reqs[|reqs| - 1].id}
  }

  lemma {:induction false} DoneIdsCount(log: seq<Event>)
    ensures |DoneIds(log)| <= DoneCount(log)
    ensures forall id :: Completed(log, id) ==> id in DoneIds(log)
  {
    if log != [] {
      var init := log[..|log| - 1];
      DoneIdsCount(init);
      forall id | Completed(log, id) ensures id in DoneIds(log) {
        var k :| 0 <= k < |log| && CompletedAt(log, k, id);
        if k < |init| { assert CompletedAt(init, k, id); }
      }
    }
  }

  lemma {:induction false} PendingIdsCount(reqs: seq<Request>)
    ensures |PendingIds(reqs)| <= |reqs|
    ensures forall id :: IsPending(reqs, id) ==> id in PendingIds(reqs)
  {
    if reqs != [] {
      var init := reqs[..|reqs| - 1];
      PendingIdsCount(init);
      forall id | IsPending(reqs, id) ensures id in PendingIds(reqs) {
        var i :| 0 <= i < |reqs| && reqs[i].id == id;
        if i < |init| { assert init[i].id == id; }
      }
    }
  }

  // A set that has all of 0, ..., n - 1 has at least n members.
  lemma {:induction false} AllBelow(ids: set<nat>, n: nat)
    requires forall id :: 0 <= id < n ==> id in ids
    ensures |ids| >= n
  {
    if n > 0 {
      AllBelow(ids - {n - 1}, n - 1);
    }
  }

  // Every request is done or pending, always once repaired, and as written exactly as long as no busy period
  // has had a third: after that some request's callback will never be called.
  lemma NoRequestForgotten(acts: seq<Action>, repaired: bool)
    requires Legal(acts, repaired)
    ensures var s := Run(INITIAL, acts, repaired);
            && (repaired || s.busiest <= 2 <==>
                forall id :: 0 <= id < |s.issued| ==> Completed(s.log, id) || IsPending(s.queue.reqs, id))
            && (repaired || s.busiest <= 2 <==> DoneCount(s.log) + |s.queue.reqs| == |s.issued|)
  {
    ReachableInv(acts, repaired);
    var s := Run(INITIAL, acts, repaired);
    if repaired || s.busiest <= 2 {
      CompletionDiscipline(acts, repaired);
      forall id | 0 <= id < |s.issued| ensures Completed(s.log, id) || IsPending(s.queue.reqs, id) {
        if id >= DoneCount(s.log) {
          PlacedIds(s.queue.reqs, |s.wire|, DoneCount(s.log), s.issued, id - DoneCount(s.log), repaired);
        }
      }
    } else {
      DoneIdsCount(s.log);
      PendingIdsCount(s.queue.reqs);
      if forall id :: 0 <= id < |s.issued| ==> Completed(s.log, id) || IsPending(s.queue.reqs, id) {
        AllBelow(DoneIds(s.log) + PendingIds(s.queue.reqs), |s.issued|);
      }
    }
  }

  lemma CallIsSilent(s: State, c: Call, repaired: bool)
    requires LegalCall(c, repaired)
    ensures var s' := DoCall(s, c, repaired); s'.wire == s.wire && s'.log == s.log && s'.alive == s.alive
  {
  }

  lemma {:induction false} CallsAreSilent(s: State, cs: seq<Call>, repaired: bool)
    requires LegalCalls(cs, repaired)
    ensures var s' := DoCalls(s, cs, repaired); s'.wire == s.wire && s'.log == s.log && s'.alive == s.alive
    decreases |cs|
  {
    if cs != [] {
      CallIsSilent(s, cs[0], repaired);
      hide DoCall;
      CallsAreSilent(DoCall(s, cs[0], repaired), cs[1..], repaired);
    }
  }

  predicate IsLast(e: Event) {
    e.Done? && e.last
  }

  // A turn makes at most one callback; after that of the last request there is no further turn, and only
  // that one frees the stream.
  lemma TurnEvents(s: State, t: Turn, repaired: bool)
    requires BufsOk(s, repaired) && LegalTurn(t, repaired) && s.queue.reqs != []
    ensures var (s', more) := HelperTurn(s, t, repaired);
            && s.log <= s'.log && |s'.log| <= |s.log| + 1
            && (more ==> |s'.log| == |s.log| + 1 && !IsLast(s'.log[|s.log|]) && s'.queue.reqs != [])
            && (|s'.log| > |s.log| && IsLast(s'.log[|s.log|]) ==>
                |s'.wire| == s'.log[|s.log|].at && !IsWrite(s'.log[|s.log|].watched))
            && (s.alive && !s'.alive ==> |s'.log| > |s.log| && IsLast(s'.log[|s.log|]) && s'.log[|s.log|].notify)
  {
    hide AllOk, View, Drained, SendParts, PeekExtents, Skips, Lengths, DoCalls;
    var s1 := Transmit(s, t.replies, repaired);
    CallsAreSilent(Fail(s1), t.calls, repaired);
    CallsAreSilent(Finish(s1, repaired), t.calls, repaired);
    CallsKeepBufs(Finish(s1, repaired), t.calls, repaired);
  }

  // The last request's callback is the last thing a run of the helper does: no event follows, nothing more
  // goes out, whatever the callback did and whatever the kernel would have taken.  A stream that is freed
  // in the run is freed there.
  lemma {:induction false} NothingAfterLastCallback(s: State, ts: seq<Turn>, k: nat, repaired: bool)
    requires BufsOk(s, repaired) && forall i :: 0 <= i < |ts| ==> LegalTurn(ts[i], repaired)
    ensures var s' := Helper(s, ts, repaired);
            && |s.log| <= |s'.log|
            && (|s.log| <= k < |s'.log| && IsLast(s'.log[k]) ==>
                k == |s'.log| - 1 && |s'.wire| == s'.log[k].at && !IsWrite(s'.log[k].watched))
            && (s.alive && !s'.alive ==>
                |s.log| < |s'.log| && IsLast(s'.log[|s'.log| - 1]) && s'.log[|s'.log| - 1].notify)
    decreases |ts|
  {
    hide HelperTurn, LegalTurn, IsLast, IsWrite;
    if ts != [] && s.queue.reqs != [] {
      TurnEvents(s, ts[0], repaired);
      var (s1, more) := HelperTurn(s, ts[0], repaired);
      if more {
        HelperGrows(s1, ts[1..], repaired);
        TurnAlive(s, ts[0], repaired);
        NothingAfterLastCallback(s1, ts[1..], k, repaired);
      }
    }
  }

  lemma TurnAlive(s: State, t: Turn, repaired: bool)
    requires BufsOk(s, repaired) && LegalTurn(t, repaired) && s.queue.reqs != []
    ensures HelperTurn(s, t, repaired).1 ==> HelperTurn(s, t, repaired).0.alive == s.alive
  {
    hide AllOk, View, Drained, SendParts, PeekExtents, Skips, Lengths, DoCalls;
    CallsAreSilent(Finish(Transmit(s, t.replies, repaired), repaired), t.calls, repaired);
  }

  // The last thing to have happened is the completion callback of the last request.
  predicate EndsInLastCallback(s: State) {
    s.log != [] && var e := s.log[|s.log| - 1]; IsLast(e) && e.notify && |s.wire| == e.at && !IsWrite(e.watched)
  }

  lemma HelperFrees(s: State, ts: seq<Turn>, repaired: bool)
    requires s.alive && BufsOk(s, repaired) && forall i :: 0 <= i < |ts| ==> LegalTurn(ts[i], repaired)
    ensures Helper(s, ts, repaired).alive || EndsInLastCallback(Helper(s, ts, repaired))
  {
    hide Helper, LegalTurn;
    var s' := Helper(s, ts, repaired);
    NothingAfterLastCallback(s, ts, |s'.log| - Min(1, |s'.log|), repaired);
  }

  // A stream that has been freed was freed in the completion callback of its last request, and nothing has
  // happened to it since.
  lemma {:induction false} FreedInLastCallback(s: State, acts: seq<Action>, repaired: bool)
    requires s.alive && BufsOk(s, repaired) && Legal(acts, repaired)
    ensures Run(s, acts, repaired).alive || EndsInLastCallback(Run(s, acts, repaired))
    decreases |acts|
  {
    hide Helper, DoCall, EndsInLastCallback, LegalTurn;
    if acts != [] {
      match acts[0] {
        case Client(call) => CallIsSilent(s, call, repaired);
        case Writable(turns) => HelperFrees(s, turns, repaired);
      }
      var s1 := Act(s, acts[0], repaired);
      if s1.alive {
        FreedInLastCallback(s1, acts[1..], repaired);
      }
    }
  }

  // SockHandler::ready goes on to the read helper when the event says READ as well, even if the write helper's
  // last callback has just freed the stream.
  ghost predicate ReadsFreedStream(event: What, s: State, ts: seq<Turn>, repaired: bool)
    requires BufsOk(s, repaired) && forall i :: 0 <= i < |ts| ==> LegalTurn(ts[i], repaired)
  {
    IsWrite(event) && IsRead(event) && s.alive && !Helper(s, ts, repaired).alive
  }

  // So freeing the stream in its last callback is safe, whatever the stream and the kernel, exactly for
  // events other than READ_WRITE.
  lemma FreeingIsSafeExactly(event: What, repaired: bool)
    ensures event != READ_WRITE <==>
            forall s: State, ts: seq<Turn> |
              BufsOk(s, repaired) && forall i :: 0 <= i < |ts| ==> LegalTurn(ts[i], repaired) ::
              !ReadsFreedStream(event, s, ts, repaired)
  {
    if event == READ_WRITE {
      var s, ts := FreedInHelper(repaired);
      assert ReadsFreedStream(event, s, ts, repaired);
    }
  }

  lemma FreedInHelper(repaired: bool) returns (s: State, ts: seq<Turn>)
    ensures BufsOk(s, repaired) && (forall i :: 0 <= i < |ts| ==> LegalTurn(ts[i], repaired))
    ensures s.alive && !Helper(s, ts, repaired).alive
  {
    var bytes: seq<Byte> := [0];
    var buf := [Fresh(bytes)];
    s := Write(INITIAL, buf, true, repaired);
    ts := [Turn([Takes(1)], [], true)];
    ViewOne(Fresh(bytes), repaired);
    PeekExtentsExact(buf, TWO_64 - 1, 0, repaired);
    PlainParts(buf, 0, repaired);
    var parts := Parts(buf, repaired);
    assert Joined(parts) == bytes && |parts| == 1 && parts[0] + [] == bytes;
    assert Lengths(parts)[1..] == [];
    AllTaken(parts, [Takes(1)], repaired);
    assert s.queue.reqs == [Request(0, buf, true)];
  }

  // ---- interest ----

  // Repaired, between events there is interest in writing while requests are pending, and in reading
  // while there is a read callback.
  lemma InterestKept(acts: seq<Action>)
    requires Legal(acts, true)
    ensures Interested(Run(INITIAL, acts, true))
  {
    ReachableInv(acts, true);
  }

  // As written a call loses interest that is needed exactly if it adds a bit to READ_WRITE while the other
  // bit is needed: a write while there is a read callback, or a new read callback while requests are
  // pending.  This is any call, by a client or a callback, at any time.
  lemma CallLosesInterest(s: State, c: Call, repaired: bool)
    requires LegalCall(c, repaired) && Interested(s)
    ensures var s' := DoCall(s, c, repaired);
            && (!Interested(s') <==>
                !repaired && s.watched == READ_WRITE &&
                ((c.Submit? && s.reader.Some?) ||
                 (c.StartReading? && s.reader != Some(c.callback) && s.queue.reqs != [])))
            && (s'.clobbered <==> s.clobbered || !Interested(s'))
  {
    if c.Submit? { EnqueueKeepsSome(s.queue, Request(|s.issued|, c.buf, c.notify), repaired); }
  }

  lemma EnqueueKeepsSome(q: Queue, r: Request, repaired: bool)
    ensures Enqueue(q, r, repaired).reqs != []
  {
  }

  // Interest that is needed is there at every point of a run: before and after every call, those of the
  // callbacks included, and every turn of the helper.
  ghost predicate InterestedInCalls(s: State, cs: seq<Call>, repaired: bool)
    requires LegalCalls(cs, repaired)
    decreases |cs|
  {
    Interested(s) && (cs == [] || InterestedInCalls(DoCall(s, cs[0], repaired), cs[1..], repaired))
  }

  ghost predicate InterestedInTurn(s: State, t: Turn, repaired: bool)
    requires BufsOk(s, repaired) && LegalTurn(t, repaired) && s.queue.reqs != []
  {
    var req := s.queue.reqs[0];
    var sent := SentOf(req.buf, t.replies, repaired);
    var s1 := Transmit(s, t.replies, repaired);
    if sent.failed then InterestedInCalls(Fail(s1), if req.notify then t.calls else [], repaired)
    else if sent.blocked then Interested(s1)
    else InterestedInCalls(Finish(s1, repaired), if req.notify then t.calls else [], repaired)
  }

  ghost predicate InterestedInHelper(s: State, ts: seq<Turn>, repaired: bool)
    requires BufsOk(s, repaired) && forall i :: 0 <= i < |ts| ==> LegalTurn(ts[i], repaired)
    decreases |ts|
  {
    ts == [] || s.queue.reqs == [] ||
    (InterestedInTurn(s, ts[0], repaired) &&
     var (s1, more) := HelperTurn(s, ts[0], repaired);
     more ==> InterestedInHelper(s1, ts[1..], repaired))
  }

  ghost predicate InterestedThroughout(s: State, acts: seq<Action>, repaired: bool)
    requires BufsOk(s, repaired) && Legal(acts, repaired)
    decreases |acts|
  {
    && Interested(s)
    && (acts != [] && s.alive ==>
          && (match acts[0]
              case Client(call) => InterestedInCalls(s, [call], repaired)
              case Writable(turns) => InterestedInHelper(s, turns, repaired))
          && InterestedThroughout(Act(s, acts[0], repaired), acts[1..], repaired))
  }

  lemma {:induction false} CallsLoseInterest(s: State, cs: seq<Call>, repaired: bool)
    requires LegalCalls(cs, repaired)
    ensures s.clobbered ==> DoCalls(s, cs, repaired).clobbered
    ensures Interested(s) && !s.clobbered ==>
              (InterestedInCalls(s, cs, repaired) <==> !DoCalls(s, cs, repaired).clobbered)
    ensures Interested(s) && !DoCalls(s, cs, repaired).clobbered ==> Interested(DoCalls(s, cs, repaired))
    decreases |cs|
  {
    if cs != [] {
      var s1 := DoCall(s, cs[0], repaired);
      CallKeepsClobbered(s, cs[0], repaired);
      if Interested(s) { CallLosesInterest(s, cs[0], repaired); }
      hide DoCall, Interested;
      CallsLoseInterest(s1, cs[1..], repaired);
    }
  }

  lemma CallKeepsClobbered(s: State, c: Call, repaired: bool)
    requires LegalCall(c, repaired)
    ensures s.clobbered ==> DoCall(s, c, repaired).clobbered
  {
  }

  lemma TurnLosesInterest(s: State, t: Turn, repaired: bool)
    requires BufsOk(s, repaired) && LegalTurn(t, repaired) && s.queue.reqs != []
    ensures var s' := HelperTurn(s, t, repaired).0;
            && (s.clobbered ==> s'.clobbered)
            && (Interested(s) && !s.clobbered ==>
                (InterestedInTurn(s, t, repaired) <==> !s'.clobbered) && (!s'.clobbered ==> Interested(s')))
  {
    hide AllOk, View, Drained, SentOf, Parts, SendParts, PeekExtents, Skips, Lengths, DoCalls, InterestedInCalls,
        IsPrefix, Transmit, Finish, Fail;
    var req := s.queue.reqs[0];
    var s1 := Transmit(s, t.replies, repaired);
    var cs := if req.notify then t.calls else [];
    PartsOfTurn(s, t.replies, repaired);
    NoCalls(Fail(s1), repaired);
    NoCalls(Finish(s1, repaired), repaired);
    CallsLoseInterest(Fail(s1), cs, repaired);
    CallsLoseInterest(Finish(s1, repaired), cs, repaired);
  }

  // Sending, failing and completing lose no interest that is needed.
  lemma PartsOfTurn(s: State, replies: seq<Reply>, repaired: bool)
    requires BufsOk(s, repaired) && s.queue.reqs != []
    ensures var s1 := Transmit(s, replies, repaired);
            && s1.queue.reqs != [] && s1.queue.reqs[0].notify == s.queue.reqs[0].notify
            && s1.clobbered == Fail(s1).clobbered == Finish(s1, repaired).clobbered == s.clobbered
            && (Interested(s) ==> Interested(s1) && Interested(Fail(s1)) && Interested(Finish(s1, repaired)))
  {
    hide AllOk, View, Drained, SentOf, Parts, Skips, Lengths, IsPrefix;
  }

  lemma NoCalls(s: State, repaired: bool)
    ensures DoCalls(s, [], repaired) == s
  {
  }

  lemma {:induction false} HelperLosesInterest(s: State, ts: seq<Turn>, repaired: bool)
    requires BufsOk(s, repaired) && forall i :: 0 <= i < |ts| ==> LegalTurn(ts[i], repaired)
    ensures var s' := Helper(s, ts, repaired);
            && (s.clobbered ==> s'.clobbered)
            && (Interested(s) && !s.clobbered ==>
                (InterestedInHelper(s, ts, repaired) <==> !s'.clobbered) && (!s'.clobbered ==> Interested(s')))
    decreases |ts|
  {
    hide HelperTurn, LegalTurn, Interested, InterestedInTurn;
    if ts != [] && s.queue.reqs != [] {
      TurnLosesInterest(s, ts[0], repaired);
      HelperLosesInterest(HelperTurn(s, ts[0], repaired).0, ts[1..], repaired);
    }
  }

  lemma {:induction false} RunLosesInterest(s: State, acts: seq<Action>, repaired: bool)
    requires BufsOk(s, repaired) && Legal(acts, repaired)
    ensures s.clobbered ==> Run(s, acts, repaired).clobbered
    ensures Interested(s) && !s.clobbered ==>
              (InterestedThroughout(s, acts, repaired) <==> !Run(s, acts, repaired).clobbered)
    decreases |acts|
  {
    hide Helper, InterestedInHelper, DoCall, Interested, LegalTurn;
    if acts != [] && s.alive {
      match acts[0] {
        case Client(call) =>
          OneCall(s, call, repaired);
          CallsLoseInterest(s, [call], repaired);
        case Writable(turns) =>
          HelperLosesInterest(s, turns, repaired);
      }
      RunLosesInterest(Act(s, acts[0], repaired), acts[1..], repaired);
    }
  }

  lemma OneCall(s: State, c: Call, repaired: bool)
    requires LegalCall(c, repaired)
    ensures LegalCalls([c], repaired) && DoCalls(s, [c], repaired) == DoCall(s, c, repaired)
  {
    assert [c][1..] == [];
  }

  // Needed interest has been there throughout a run, always repaired, and as written exactly if none of its
  // calls was of the kind that CallLosesInterest is about.
  lemma AsWrittenInterest(acts: seq<Action>, repaired: bool)
    requires Legal(acts, repaired)
    ensures InterestedThroughout(INITIAL, acts, repaired) <==> !Run(INITIAL, acts, repaired).clobbered
    ensures repaired ==> InterestedThroughout(INITIAL, acts, repaired)
  {
    ReachableInv(acts, repaired);
    RunLosesInterest(INITIAL, acts, repaired);
  }

  // startRead and stopRead leave interest in writing alone: always once repaired, and as written except for
  // a new callback while both bits are set.  stopRead gives up interest in reading only if there is
  // interest in writing as well.
  lemma ReadingLeavesWrites(s: State, callback: nat, repaired: bool)
    ensures var s' := StartRead(s, callback, repaired);
            && s'.reader == Some(callback) && (s.reader != Some(callback) ==> IsRead(s'.watched))
            && (IsWrite(s'.watched) == IsWrite(s.watched) <==>
                repaired || s.reader == Some(callback) || s.watched != READ_WRITE)
    ensures var s' := StopRead(s);
            && s'.reader == None && IsWrite(s'.watched) == IsWrite(s.watched)
            && (IsRead(s'.watched) <==> IsRead(s.watched) && (s.reader == None || !IsWrite(s.watched)))
  {
  }

  // Writing, sending and completing leave interest in reading alone: always once repaired, and as written
  // except for a write while both bits are set.
  lemma WritesLeaveReading(s: State, buf: seq<Ext>, notify: bool, replies: seq<Reply>, repaired: bool)
    requires BufsOk(s, repaired) && AllOk(buf, repaired)
    ensures IsRead(Write(s, buf, notify, repaired).watched) == IsRead(s.watched) <==>
            repaired || s.watched != READ_WRITE
    ensures s.queue.reqs != [] ==>
              var s1 := Transmit(s, replies, repaired);
              && s1.watched == s.watched
              && IsRead(Finish(s1, repaired).watched) == IsRead(s.watched)
  {
  }
}
