/**
What the write helper (StreamImpl::writeHelper in src/stream.cc) reports to the callbacks, and what becomes
of the calls that they make.
*/
module StreamCallbacks {
  import opened Wrappers
  import opened Extents
  import opened Sending
  import opened StreamModel
  import opened StreamTheorems

  ghost predicate LegalTurns(ts: seq<Turn>, repaired: bool) {
    forall i :: 0 <= i < |ts| ==> LegalTurn(ts[i], repaired)
  }

  // ---- what is reported ----

  // In this turn the kernel fails a write of the front request.
  predicate TurnFails(s: State, t: Turn, repaired: bool)
    requires s.queue.reqs != [] && AllOk(s.queue.reqs[0].buf, repaired)
  {
    KernelFails(Lengths(Parts(s.queue.reqs[0].buf, repaired)), t.replies, repaired)
  }

  // It cuts one short.
  predicate TurnBlocks(s: State, t: Turn, repaired: bool)
    requires s.queue.reqs != [] && AllOk(s.queue.reqs[0].buf, repaired)
  {
    KernelBlocks(Lengths(Parts(s.queue.reqs[0].buf, repaired)), t.replies, repaired)
  }

  lemma TurnReports(s: State, t: Turn, repaired: bool)
    requires BufsOk(s, repaired) && LegalTurn(t, repaired) && s.queue.reqs != []
    ensures var front, (s', more) := s.queue.reqs[0], HelperTurn(s, t, repaired);
            if TurnFails(s, t, repaired) then
              !more && s'.log == s.log + [Failed(front.id, front.notify)]
            else if TurnBlocks(s, t, repaired) then
              !more && s'.log == s.log
            else
              && |s'.log| == |s.log| + 1 && s.log <= s'.log && var e := s'.log[|s.log|];
              && e.Done? && e.id == front.id && e.notify == front.notify && e.at == |s'.wire|
              && e.last == (|s.queue.reqs| == 1) && more == !e.last
  {
    hide AllOk, View, Drained, SendParts, PeekExtents, Skips, Lengths, DoCalls, KernelFails, KernelBlocks;
    SendOutcome(Parts(s.queue.reqs[0].buf, repaired), t.replies, repaired);
    var s1 := Transmit(s, t.replies, repaired);
    CallsAreSilent(Fail(s1), t.calls, repaired);
    CallsAreSilent(Finish(s1, repaired), t.calls, repaired);
  }

  // The last turn that a run of the helper takes, and the state in which it takes it.
  ghost function LastTurn(s: State, ts: seq<Turn>, repaired: bool): (last: Option<(State, Turn)>)
    requires BufsOk(s, repaired) && LegalTurns(ts, repaired)
    ensures last.Some? ==>
              var (s0, t) := last.value; BufsOk(s0, repaired) && s0.queue.reqs != [] && LegalTurn(t, repaired)
    decreases |ts|
  {
    if ts == [] || s.queue.reqs == [] then None
    else
      var (s1, more) := HelperTurn(s, ts[0], repaired);
      if more && LastTurn(s1, ts[1..], repaired).Some? then LastTurn(s1, ts[1..], repaired) else Some((s, ts[0]))
  }

  ghost predicate AllDone(events: seq<Event>) {
    forall i :: 0 <= i < |events| ==> events[i].Done?
  }

  // A kernel that fails is reported, once, to the request then in front, if that has a callback, and nothing else
  // is; and nothing but that is ever reported as a failure.  Every other turn but one cut short completes its
  // request.
  lemma {:induction false} FailuresAreReported(s: State, ts: seq<Turn>, repaired: bool)
    requires BufsOk(s, repaired) && LegalTurns(ts, repaired)
    ensures var s', last := Helper(s, ts, repaired), LastTurn(s, ts, repaired);
            if last.None? then s' == s
            else
              var (s0, t) := last.value;
              var front := s0.queue.reqs[0];
              && s.log <= s0.log <= s'.log && AllDone(s0.log[|s.log|..])
              && if TurnFails(s0, t, repaired) then s'.log == s0.log + [Failed(front.id, front.notify)]
                 else AllDone(s'.log[|s0.log|..]) && (TurnBlocks(s0, t, repaired) <==> s'.log == s0.log)
    decreases |ts|
  {
    hide HelperTurn, TurnFails, TurnBlocks, LegalTurn;
    if ts != [] && s.queue.reqs != [] {
      TurnReports(s, ts[0], repaired);
      var (s1, more) := HelperTurn(s, ts[0], repaired);
      if more {
        FailuresAreReported(s1, ts[1..], repaired);
        if LastTurn(s1, ts[1..], repaired).Some? {
          var s0 := LastTurn(s1, ts[1..], repaired).value.0;
          assert s0.log[|s.log|..] == [s1.log[|s.log|]] + s0.log[|s1.log|..];
        }
      }
    }
  }

  // A turn that fails or is cut short is the last: what the kernel would have said later makes no difference.
  lemma StopsAtOnce(s: State, ts: seq<Turn>, repaired: bool)
    requires BufsOk(s, repaired) && LegalTurns(ts, repaired) && ts != [] && s.queue.reqs != []
    requires TurnFails(s, ts[0], repaired) || TurnBlocks(s, ts[0], repaired)
    ensures Helper(s, ts, repaired) == Helper(s, ts[..1], repaired)
    ensures LastTurn(s, ts, repaired) == Some((s, ts[0]))
  {
    hide HelperTurn, TurnFails, TurnBlocks;
    TurnReports(s, ts[0], repaired);
  }

  // The stream is freed exactly if the turn of the last event asks for it and that was the completion
  // callback of the last request.
  lemma {:induction false} FreedExactly(s: State, ts: seq<Turn>, repaired: bool)
    requires BufsOk(s, repaired) && LegalTurns(ts, repaired) && s.alive
    ensures var s' := Helper(s, ts, repaired);
            var n := |s'.log| - |s.log|;
            && 0 <= n <= |ts|
            && (!s'.alive <==> n > 0 && var e := s'.log[|s'.log| - 1]; IsLast(e) && e.notify && ts[n - 1].release)
    decreases |ts|
  {
    hide HelperTurn, TurnFails, TurnBlocks, LegalTurn;
    if ts != [] && s.queue.reqs != [] {
      TurnReports(s, ts[0], repaired);
      TurnFrees(s, ts[0], repaired);
      var (s1, more) := HelperTurn(s, ts[0], repaired);
      if more {
        FreedExactly(s1, ts[1..], repaired);
        HelperGrows(s1, ts[1..], repaired);
        assert !IsLast(s1.log[|s.log|]) && s1.alive;
        assert Helper(s, ts, repaired) == Helper(s1, ts[1..], repaired);
      }
    }
  }

  lemma TurnFrees(s: State, t: Turn, repaired: bool)
    requires BufsOk(s, repaired) && LegalTurn(t, repaired) && s.queue.reqs != [] && s.alive
    ensures var s' := HelperTurn(s, t, repaired).0;
            !s'.alive <==>
            |s'.log| > |s.log| && IsLast(s'.log[|s'.log| - 1]) && s'.log[|s'.log| - 1].notify && t.release
  {
    hide AllOk, View, Drained, SendParts, PeekExtents, Skips, Lengths, DoCalls;
    var s1 := Transmit(s, t.replies, repaired);
    CallsAreSilent(Fail(s1), t.calls, repaired);
    CallsAreSilent(Finish(s1, repaired), t.calls, repaired);
  }

  // ---- what callbacks do ----

  // The callbacks that were made, of requests with a callback, each made the calls of its turn.
  function CallsMade(events: seq<Event>, ts: seq<Turn>): seq<Call>
    decreases |events|
  {
    if events == [] || ts == [] then []
    else (if events[0].notify then ts[0].calls else []) + CallsMade(events[1..], ts[1..])
  }

  // What these calls write.
  function Written(cs: seq<Call>, repaired: bool): seq<Byte>
    requires forall i :: 0 <= i < |cs| ==> cs[i].Submit? ==> AllOk(cs[i].buf, repaired)
  {
    if cs == [] then [] else (if cs[0].Submit? then View(cs[0].buf, repaired) else []) + Written(cs[1..], repaired)
  }

  // The requests they make, the first byte being number `at`.
  function Issues(cs: seq<Call>, at: nat, repaired: bool): seq<Issue>
    requires forall i :: 0 <= i < |cs| ==> cs[i].Submit? ==> AllOk(cs[i].buf, repaired)
    decreases |cs|
  {
    if cs == [] then []
    else if cs[0].Submit? then
      var end := at + |View(cs[0].buf, repaired)|;
      [Issue(end, cs[0].notify)] + Issues(cs[1..], end, repaired)
    else Issues(cs[1..], at, repaired)
  }

  // The read callback they leave behind.
  function ReaderAfter(reader: Option<nat>, cs: seq<Call>): Option<nat> {
    if cs == [] then reader
    else
      match cs[|cs| - 1]
      case Submit(_, _) => ReaderAfter(reader, cs[..|cs| - 1])
      case StartReading(callback) => Some(callback)
      case StopReading => None
  }

  // s' is s with the effect of these calls.
  ghost predicate Effect(s: State, s': State, cs: seq<Call>, repaired: bool) {
    && LegalCalls(cs, repaired)
    && s'.given == s.given + Written(cs, repaired)
    && s'.issued == s.issued + Issues(cs, |s.given|, repaired)
    && s'.reader == ReaderAfter(s.reader, cs)
  }

  lemma {:induction false} WrittenConcat(a: seq<Call>, b: seq<Call>, repaired: bool)
    requires LegalCalls(a, repaired) && LegalCalls(b, repaired)
    ensures LegalCalls(a + b, repaired) && Written(a + b, repaired) == Written(a, repaired) + Written(b, repaired)
  {
    if a == [] {
      assert a + b == b && [] + Written(b, repaired) == Written(b, repaired);
    } else {
      assert (a + b)[1..] == a[1..] + b;
      WrittenConcat(a[1..], b, repaired);
    }
  }

  lemma {:induction false} IssuesConcat(a: seq<Call>, b: seq<Call>, at: nat, repaired: bool)
    requires LegalCalls(a, repaired) && LegalCalls(b, repaired) && LegalCalls(a + b, repaired)
    ensures Issues(a + b, at, repaired) == Issues(a, at, repaired) + Issues(b, at + |Written(a, repaired)|, repaired)
    decreases |a|
  {
    hide View, AllOk;
    if a == [] {
      assert a + b == b;
    } else {
      assert (a + b)[1..] == a[1..] + b;
      var next := if a[0].Submit? then at + |View(a[0].buf, repaired)| else at;
      IssuesConcat(a[1..], b, next, repaired);
    }
  }

  lemma {:induction false} ReaderConcat(reader: Option<nat>, a: seq<Call>, b: seq<Call>)
    ensures ReaderAfter(reader, a + b) == ReaderAfter(ReaderAfter(reader, a), b)
    decreases |b|
  {
    if b == [] {
      assert a + b == a;
    } else {
      assert (a + b)[..|a + b| - 1] == a + b[..|b| - 1];
      ReaderConcat(reader, a, b[..|b| - 1]);
    }
  }

  lemma EffectOn(a: State, b: State, c: State, cs: seq<Call>, ds: seq<Call>, repaired: bool)
    requires Effect(a, b, cs, repaired) && Effect(b, c, ds, repaired)
    ensures Effect(a, c, cs + ds, repaired)
  {
    hide Written, Issues, ReaderAfter;
    WrittenConcat(cs, ds, repaired);
    IssuesConcat(cs, ds, |a.given|, repaired);
    ReaderConcat(a.reader, cs, ds);
  }

  lemma CallEffect(s: State, c: Call, repaired: bool)
    requires LegalCall(c, repaired)
    ensures Effect(s, DoCall(s, c, repaired), [c], repaired)
  {
    assert [c][1..] == [] && [c][..0] == [] && Written([], repaired) == [];
    assert c.Submit? ==> View(c.buf, repaired) + [] == View(c.buf, repaired);
  }

  predicate SameCalls(s: State, s': State) {
    s'.given == s.given && s'.issued == s.issued && s'.reader == s.reader
  }

  lemma NoEffect(s: State, s': State, repaired: bool)
    requires SameCalls(s, s')
    ensures Effect(s, s', [], repaired)
  {
  }

  lemma EffectBetween(a: State, b: State, c: State, d: State, cs: seq<Call>, repaired: bool)
    requires SameCalls(a, b) && Effect(b, c, cs, repaired) && SameCalls(c, d)
    ensures Effect(a, d, cs, repaired)
  {
  }

  lemma {:induction false} CallsEffect(s: State, cs: seq<Call>, repaired: bool)
    requires LegalCalls(cs, repaired)
    ensures Effect(s, DoCalls(s, cs, repaired), cs, repaired)
    decreases |cs|
  {
    hide DoCall, Effect;
    if cs == [] {
      NoEffect(s, s, repaired);
    } else {
      var s1 := DoCall(s, cs[0], repaired);
      CallEffect(s, cs[0], repaired);
      CallsEffect(s1, cs[1..], repaired);
      EffectOn(s, s1, DoCalls(s, cs, repaired), [cs[0]], cs[1..], repaired);
      assert [cs[0]] + cs[1..] == cs;
    }
  }

  // The calls of a turn's callback take effect exactly if the callback is made.
  lemma TurnEffect(s: State, t: Turn, repaired: bool)
    requires BufsOk(s, repaired) && LegalTurn(t, repaired) && s.queue.reqs != []
    ensures var s' := HelperTurn(s, t, repaired).0;
            && s.log <= s'.log && |s'.log| <= |s.log| + 1
            && Effect(s, s', if |s'.log| > |s.log| && s'.log[|s.log|].notify then t.calls else [], repaired)
  {
    hide AllOk, View, Drained, SendParts, PeekExtents, Skips, Lengths, DoCalls, Effect;
    var s1 := Transmit(s, t.replies, repaired);
    var failed, finished := Fail(s1), Finish(s1, repaired);
    CallsAreSilent(failed, t.calls, repaired);
    CallsAreSilent(finished, t.calls, repaired);
    var s' := HelperTurn(s, t, repaired).0;
    if |s'.log| > |s.log| && s'.log[|s.log|].notify {
      var start := if s'.log[|s.log|].Failed? then failed else finished;
      CallsEffect(start, t.calls, repaired);
      EffectBetween(s, start, DoCalls(start, t.calls, repaired), s', t.calls, repaired);
    } else {
      NoEffect(s, s', repaired);
    }
  }

  lemma {:induction false} HelperEffect(s: State, ts: seq<Turn>, repaired: bool)
    requires BufsOk(s, repaired) && LegalTurns(ts, repaired)
    ensures var s' := Helper(s, ts, repaired);
            s.log <= s'.log && Effect(s, s', CallsMade(s'.log[|s.log|..], ts), repaired)
    decreases |ts|
  {
    hide HelperTurn, Effect, LegalTurn;
    if ts == [] || s.queue.reqs == [] {
      NoEffect(s, s, repaired);
    } else {
      var (s1, more) := HelperTurn(s, ts[0], repaired);
      var s' := Helper(s, ts, repaired);
      TurnReports(s, ts[0], repaired);
      TurnEffect(s, ts[0], repaired);
      var made := if |s1.log| > |s.log| && s1.log[|s.log|].notify then ts[0].calls else [];
      if more {
        HelperEffect(s1, ts[1..], repaired);
        assert s'.log[|s.log|..] == [s1.log[|s.log|]] + s'.log[|s1.log|..];
        assert s'.log[|s.log|..][1..] == s'.log[|s1.log|..];
        EffectOn(s, s1, s', made, CallsMade(s'.log[|s1.log|..], ts[1..]), repaired);
      } else {
        assert |s1.log| > |s.log| ==> s1.log[|s.log|..] == [s1.log[|s.log|]] && s1.log[|s.log|..][1..] == [];
        assert made + [] == made;
      }
    }
  }

  // Every call made in a run, in order: the client's, and those of the callbacks that were made.
  ghost function AllCalls(s: State, acts: seq<Action>, repaired: bool): seq<Call>
    requires BufsOk(s, repaired) && Legal(acts, repaired)
    decreases |acts|
  {
    if acts == [] || !s.alive then []
    else
      var s1 := Act(s, acts[0], repaired);
      (match acts[0]
       case Client(call) => [call]
       case Writable(turns) => if |s.log| <= |s1.log| then CallsMade(s1.log[|s.log|..], turns) else []) +
      AllCalls(s1, acts[1..], repaired)
  }

  lemma {:induction false} RunEffect(s: State, acts: seq<Action>, repaired: bool)
    requires BufsOk(s, repaired) && Legal(acts, repaired)
    ensures Effect(s, Run(s, acts, repaired), AllCalls(s, acts, repaired), repaired)
    decreases |acts|
  {
    hide Helper, DoCall, Effect, LegalTurn, CallsMade;
    if acts == [] || !s.alive {
      NoEffect(s, s, repaired);
    } else {
      var s1 := Act(s, acts[0], repaired);
      RunEffect(s1, acts[1..], repaired);
      match acts[0] {
        case Client(call) =>
          CallEffect(s, call, repaired);
          EffectOn(s, s1, Run(s, acts, repaired), [call], AllCalls(s1, acts[1..], repaired), repaired);
        case Writable(turns) =>
          HelperEffect(s, turns, repaired);
          EffectOn(s, s1, Run(s, acts, repaired), CallsMade(s1.log[|s.log|..], turns),
                   AllCalls(s1, acts[1..], repaired), repaired);
      }
    }
  }

  // Over every run, repaired or not: what has been given to the stream is exactly what was written by the calls
  // made, in order; each write is one request, with its end and its callback; and the read callback is the
  // one last set, if none has been taken away since.
  lemma EveryCallTakesEffect(acts: seq<Action>, repaired: bool)
    requires Legal(acts, repaired)
    ensures var s, cs := Run(INITIAL, acts, repaired), AllCalls(INITIAL, acts, repaired);
            && LegalCalls(cs, repaired)
            && s.given == Written(cs, repaired) && s.issued == Issues(cs, 0, repaired)
            && s.reader == ReaderAfter(None, cs)
  {
    RunEffect(INITIAL, acts, repaired);
    var cs := AllCalls(INITIAL, acts, repaired);
    assert [] + Written(cs, repaired) == Written(cs, repaired);
    assert [] + Issues(cs, 0, repaired) == Issues(cs, 0, repaired);
  }

  // ---- the stray store ----

  // As written a write stores through a tail left behind exactly if it finds a single request that was not
  // the first of its busy period.
  lemma StraysExactly(s: State, buf: seq<Ext>, notify: bool, repaired: bool)
    requires QueueOk(s.queue, repaired) && AllOk(buf, repaired)
    ensures Write(s, buf, notify, repaired).strayed <==>
            s.strayed || (!repaired && |s.queue.reqs| == 1 && s.queue.since >= 2)
  {
    hide View, AllOk;
  }
}
