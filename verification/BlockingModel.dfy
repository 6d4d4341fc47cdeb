/**
Reading as values: StreamImpl::readHelper (src/stream.cc) with the callback and the loop of
BlockingStreamImpl::read (src/blocking_stream.cc).  `repaired` is that of the buffer.
*/
module BlockingModel {
  import opened Extents

  const CHUNK: nat := 4096

  // The kernel's answer to one read of up to CHUNK bytes.
  datatype Result = Data(bytes: seq<Byte>) | WouldBlock | EndOfFile | Error

  predicate LegalResult(r: Result) {
    r.Data? ==> 0 < |r.bytes| <= CHUNK
  }

  ghost predicate LegalEvent(results: seq<Result>) {
    forall i :: 0 <= i < |results| ==> LegalResult(results[i])
  }

  ghost predicate LegalEvents(events: seq<seq<Result>>) {
    forall i :: 0 <= i < |events| ==> LegalEvent(events[i])
  }

  // The stream's read buffer, what the callback has stored so far and its flags, and all bytes the kernel
  // has delivered since the call began.
  datatype Reader = Reader(es: seq<Ext>, got: seq<Byte>, eof: bool, error: bool, received: seq<Byte>)

  // How much a caller still wants, in size_t: too much stored makes it wrap around.
  function Wanted(size: nat, nread: nat): nat
    requires size < TWO_64
  {
    if nread <= size then size - nread else (size - nread) % TWO_64
  }

  // Bytes arrive: they go to the end of the read buffer, and the callback takes what it wants from its front.
  ghost function Arrive(r: Reader, bytes: seq<Byte>, size: nat, repaired: bool): (r': Reader)
    requires AllFull(r.es) && |bytes| <= CHUNK && size < TWO_64
    ensures AllFull(r'.es) && r'.got + View(r'.es, repaired) == r.got + View(r.es, repaired) + bytes
  {
    AppendOnFull(r.es, bytes, repaired);
    var es := AppendTo(r.es, bytes, repaired).value;
    ReadConserves(es, Wanted(size, |r.got|), 0, repaired);
    var (out, left) := ReadLoop(es, Wanted(size, |r.got|), 0, repaired);
    assert r.got + (out + View(left, repaired)) == (r.got + out) + View(left, repaired);
    assert r.got + (View(r.es, repaired) + bytes) == r.got + View(r.es, repaired) + bytes;
    r.(es := left, got := r.got + out, received := r.received + bytes)
  }

  // readHelper: goes on as long as the kernel fills the whole chunk.
  ghost function ReadHelper(r: Reader, results: seq<Result>, size: nat, repaired: bool): (r': Reader)
    requires AllFull(r.es) && LegalEvent(results) && size < TWO_64
    ensures AllFull(r'.es)
    decreases |results|
  {
    if results == [] then r
    else
      match results[0]
      case WouldBlock => r
      case EndOfFile => r.(eof := true)
      case Error => r.(error := true)
      case Data(bytes) =>
        var r1 := Arrive(r, bytes, size, repaired);
        if |bytes| < CHUNK then r1 else ReadHelper(r1, results[1..], size, repaired)
  }

  predicate Waiting(r: Reader, size: nat) {
    |r.got| < size && !r.error && !r.eof
  }

  // The do loop of read; when the events have run out it is still waiting.
  ghost function Loop(r: Reader, events: seq<seq<Result>>, size: nat, repaired: bool): (r': Reader)
    requires AllFull(r.es) && LegalEvents(events) && size < TWO_64
    ensures AllFull(r'.es)
    decreases |events|
  {
    if events == [] then r
    else
      var r1 := ReadHelper(r, events[0], size, repaired);
      if Waiting(r1, size) then Loop(r1, events[1..], size, repaired) else r1
  }

  function Begin(es: seq<Ext>): Reader {
    Reader(es, [], false, false, [])
  }

  // BlockingStreamImpl::read, started with es left over from earlier calls.
  ghost function Read(es: seq<Ext>, events: seq<seq<Result>>, size: nat, repaired: bool): (r: Reader)
    requires AllFull(es) && LegalEvents(events) && size < TWO_64
    ensures AllFull(r.es)
  {
    Loop(Begin(es), events, size, repaired)
  }

  // ---- what the kernel said ----

  // A read that fills the whole array; any other is the last of its event.
  predicate FillsArray(result: Result) {
    result.Data? && |result.bytes| == 4096
  }

  function Used(results: seq<Result>): (used: seq<Result>)
    ensures used <= results && (results != [] ==> used != [])
  {
    if results == [] then []
    else if FillsArray(results[0]) then [results[0]] + Used(results[1..])
    else [results[0]]
  }

  function Bytes(results: seq<Result>): seq<Byte> {
    if results == [] then []
    else (if results[0].Data? then results[0].bytes else []) + Bytes(results[1..])
  }

  // The last result that the event came to.
  predicate EndedIn(results: seq<Result>, last: Result) {
    results != [] && Used(results)[|Used(results)| - 1] == last
  }

  function Arrived(events: seq<seq<Result>>): seq<Byte> {
    if events == [] then [] else Bytes(Used(events[0])) + Arrived(events[1..])
  }

  // One event hands on all that the kernel delivered in it, an error exactly if that is what the event ended
  // in, and the end of the file likewise.
  lemma {:induction false} HelperOutcome(r: Reader, results: seq<Result>, size: nat, repaired: bool)
    requires AllFull(r.es) && LegalEvent(results) && size < TWO_64
    ensures var r' := ReadHelper(r, results, size, repaired);
            && r'.received == r.received + Bytes(Used(results))
            && (r'.error <==> r.error || EndedIn(results, Error))
            && (r'.eof <==> r.eof || EndedIn(results, EndOfFile))
    decreases |results|
  {
    if results == [] || !results[0].Data? {
      assert r.received + [] == r.received;
      assert results != [] ==> Bytes([results[0]][1..]) == [];
    } else {
      var bytes := results[0].bytes;
      var r1 := Arrive(r, bytes, size, repaired);
      assert r1.received + Bytes(Used(results[1..])) == r.received + (bytes + Bytes(Used(results[1..])));
      if FillsArray(results[0]) {
        HelperOutcome(r1, results[1..], size, repaired);
        assert Used(results)[1..] == Used(results[1..]);
        UsedLast(results);
      } else {
        assert Used(results)[1..] == [] && bytes + [] == bytes;
      }
    }
  }

  lemma UsedLast(results: seq<Result>)
    requires results != [] && FillsArray(results[0])
    ensures forall last: Result :: !last.Data? ==> (EndedIn(results, last) <==> EndedIn(results[1..], last))
  {
    assert results[1..] == [] ==> Used(results) == [results[0]];
  }

  // How many events a call goes through.
  ghost function EventsTaken(r: Reader, events: seq<seq<Result>>, size: nat, repaired: bool): (k: nat)
    requires AllFull(r.es) && LegalEvents(events) && size < TWO_64
    ensures k <= |events| && (events != [] ==> k > 0)
    decreases |events|
  {
    if events == [] then 0
    else
      var r1 := ReadHelper(r, events[0], size, repaired);
      1 + if Waiting(r1, size) then EventsTaken(r1, events[1..], size, repaired) else 0
  }

  lemma {:induction false} LoopOutcome(r: Reader, events: seq<seq<Result>>, size: nat, repaired: bool)
    requires AllFull(r.es) && LegalEvents(events) && size < TWO_64 && !r.error && !r.eof
    ensures var r', k := Loop(r, events, size, repaired), EventsTaken(r, events, size, repaired);
            && (k < |events| ==> !Waiting(r', size))
            && r'.received == r.received + Arrived(events[..k])
            && (r'.error <==> k > 0 && EndedIn(events[k - 1], Error))
            && (r'.eof <==> k > 0 && EndedIn(events[k - 1], EndOfFile))
    decreases |events|
  {
    hide ReadHelper, EndedIn, Used, Bytes;
    if events == [] {
      assert r.received + [] == r.received;
    } else {
      HelperOutcome(r, events[0], size, repaired);
      var r1 := ReadHelper(r, events[0], size, repaired);
      var k := EventsTaken(r, events, size, repaired);
      assert events[..k][1..] == events[1..][..k - 1];
      assert Arrived(events[..k]) == Bytes(Used(events[0])) + Arrived(events[1..][..k - 1]);
      assert r1.received + Arrived(events[1..][..k - 1]) == r.received + Arrived(events[..k]);
      if Waiting(r1, size) {
        LoopOutcome(r1, events[1..], size, repaired);
      } else {
        assert events[1..][..0] == [] && Arrived([]) == [] && r1.received + [] == r1.received;
      }
    }
  }

  // Before that it was still waiting.
  lemma {:induction false} LoopWaited(r: Reader, events: seq<seq<Result>>, size: nat, repaired: bool, j: nat)
    requires AllFull(r.es) && LegalEvents(events) && size < TWO_64
    requires j <= EventsTaken(r, events, size, repaired)
    ensures EventsTaken(r, events[..j], size, repaired) == j
    ensures 0 < j < EventsTaken(r, events, size, repaired) ==> Waiting(Loop(r, events[..j], size, repaired), size)
    ensures j == EventsTaken(r, events, size, repaired) ==>
              Loop(r, events[..j], size, repaired) == Loop(r, events, size, repaired)
    decreases |events|
  {
    hide ReadHelper, Waiting;
    if j > 0 {
      var r1 := ReadHelper(r, events[0], size, repaired);
      assert events[..j][0] == events[0] && events[..j][1..] == events[1..][..j - 1];
      if Waiting(r1, size) {
        LoopWaited(r1, events[1..], size, repaired, j - 1);
        assert j == 1 ==> events[1..][..0] == [];
      }
    }
  }

  // A call goes on from event to event for as long as it has less than was asked for and has been told of
  // neither an error nor the end of the file.  It throws exactly if its last event ended in an error, and
  // sees the end of the file exactly if it ended in that; and it has received what those events delivered.
  lemma CallOutcome(es: seq<Ext>, events: seq<seq<Result>>, size: nat, repaired: bool) returns (k: nat)
    requires AllFull(es) && LegalEvents(events) && size < TWO_64
    ensures k == EventsTaken(Begin(es), events, size, repaired) <= |events| && (events != [] ==> k > 0)
    ensures var r := Read(es, events, size, repaired);
            && Read(es, events[..k], size, repaired) == r && (k < |events| ==> !Waiting(r, size))
            && r.received == Arrived(events[..k])
            && (r.error <==> k > 0 && EndedIn(events[k - 1], Error))
            && (r.eof <==> k > 0 && EndedIn(events[k - 1], EndOfFile))
    ensures forall j :: 0 < j < k ==> Waiting(Read(es, events[..j], size, repaired), size)
  {
    hide Loop, EventsTaken, Waiting, EndedIn;
    k := EventsTaken(Begin(es), events, size, repaired);
    LoopOutcome(Begin(es), events, size, repaired);
    LoopWaited(Begin(es), events, size, repaired, k);
    assert [] + Arrived(events[..k]) == Arrived(events[..k]);
    forall j | 0 < j < k ensures Waiting(Read(es, events[..j], size, repaired), size) {
      LoopWaited(Begin(es), events, size, repaired, j);
    }
  }

  // ---- conservation ----

  ghost predicate Conserves(r: Reader, all: seq<Byte>, repaired: bool)
    requires AllFull(r.es)
  {
    r.got + View(r.es, repaired) == all + r.received
  }

  lemma {:induction false} HelperConserves(r: Reader, results: seq<Result>, size: nat, repaired: bool, all: seq<Byte>)
    requires AllFull(r.es) && LegalEvent(results) && size < TWO_64 && Conserves(r, all, repaired)
    ensures Conserves(ReadHelper(r, results, size, repaired), all, repaired)
    decreases |results|
  {
    if results != [] && results[0].Data? {
      var r1 := Arrive(r, results[0].bytes, size, repaired);
      assert all + r.received + results[0].bytes == all + r1.received;
      HelperConserves(r1, results[1..], size, repaired, all);
    }
  }

  lemma {:induction false} LoopConserves(r: Reader, events: seq<seq<Result>>, size: nat, repaired: bool, all: seq<Byte>)
    requires AllFull(r.es) && LegalEvents(events) && size < TWO_64 && Conserves(r, all, repaired)
    ensures Conserves(Loop(r, events, size, repaired), all, repaired)
    decreases |events|
  {
    if events != [] {
      HelperConserves(r, events[0], size, repaired, all);
      LoopConserves(ReadHelper(r, events[0], size, repaired), events[1..], size, repaired, all);
    }
  }

  // What a call stores and what it leaves over are what was left over before it and what has arrived since.
  lemma ReadCallConserves(es: seq<Ext>, events: seq<seq<Result>>, size: nat, repaired: bool)
    requires AllFull(es) && LegalEvents(events) && size < TWO_64
    ensures var r := Read(es, events, size, repaired); r.got + View(r.es, repaired) == View(es, repaired) + r.received
  {
    assert [] + View(es, repaired) == View(es, repaired) + [];
    LoopConserves(Begin(es), events, size, repaired, View(es, repaired));
  }

  // ---- sessions ----

  datatype ReadCall = ReadCall(size: nat, events: seq<seq<Result>>)

  ghost predicate LegalReadCalls(calls: seq<ReadCall>) {
    forall i :: 0 <= i < |calls| ==> calls[i].size < TWO_64 && LegalEvents(calls[i].events)
  }

  // One call after the other: the pieces stored, what is left over, and everything the kernel delivered.
  ghost function Session(es: seq<Ext>, calls: seq<ReadCall>, repaired: bool): (seq<seq<Byte>>, seq<Ext>, seq<Byte>)
    requires AllFull(es) && LegalReadCalls(calls)
    decreases |calls|
  {
    if calls == [] then ([], es, [])
    else
      var r := Read(es, calls[0].events, calls[0].size, repaired);
      var (pieces, left, received) := Session(r.es, calls[1..], repaired);
      ([r.got] + pieces, left, r.received + received)
  }

  lemma Glue(got: seq<Byte>, pieces: seq<Byte>, left: seq<Byte>, between: seq<Byte>,
             before: seq<Byte>, first: seq<Byte>, later: seq<Byte>)
    requires got + between == before + first && pieces + left == between + later
    ensures (got + pieces) + left == before + (first + later)
  {
    assert (got + pieces) + left == got + (pieces + left);
    assert got + (between + later) == (got + between) + later;
    assert (before + first) + later == before + (first + later);
  }

  // Over any calls and any chunking of what arrives, the pieces one after the other and then the leftover
  // are exactly the stream.
  lemma {:induction false} SessionConserves(es: seq<Ext>, calls: seq<ReadCall>, repaired: bool)
    requires AllFull(es) && LegalReadCalls(calls)
    ensures var (pieces, left, received) := Session(es, calls, repaired);
            AllFull(left) && Joined(pieces) + View(left, repaired) == View(es, repaired) + received
    decreases |calls|
  {
    hide View, Read, LegalEvents;
    if calls == [] {
      assert [] + View(es, repaired) == View(es, repaired) + [];
    } else {
      var r := Read(es, calls[0].events, calls[0].size, repaired);
      ReadCallConserves(es, calls[0].events, calls[0].size, repaired);
      SessionConserves(r.es, calls[1..], repaired);
      var (pieces, left, received) := Session(r.es, calls[1..], repaired);
      assert ([r.got] + pieces)[1..] == pieces;
      Glue(r.got, Joined(pieces), View(left, repaired), View(r.es, repaired), View(es, repaired), r.received, received);
    }
  }

  // ---- never more than asked for ----

  // A read that comes to less than was asked for has emptied the buffer.
  lemma {:induction false} ShortReadEmpties(es: seq<Ext>, size: nat, total: nat, repaired: bool)
    requires AllOk(es, repaired)
    ensures var (out, left) := ReadLoop(es, size, total, repaired); total + |out| < size ==> left == []
    decreases |es|
  {
    if es != [] && total < size {
      var n := Min(if repaired then size - total else size, Readable(es[0], repaired));
      if n == Readable(es[0], repaired) { ShortReadEmpties(es[1..], size, total + n, repaired); }
    }
  }

  lemma CutsAppend(es: seq<Ext>, e: Ext, size: nat)
    requires AllOk(es, false) && Ok(e, false)
    ensures CutsCleanly(es + [e], size, 0) <==>
            CutsCleanly(es, size, 0) && !(0 < |View(es, false)| < size < |View(es, false)| + Readable(e, false))
  {
    var all := es + [e];
    assert all[..|es|] == es;
    assert CutsInto(all, size, 0, |es|) <==> 0 < |View(es, false)| < size < |View(es, false)| + Readable(e, false);
    forall k | 0 <= k < |es| ensures CutsInto(all, size, 0, k) == CutsInto(es, size, 0, k) {
      assert all[..k] == es[..k] && all[k] == es[k];
    }
  }

  // The leftover is empty, or a request for `size` bytes ends on a boundary between its extents, in the
  // first of them, or beyond anything that one chunk can add.
  ghost predicate Fitting(es: seq<Ext>, size: nat)
    requires AllOk(es, false)
  {
    CutsCleanly(es, size, 0) && !(0 < |View(es, false)| < size < |View(es, false)| + CHUNK)
  }

  // As soon as something has arrived, all there is has been stored or as much as was asked for.
  ghost predicate Exact(r: Reader, es: seq<Ext>, size: nat) {
    && |r.got| <= size
    && (r.received == [] ==> r.got == [] && r.es == es)
    && (r.received != [] ==> |r.got| == size || r.es == [])
  }

  lemma ArriveExact(r: Reader, bytes: seq<Byte>, size: nat, repaired: bool, es: seq<Ext>)
    requires AllFull(r.es) && AllFull(es) && 0 < |bytes| <= CHUNK && size < TWO_64
    requires Exact(r, es, size) && (repaired || Fitting(es, size))
    ensures Exact(Arrive(r, bytes, size, repaired), es, size)
  {
    hide View;
    var want := Wanted(size, |r.got|);
    AppendOnFull(r.es, bytes, repaired);
    var all := r.es + [Fresh(bytes)];
    if want > 0 {
      CutsAppend(r.es, Fresh(bytes), want);
      if r.es == [] { NothingToCut(want); }
      ReadExact(all, want, repaired);
      ShortReadEmpties(all, want, 0, repaired);
    }
  }

  lemma NothingToCut(size: nat)
    ensures View([], false) == [] && CutsCleanly([], size, 0)
  {
  }

  lemma {:induction false} HelperExact(r: Reader, results: seq<Result>, size: nat, repaired: bool, es: seq<Ext>)
    requires AllFull(r.es) && AllFull(es) && LegalEvent(results) && size < TWO_64
    requires Exact(r, es, size) && (repaired || Fitting(es, size))
    ensures Exact(ReadHelper(r, results, size, repaired), es, size)
    decreases |results|
  {
    if results != [] && results[0].Data? {
      ArriveExact(r, results[0].bytes, size, repaired, es);
      HelperExact(Arrive(r, results[0].bytes, size, repaired), results[1..], size, repaired, es);
    }
  }

  lemma {:induction false} LoopExact(r: Reader, events: seq<seq<Result>>, size: nat, repaired: bool, es: seq<Ext>)
    requires AllFull(r.es) && AllFull(es) && LegalEvents(events) && size < TWO_64
    requires Exact(r, es, size) && (repaired || Fitting(es, size))
    ensures Exact(Loop(r, events, size, repaired), es, size)
    decreases |events|
  {
    if events != [] {
      HelperExact(r, events[0], size, repaired, es);
      LoopExact(ReadHelper(r, events[0], size, repaired), events[1..], size, repaired, es);
    }
  }

  // Repaired always, and as written if the leftover fits, a call stores the first min(size, length) bytes of
  // what there is once something has arrived.  Until then it stores nothing, whatever is left over.
  lemma ReadCallExact(es: seq<Ext>, events: seq<seq<Result>>, size: nat, repaired: bool)
    requires AllFull(es) && LegalEvents(events) && size < TWO_64 && (repaired || Fitting(es, size))
    ensures var r := Read(es, events, size, repaired);
            var all := View(es, repaired) + r.received;
            && (r.received == [] ==> r.got == [] && r.es == es)
            && (r.received != [] ==>
                r.got == all[..Min(size, |all|)] && View(r.es, repaired) == all[Min(size, |all|)..])
  {
    LoopExact(Begin(es), events, size, repaired, es);
    ReadCallConserves(es, events, size, repaired);
    var r := Read(es, events, size, repaired);
    var all := View(es, repaired) + r.received;
    assert all[..|r.got|] == r.got && all[|r.got|..] == View(r.es, repaired);
  }

  // After k events the kernel has reported an error or the end of the file, or delivered something with which
  // there is as much as was asked for.
  predicate Enough(before: seq<Byte>, events: seq<seq<Result>>, size: nat, k: nat)
    requires 0 < k <= |events|
  {
    || EndedIn(events[k - 1], Error) || EndedIn(events[k - 1], EndOfFile)
    || size == 0 || (Arrived(events[..k]) != [] && |before| + |Arrived(events[..k])| >= size)
  }

  // When a call returns is said by the kernel's results and the leftover's length alone.
  lemma ReturnsExactlyWhen(es: seq<Ext>, events: seq<seq<Result>>, size: nat, repaired: bool)
    requires AllFull(es) && LegalEvents(events) && size < TWO_64 && (repaired || Fitting(es, size)) && events != []
    ensures !Waiting(Read(es, events, size, repaired), size) <==>
            exists k :: 0 < k <= |events| && Enough(View(es, repaired), events, size, k)
  {
    var n := CallOutcome(es, events, size, repaired);
    if !Waiting(Read(es, events, size, repaired), size) {
      EnoughExactly(es, events, size, repaired, n);
    }
    forall k | 0 < k <= |events| && Enough(View(es, repaired), events, size, k)
      ensures !Waiting(Read(es, events, size, repaired), size)
    {
      if k <= n { EnoughExactly(es, events, size, repaired, k); }
      assert k == n ==> Read(es, events[..k], size, repaired) == Read(es, events, size, repaired);
    }
  }

  lemma EnoughExactly(es: seq<Ext>, events: seq<seq<Result>>, size: nat, repaired: bool, k: nat)
    requires AllFull(es) && LegalEvents(events) && size < TWO_64 && (repaired || Fitting(es, size))
    requires 0 < k <= EventsTaken(Begin(es), events, size, repaired)
    ensures !Waiting(Read(es, events[..k], size, repaired), size) <==>
            Enough(View(es, repaired), events, size, k)
  {
    hide View, Loop, EventsTaken, EndedIn, Arrived, Fitting;
    LoopWaited(Begin(es), events, size, repaired, k);
    var n := CallOutcome(es, events[..k], size, repaired);
    assert events[..k][..n] == events[..k] && events[..k][k - 1] == events[k - 1];
    ReadCallExact(es, events[..k], size, repaired);
  }

  // What is left over is delivered only together with something new: a call that meets the end of the stream
  // first returns nothing and leaves it behind, and one that nothing happens to waits although there may be
  // enough.  So a call stores the first min(size, length) bytes exactly if something has arrived in it, or
  // there was nothing left over, or nothing was asked for.
  lemma LeftoverNeedsArrival(es: seq<Ext>, events: seq<seq<Result>>, size: nat, repaired: bool)
    requires AllFull(es) && LegalEvents(events) && size < TWO_64 && (repaired || Fitting(es, size))
    ensures var r := Read(es, events, size, repaired);
            var all := View(es, repaired) + r.received;
            && (r.got == all[..Min(size, |all|)] <==> r.received != [] || View(es, repaired) == [] || size == 0)
            && (r.received == [] && 0 < size && !r.eof && !r.error ==> Waiting(r, size))
  {
    ReadCallExact(es, events, size, repaired);
  }

  lemma EndOfFileFirst(es: seq<Ext>, size: nat, repaired: bool)
    requires AllFull(es) && size < TWO_64
    ensures var r := Read(es, [[EndOfFile]], size, repaired); r.got == [] && r.eof && !Waiting(r, size) && r.es == es
  {
    var results := [EndOfFile];
    var events := [results];
    assert events[1..] == [];
    assert ReadHelper(Begin(es), results, size, repaired) == Begin(es).(eof := true);
  }

  // As written a call stores at most what was asked for, whatever arrives, exactly if the leftover fits.
  lemma AsWrittenReadCall(es: seq<Ext>, size: nat)
    requires AllFull(es) && size < TWO_64
    ensures Fitting(es, size) <==>
            forall events: seq<seq<Result>> | LegalEvents(events) :: |Read(es, events, size, false).got| <= size
  {
    if Fitting(es, size) {
      forall events: seq<seq<Result>> | LegalEvents(events) ensures |Read(es, events, size, false).got| <= size {
        LoopExact(Begin(es), events, size, false, es);
      }
    } else {
      var events := OverflowingChunk(es, size);
      assert |Read(es, events, size, false).got| > size;
    }
  }

  lemma OverflowingChunk(es: seq<Ext>, size: nat) returns (events: seq<seq<Result>>)
    requires AllFull(es) && size < TWO_64 && !Fitting(es, size)
    ensures LegalEvents(events) && |Read(es, events, size, false).got| > size
  {
    var bytes: seq<Byte> := seq(CHUNK, _ => 0);
    var results := [Data(bytes)];
    events := [results];
    AppendOnFull(es, bytes, false);
    CutsAppend(es, Fresh(bytes), size);
    ReadExact(es + [Fresh(bytes)], size, false);
    var r1 := Arrive(Begin(es), bytes, size, false);
    assert results[1..] == [] && events[1..] == [];
    assert ReadHelper(Begin(es), results, size, false) == r1;
    assert [] + r1.got == r1.got;
  }
}
