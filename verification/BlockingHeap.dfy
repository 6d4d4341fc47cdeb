/**
The read side as objects: the stream's read buffer is a real BufferImpl, the callback of a blocking read
takes from it, proved against module BlockingModel.
*/
module BlockingHeap {
  import opened Wrappers
  import opened Extents
  import opened BufferHeap
  import opened BlockingModel

  class BlockingReadCallback {
    const size: nat
    // What has been stored in the caller's array.
    var stored: seq<Byte>
    var nread: nat
    var eof: bool
    var error: bool

    constructor (size: nat)
      ensures this.size == size && stored == [] && nread == 0 && !eof && !error
    {
      this.size := size;
      stored, nread, eof, error := [], 0, false, false;
    }

    method Available(buf: BufferImpl)
      requires buf.Valid() && this !in buf.Repr && size < TWO_64 && nread == |stored| < TWO_64
      modifies `stored, `nread, buf.Repr
      ensures buf.Valid() && buf.Repr <= old(buf.Repr) && nread == |stored|
      ensures var (out, left) := ReadLoop(old(buf.Extents()), Wanted(size, old(nread)), 0, buf.repaired);
              stored == old(stored) + out && buf.Extents() == left
    {
      hide BufferImpl.Valid, BufferImpl.Extents, ReadLoop;
      assert Wanted(size, nread) == Sub(size, nread);
      var out := buf.Read(Sub(size, nread));
      stored := stored + out;
      nread := nread + |out|;
    }
  }

  // All that the kernel would deliver fits the address space together with what is there.
  function Volume(results: seq<Result>): nat {
    if results == [] then 0 else (if results[0].Data? then |results[0].bytes| else 0) + Volume(results[1..])
  }

  function TotalVolume(events: seq<seq<Result>>): nat {
    if events == [] then 0 else Volume(events[0]) + TotalVolume(events[1..])
  }

  // One chunk, taken apart the way the loop goes through it.
  lemma HelperStep(r: Reader, results: seq<Result>, size: nat, repaired: bool)
    requires AllFull(r.es) && LegalEvent(results) && size < TWO_64 && results != []
    requires |r.got| + |View(r.es, repaired)| + Volume(results) < TWO_64
    ensures LegalResult(results[0]) && LegalEvent(results[1..])
    ensures results[0].Data? ==>
              var bytes := results[0].bytes;
              var r1 := Arrive(r, bytes, size, repaired);
              && AppendTo(r.es, bytes, repaired) == Some(r.es + [Fresh(bytes)])
              && |r1.got| + |View(r1.es, repaired)| + Volume(results[1..]) < TWO_64
              && ReadHelper(r, results, size, repaired) ==
                 if |bytes| < CHUNK then r1 else ReadHelper(r1, results[1..], size, repaired)
  {
    if results[0].Data? {
      AppendOnFull(r.es, results[0].bytes, repaired);
      var r1 := Arrive(r, results[0].bytes, size, repaired);
      assert |r1.got + View(r1.es, repaired)| == |r.got + View(r.es, repaired) + results[0].bytes|;
    }
  }

  lemma LoopStep(r: Reader, events: seq<seq<Result>>, size: nat, repaired: bool)
    requires AllFull(r.es) && LegalEvents(events) && size < TWO_64 && events != []
    requires |r.got| + |View(r.es, repaired)| + TotalVolume(events) < TWO_64
    ensures LegalEvent(events[0]) && LegalEvents(events[1..])
    ensures |r.got| + |View(r.es, repaired)| + Volume(events[0]) < TWO_64
    ensures var r1 := BlockingModel.ReadHelper(r, events[0], size, repaired);
            && |r1.got| + |View(r1.es, repaired)| + TotalVolume(events[1..]) < TWO_64
            && Loop(r, events, size, repaired) ==
               if Waiting(r1, size) then Loop(r1, events[1..], size, repaired) else r1
  {
    HelperVolume(r, events[0], size, repaired);
  }

  lemma {:induction false} HelperVolume(r: Reader, results: seq<Result>, size: nat, repaired: bool)
    requires AllFull(r.es) && LegalEvent(results) && size < TWO_64
    ensures var r1 := BlockingModel.ReadHelper(r, results, size, repaired);
            |r1.got| + |View(r1.es, repaired)| <= |r.got| + |View(r.es, repaired)| + Volume(results)
    decreases |results|
  {
    if results != [] && results[0].Data? {
      var r1 := Arrive(r, results[0].bytes, size, repaired);
      assert |r1.got + View(r1.es, repaired)| == |r.got + View(r.es, repaired) + results[0].bytes|;
      HelperVolume(r1, results[1..], size, repaired);
    }
  }

  class BlockingStreamImpl {
    const readBuffer: BufferImpl
    const repaired: bool
    // What the kernel has delivered since the current call began.
    ghost var received: seq<Byte>

    ghost predicate Valid()
      reads this, readBuffer, readBuffer.Repr
    {
      readBuffer.Valid() && readBuffer.repaired == repaired && this !in readBuffer.Repr && AllFull(readBuffer.Extents())
    }

    ghost function State(cb: BlockingReadCallback): Reader
      requires Valid()
      reads this, readBuffer, readBuffer.Repr, cb
    {
      Reader(readBuffer.Extents(), cb.stored, cb.eof, cb.error, received)
    }

    constructor (repaired: bool)
      ensures Valid() && fresh(readBuffer.Repr) && this.repaired == repaired && readBuffer.Extents() == []
    {
      this.repaired := repaired;
      readBuffer := new BufferImpl(repaired);
      received := [];
    }

    // A chunk arrives.
    method Receive(cb: BlockingReadCallback, bytes: seq<Byte>)
      requires Valid() && cb !in readBuffer.Repr && cb.size < TWO_64 && cb.nread == |cb.stored| < TWO_64 &&
               |bytes| <= CHUNK
      modifies this, cb, readBuffer.Repr
      ensures Valid() && cb !in readBuffer.Repr && fresh(readBuffer.Repr - old(readBuffer.Repr)) &&
              cb.nread == |cb.stored|
      ensures State(cb) == Arrive(old(State(cb)), bytes, cb.size, repaired)
    {
      hide BufferImpl.Valid, BufferImpl.Extents, ReadLoop, View, AppendTo;
      ghost var before := State(cb);
      AppendOnFull(readBuffer.Extents(), bytes, repaired);
      var ok := readBuffer.Append(bytes);
      cb.Available(readBuffer);
      received := received + bytes;
      assert readBuffer.Extents() == Arrive(before, bytes, cb.size, repaired).es;
    }

    method ReadHelper(cb: BlockingReadCallback, results: seq<Result>)
      requires Valid() && cb !in readBuffer.Repr && cb.size < TWO_64 && cb.nread == |cb.stored| && LegalEvent(results)
      requires |cb.stored| + |View(readBuffer.Extents(), repaired)| + Volume(results) < TWO_64
      modifies this, cb, readBuffer.Repr
      ensures Valid() && cb !in readBuffer.Repr && fresh(readBuffer.Repr - old(readBuffer.Repr)) &&
              cb.nread == |cb.stored|
      ensures State(cb) == BlockingModel.ReadHelper(old(State(cb)), results, cb.size, repaired)
      ensures cb.error == (old(cb.error) || EndedIn(results, Error))
      ensures cb.eof == (old(cb.eof) || EndedIn(results, EndOfFile))
      ensures received == old(received) + Bytes(Used(results))
    {
      hide BufferImpl.Valid, BufferImpl.Extents, View, Arrive, EndedIn, Used, Bytes;
      ghost var start := State(cb);
      HelperOutcome(start, results, cb.size, repaired);
      var i := 0;
      var more := true;
      assert results[0..] == results;
      while more && i < |results|
        invariant i <= |results| && Valid() && cb !in readBuffer.Repr && fresh(readBuffer.Repr - old(readBuffer.Repr))
        invariant cb.nread == |cb.stored|
        invariant more ==> |cb.stored| + |View(readBuffer.Extents(), repaired)| + Volume(results[i..]) < TWO_64
        invariant more ==> BlockingModel.ReadHelper(State(cb), results[i..], cb.size, repaired) ==
                           BlockingModel.ReadHelper(start, results, cb.size, repaired)
        invariant !more ==> State(cb) == BlockingModel.ReadHelper(start, results, cb.size, repaired)
      {
        HelperStep(State(cb), results[i..], cb.size, repaired);
        assert results[i..][1..] == results[i + 1..];
        match results[i] {
          case WouldBlock =>
            more := false;
          case EndOfFile =>
            cb.eof := true;
            more := false;
          case Error =>
            cb.error := true;
            more := false;
          case Data(bytes) =>
            Receive(cb, bytes);
            more := |bytes| == CHUNK;
        }
        i := i + 1;
      }
    }

    // read(buf, size).  Waiting: the events have run out before the call could return.
    method Read(size: nat, events: seq<seq<Result>>) returns (piece: seq<Byte>, thrown: bool, waiting: bool)
      requires Valid() && size < TWO_64 && LegalEvents(events)
      requires |View(readBuffer.Extents(), repaired)| + TotalVolume(events) < TWO_64
      modifies this, readBuffer.Repr
      ensures Valid() && fresh(readBuffer.Repr - old(readBuffer.Repr))
      ensures var r := BlockingModel.Read(old(readBuffer.Extents()), events, size, repaired);
              && piece == r.got && readBuffer.Extents() == r.es && received == r.received
              && thrown == r.error && (waiting <==> events == [] || Waiting(r, size))
      ensures var k := EventsTaken(Begin(old(readBuffer.Extents())), events, size, repaired);
              && (thrown <==> k > 0 && EndedIn(events[k - 1], Error)) && received == Arrived(events[..k])
      ensures piece + View(readBuffer.Extents(), repaired) == old(View(readBuffer.Extents(), repaired)) + received
    {
      hide BufferImpl.Valid, BufferImpl.Extents, View, BlockingModel.ReadHelper, Volume, EndedIn, EventsTaken, Arrived;
      ghost var es := readBuffer.Extents();
      var cb := new BlockingReadCallback(size);
      received := [];
      ghost var start := State(cb);
      var more := true;
      var i := 0;
      assert events[0..] == events;
      while more && i < |events|
        invariant i <= |events| && Valid() && cb !in readBuffer.Repr && fresh(readBuffer.Repr - old(readBuffer.Repr))
        invariant cb.nread == |cb.stored|
        invariant more ==> |cb.stored| + |View(readBuffer.Extents(), repaired)| + TotalVolume(events[i..]) < TWO_64
        invariant more ==> Loop(State(cb), events[i..], size, repaired) == Loop(start, events, size, repaired)
        invariant i > 0 ==> more == Waiting(State(cb), size)
        invariant i == 0 ==> more
        invariant !more ==> State(cb) == Loop(start, events, size, repaired)
      {
        LoopStep(State(cb), events[i..], size, repaired);
        assert events[i..][1..] == events[i + 1..];
        ReadHelper(cb, events[i]);
        more := cb.nread < size && !cb.error && !cb.eof;
        i := i + 1;
      }
      ReadCallConserves(es, events, size, repaired);
      ghost var k := CallOutcome(es, events, size, repaired);
      return cb.stored, cb.error, more;
    }
  }
}
