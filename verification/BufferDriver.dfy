/**
Histories on real heap buffers: whatever the commands, the two buffers stay well formed and apart, and
what they hold and hand out is what module BufferHistory says.
*/
module BufferDriver {
  import opened Extents
  import opened BufferHeap
  import opened BufferHistory

  ghost function BufOf(b: BufferImpl): Buf
    requires b.Valid()
    reads b, b.Repr
  {
    Buf(b.Extents(), b.size)
  }

  // Two well-formed buffers that share no node and no storage.
  ghost predicate Apart(t: BufferImpl, o: BufferImpl)
    reads t, o, t.Repr, o.Repr
  {
    t.Valid() && o.Valid() && t.Repr !! o.Repr && t.repaired == o.repaired
  }

  ghost function PairOf(a: BufferImpl, b: BufferImpl): Pair
    requires a.Valid() && b.Valid()
    reads a, b, a.Repr, b.Repr
  {
    Pair(BufOf(a), BufOf(b))
  }

  // A run carried on with `outs` already handed out.
  ghost function RunFrom(p: Pair, outs: seq<seq<Byte>>, cs: seq<Command>, repaired: bool): (Pair, seq<seq<Byte>>)
    requires GoodPair(p, repaired) && LegalRun(p, cs, repaired)
  {
    var (q, more) := Run(p, cs, repaired);
    (q, outs + more)
  }

  lemma RunStarts(p: Pair, cs: seq<Command>, repaired: bool)
    requires GoodPair(p, repaired) && LegalRun(p, cs, repaired)
    ensures RunFrom(p, [], cs, repaired) == Run(p, cs, repaired)
  {
    assert [] + Run(p, cs, repaired).1 == Run(p, cs, repaired).1;
  }

  lemma RunStops(p: Pair, outs: seq<seq<Byte>>, repaired: bool)
    requires GoodPair(p, repaired) && LegalRun(p, [], repaired)
    ensures RunFrom(p, outs, [], repaired) == (p, outs)
  {
    assert outs + [] == outs;
  }

  lemma RunTurn(p: Pair, outs: seq<seq<Byte>>, cs: seq<Command>, repaired: bool)
    requires GoodPair(p, repaired) && LegalRun(p, cs, repaired) && cs != []
    ensures Legal(Target(p, cs[0]), Other(p, cs[0]), cs[0])
    ensures var (q, out) := Step(p, cs[0], repaired);
            LegalRun(q, cs[1..], repaired) && RunFrom(p, outs, cs, repaired) ==
                RunFrom(q, outs + [out], cs[1..], repaired)
  {
    var (q, out) := Step(p, cs[0], repaired);
    var more := Run(q, cs[1..], repaired).1;
    assert outs + ([out] + more) == (outs + [out]) + more;
  }

  method ExecuteOne(t: BufferImpl, o: BufferImpl, c: Command) returns (out: seq<Byte>)
    requires Apart(t, o) && Good(BufOf(t), t.repaired) && Good(BufOf(o), t.repaired) && Legal(BufOf(t), BufOf(o), c)
    modifies t.Repr, o.Repr
    ensures Apart(t, o) && fresh(t.Repr + o.Repr - old(t.Repr) - old(o.Repr))
    ensures (BufOf(t), BufOf(o), out) == OnBufs(old(BufOf(t)), old(BufOf(o)), c, t.repaired)
  {
    hide BufferImpl.Valid, BufferImpl.Extents, View, AppendTo, PrependTo, ReadLoop, PeekLoop, PeekExtents, Drained,
        Joined;
    ghost var bt, bo := BufOf(t), BufOf(o);
    out := [];
    match c {
      case Append(_, data) =>
        AppendsAlways(bt.es, data, t.repaired);
        var ok := t.Append(data);
      case Prepend(_, data) =>
        t.Prepend(data);
      case AppendBuffer(_) =>
        assert bt.es + [] == bt.es;
        t.AppendBuffer(o);
      case PrependBuffer(_) =>
        assert [] + bt.es == bt.es;
        t.PrependBuffer(o);
      case Read(_, count) =>
        ReadConserves(bt.es, count, 0, t.repaired);
        out := t.Read(count);
      case Peek(_, count) =>
        out := t.Peek(count);
      case PeekParts(_, count) =>
        var extents := t.PeekParts(count);
        out := Joined(Pointed(extents));
      case Drain(_, count) =>
        t.Drain(count);
    }
  }

  // Commands aimed at either of two buffers, one after the other.
  method Execute(a: BufferImpl, b: BufferImpl, cs: seq<Command>) returns (outs: seq<seq<Byte>>)
    requires Apart(a, b) && GoodPair(PairOf(a, b), a.repaired) && LegalRun(PairOf(a, b), cs, a.repaired)
    modifies a.Repr, b.Repr
    ensures Apart(a, b) && fresh(a.Repr + b.Repr - old(a.Repr) - old(b.Repr))
    ensures (PairOf(a, b), outs) == Run(old(PairOf(a, b)), cs, a.repaired)
    ensures a.repaired || SafeRun(old(PairOf(a, b)), cs) ==>
              && (View(a.Extents(), a.repaired), View(b.Extents(), a.repaired), outs) ==
                 RunBytes(old(View(a.Extents(), a.repaired)), old(View(b.Extents(), a.repaired)), cs)
              && a.size == |View(a.Extents(), a.repaired)| && b.size == |View(b.Extents(), a.repaired)|
  {
    hide BufferImpl.Valid, BufferImpl.Extents, Run, RunBytes, LegalRun, SafeRun, OnBufs, Good, Legal, View;
    ghost var p, repaired := PairOf(a, b), a.repaired;
    outs := [];
    var i := 0;
    assert cs[0..] == cs;
    RunStarts(p, cs, repaired);
    while i < |cs|
      invariant i <= |cs|
      invariant Apart(a, b) && fresh(a.Repr + b.Repr - old(a.Repr) - old(b.Repr))
      invariant GoodPair(PairOf(a, b), repaired) && LegalRun(PairOf(a, b), cs[i..], repaired)
      invariant RunFrom(PairOf(a, b), outs, cs[i..], repaired) == Run(p, cs, repaired)
    {
      RunTurn(PairOf(a, b), outs, cs[i..], repaired);
      var out;
      if cs[i].at == A {
        out := ExecuteOne(a, b, cs[i]);
      } else {
        out := ExecuteOne(b, a, cs[i]);
      }
      assert cs[i..][1..] == cs[i + 1..];
      outs, i := outs + [out], i + 1;
    }
    assert cs[i..] == [];
    RunStops(PairOf(a, b), outs, repaired);
    if repaired || SafeRun(p, cs) {
      HistoryRefines(p, cs, repaired);
    }
  }

  // ---- the repaired code, with reserve ----

  // Two repaired buffers that hold these bytes.
  ghost predicate Hold(a: BufferImpl, b: BufferImpl, x: seq<Byte>, y: seq<Byte>)
    reads a, b, a.Repr, b.Repr
  {
    && Apart(a, b) && a.repaired
    && View(a.Extents(), true) == x && a.size == |x|
    && View(b.Extents(), true) == y && b.size == |y|
  }

  // What the command needs, said of the bytes alone.
  predicate LegalBytes(x: seq<Byte>, y: seq<Byte>, c: Command) {
    if c.Reserve? then c.amount <= MAX_OBJECT else Legal(Buf([], |x|), Buf([], |y|), c)
  }

  predicate LegalBytesRun(x: seq<Byte>, y: seq<Byte>, cs: seq<Command>)
    decreases |cs|
  {
    cs == [] ||
    ((if cs[0].at == A then LegalBytes(x, y, cs[0]) else LegalBytes(y, x, cs[0]))
     && LegalBytesRun(StepBytes(x, y, cs[0]).0, StepBytes(x, y, cs[0]).1, cs[1..]))
  }

  method ExecuteOneRepaired(t: BufferImpl, o: BufferImpl, c: Command, ghost x: seq<Byte>, ghost y: seq<Byte>)
    returns (out: seq<Byte>)
    requires Hold(t, o, x, y) && LegalBytes(x, y, c)
    modifies t.Repr, o.Repr
    ensures var r := OnBytes(x, y, c); Hold(t, o, r.0, r.1) && out == r.2
    ensures fresh(t.Repr + o.Repr - old(t.Repr) - old(o.Repr))
  {
    hide BufferImpl.Valid, BufferImpl.Extents, View, ReserveTo, OnBufs;
    ghost var bt, bo := BufOf(t), BufOf(o);
    if c.Reserve? {
      ghost var junk;
      var ok;
      ok, junk := t.Reserve(c.amount);
      ReserveExact(bt.es, c.amount, junk, true);
      out := [];
    } else {
      StepRefines(bt, bo, c, true);
      out := ExecuteOne(t, o, c);
    }
  }

  // Any history at all on two repaired buffers, reserve included, is one on two byte sequences.
  method ExecuteRepaired(a: BufferImpl, b: BufferImpl, cs: seq<Command>, ghost x0: seq<Byte>, ghost y0: seq<Byte>)
    returns (outs: seq<seq<Byte>>)
    requires Hold(a, b, x0, y0) && LegalBytesRun(x0, y0, cs)
    modifies a.Repr, b.Repr
    ensures fresh(a.Repr + b.Repr - old(a.Repr) - old(b.Repr))
    ensures var r := RunBytes(x0, y0, cs); Hold(a, b, r.0, r.1) && outs == r.2
  {
    hide BufferImpl.Valid, BufferImpl.Extents, View, LegalBytes, OnBytes;
    ghost var x, y := x0, y0;
    ghost var r := RunBytes(x, y, cs);
    outs := [];
    var i := 0;
    assert cs[0..] == cs && [] + r.2 == r.2;
    while i < |cs|
      invariant i <= |cs| && Hold(a, b, x, y) && LegalBytesRun(x, y, cs[i..])
      invariant fresh(a.Repr + b.Repr - old(a.Repr) - old(b.Repr))
      invariant var later := RunBytes(x, y, cs[i..]); r == (later.0, later.1, outs + later.2)
    {
      assert cs[i..][1..] == cs[i + 1..];
      ghost var next := StepBytes(x, y, cs[i]);
      ghost var later := RunBytes(next.0, next.1, cs[i + 1..]);
      assert outs + ([next.2] + later.2) == (outs + [next.2]) + later.2;
      var out;
      if cs[i].at == A {
        out := ExecuteOneRepaired(a, b, cs[i], x, y);
      } else {
        out := ExecuteOneRepaired(b, a, cs[i], y, x);
      }
      x, y := next.0, next.1;
      outs, i := outs + [out], i + 1;
    }
    assert cs[i..] == [] && outs + [] == outs;
  }
}
