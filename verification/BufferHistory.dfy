/**
Whole histories on two distinct buffers: any sequence of operations, splices in both directions
included, against a pair of plain byte sequences.  Reserve is not among the operations here: as written
it makes the code read storage nothing was put in (Extents.ReserveExact).  Module BufferDriver has it
for the repaired code.
*/
module BufferHistory {
  import opened Extents

  datatype Side = A | B

  // AppendBuffer and PrependBuffer move the other buffer's contents to the named one.
  datatype Command =
    | Append(at: Side, data: seq<Byte>)
    | Prepend(at: Side, data: seq<Byte>)
    | AppendBuffer(at: Side)
    | PrependBuffer(at: Side)
    | Read(at: Side, count: nat)
    | Peek(at: Side, count: nat)
    | PeekParts(at: Side, count: nat)
    | Drain(at: Side, count: nat)
    | Reserve(at: Side, amount: nat)

  datatype Buf = Buf(es: seq<Ext>, size: nat)

  // The cached size is the length of what the buffer holds, and as written no extent has room at its end.
  ghost predicate Good(b: Buf, repaired: bool) {
    AllOk(b.es, repaired) && (!repaired ==> AllFull(b.es)) && b.size == |View(b.es, repaired)|
  }

  // The arguments are C++ objects and values of size_t, and no two objects overlap in the address space.
  predicate Legal(t: Buf, o: Buf, c: Command) {
    && t.size + o.size < TWO_64
    && match c
       case Append(_, data) => |data| <= MAX_OBJECT && t.size + o.size + |data| < TWO_64
       case Prepend(_, data) => |data| <= MAX_OBJECT && t.size + o.size + |data| < TWO_64
       case Read(_, count) => count < TWO_64
       case Peek(_, count) => count < TWO_64
       case PeekParts(_, count) => count < TWO_64
       case Drain(_, count) => count < TWO_64
       case Reserve(_, _) => false
       case _ => true
  }

  // Appending succeeds, repaired always and as written on full extents.
  lemma AppendsAlways(es: seq<Ext>, data: seq<Byte>, repaired: bool)
    requires AllOk(es, repaired) && (!repaired ==> AllFull(es)) && |data| <= MAX_OBJECT
    ensures var es' := AppendTo(es, data, repaired);
            && es'.Some? && AllOk(es'.value, repaired) && (!repaired ==> AllFull(es'.value))
            && View(es'.value, repaired) == View(es, repaired) + data
  {
    if repaired { AppendExact(es, data, true); } else { AppendOnFull(es, data, false); }
  }

  // ---- one command, on the extents ----

  // The target, the other buffer, and the bytes handed to the caller.
  ghost function OnBufs(t: Buf, o: Buf, c: Command, repaired: bool): (Buf, Buf, seq<Byte>)
    requires Good(t, repaired) && Good(o, repaired) && Legal(t, o, c)
  {
    match c
    case Append(_, data) =>
      AppendsAlways(t.es, data, repaired);
      (Buf(AppendTo(t.es, data, repaired).value, Add(t.size, |data|)), o, [])
    case Prepend(_, data) => (Buf(PrependTo(t.es, data, repaired), Add(t.size, |data|)), o, [])
    case AppendBuffer(_) =>
      if o.es == [] then (t, o, []) else (Buf(t.es + o.es, Add(t.size, o.size)), Buf([], 0), [])
    case PrependBuffer(_) =>
      if o.es == [] then (t, o, []) else (Buf(o.es + t.es, Add(t.size, o.size)), Buf([], 0), [])
    case Read(_, count) =>
      var (out, left) := ReadLoop(t.es, count, 0, repaired);
      ReadConserves(t.es, count, 0, repaired);
      (Buf(left, Sub(t.size, |out|)), o, out)
    case Peek(_, count) => (t, o, PeekLoop(t.es, count, 0, repaired))
    case PeekParts(_, count) => (t, o, Joined(PeekExtents(t.es, count, 0, repaired)))
    case Drain(_, count) =>
      (Buf(Drained(t.es, count, repaired), Sub(t.size, Min(count, |View(t.es, repaired)|))), o, [])
  }

  // ---- the same on plain bytes ----

  function OnBytes(t: seq<Byte>, o: seq<Byte>, c: Command): (seq<Byte>, seq<Byte>, seq<Byte>) {
    match c
    case Append(_, data) => (t + data, o, [])
    case Prepend(_, data) => (data + t, o, [])
    case AppendBuffer(_) => (t + o, [], [])
    case PrependBuffer(_) => (o + t, [], [])
    case Read(_, count) => (t[Min(count, |t|)..], o, t[..Min(count, |t|)])
    case Peek(_, count) => (t, o, t[..Min(count, |t|)])
    case PeekParts(_, count) => (t, o, t[..Min(count, |t|)])
    case Drain(_, count) => (t[Min(count, |t|)..], o, [])
    case Reserve(_, _) => (t, o, [])
  }

  // As written, prepend and read are right only some of the time (Extents.PrependExact, Extents.ReadExact).
  ghost predicate Safe(t: Buf, c: Command)
    requires Good(t, false)
  {
    match c
    case Prepend(_, data) => PrependSafe(t.es, |data|)
    case Read(_, count) => CutsCleanly(t.es, count, 0)
    case Peek(_, count) => CutsCleanly(t.es, count, 0)
    case _ => true
  }

  // Whether repaired or not, every command leaves the buffers in good order.
  lemma StepKeepsGood(t: Buf, o: Buf, c: Command, repaired: bool)
    requires Good(t, repaired) && Good(o, repaired) && Legal(t, o, c)
    ensures var r := OnBufs(t, o, c, repaired); Good(r.0, repaired) && Good(r.1, repaired)
  {
    match c
    case Append(_, data) => AppendsAlways(t.es, data, repaired);
    case Prepend(_, data) => PrependShape(t.es, data, repaired);
    case AppendBuffer(_) => ViewConcat(t.es, o.es, repaired);
    case PrependBuffer(_) => ViewConcat(o.es, t.es, repaired);
    case Read(_, count) => ReadConserves(t.es, count, 0, repaired);
    case Drain(_, count) => DrainExact(t.es, count, repaired);
    case _ =>
  }

  // Safe or repaired, every command does to the bytes what it should.
  lemma StepRefines(t: Buf, o: Buf, c: Command, repaired: bool)
    requires Good(t, repaired) && Good(o, repaired) && Legal(t, o, c) && (repaired || Safe(t, c))
    ensures var r := OnBufs(t, o, c, repaired);
            && Good(r.0, repaired) && Good(r.1, repaired)
            && (View(r.0.es, repaired), View(r.1.es, repaired), r.2) ==
               OnBytes(View(t.es, repaired), View(o.es, repaired), c)
  {
    StepKeepsGood(t, o, c, repaired);
    match c
    case Append(_, data) => AppendsAlways(t.es, data, repaired);
    case Prepend(_, data) => if repaired { PrependRepaired(t.es, data); } else { PrependExact(t.es, |data|); }
    case AppendBuffer(_) => ViewConcat(t.es, o.es, repaired); assert View(t.es, repaired) + [] == View(t.es, repaired);
    case PrependBuffer(_) => ViewConcat(o.es, t.es, repaired); assert [] + View(t.es, repaired) == View(t.es, repaired);
    case Read(_, count) => ReadExact(t.es, count, repaired);
    case Peek(_, count) => PeekIsRead(t.es, count, 0, repaired); ReadExact(t.es, count, repaired);
    case PeekParts(_, count) => PeekExtentsExact(t.es, count, 0, repaired);
    case Drain(_, count) => DrainExact(t.es, count, repaired);
  }

  // As written an unsafe read or peek is wrong without fail: it hands out more bytes than were asked for.
  lemma UnsafeOverdelivers(t: Buf, o: Buf, c: Command)
    requires Good(t, false) && Good(o, false) && Legal(t, o, c) && !Safe(t, c) && !c.Prepend?
    ensures |OnBufs(t, o, c, false).2| > c.count
  {
    PeekIsRead(t.es, c.count, 0, false);
    ReadExact(t.es, c.count, false);
  }

  // ---- histories ----

  datatype Pair = Pair(a: Buf, b: Buf)

  ghost predicate GoodPair(p: Pair, repaired: bool) {
    Good(p.a, repaired) && Good(p.b, repaired)
  }

  function Target(p: Pair, c: Command): Buf {
    if c.at == A then p.a else p.b
  }

  function Other(p: Pair, c: Command): Buf {
    if c.at == A then p.b else p.a
  }

  ghost function Step(p: Pair, c: Command, repaired: bool): (r: (Pair, seq<Byte>))
    requires GoodPair(p, repaired) && Legal(Target(p, c), Other(p, c), c)
    ensures GoodPair(r.0, repaired)
  {
    StepKeepsGood(Target(p, c), Other(p, c), c, repaired);
    var (t, o, out) := OnBufs(Target(p, c), Other(p, c), c, repaired);
    (if c.at == A then Pair(t, o) else Pair(o, t), out)
  }

  function StepBytes(a: seq<Byte>, b: seq<Byte>, c: Command): (seq<Byte>, seq<Byte>, seq<Byte>) {
    if c.at == A then OnBytes(a, b, c) else var (t, o, out) := OnBytes(b, a, c); (o, t, out)
  }

  // Every command of the history is legal when its turn comes.
  ghost predicate LegalRun(p: Pair, cs: seq<Command>, repaired: bool)
    requires GoodPair(p, repaired)
    decreases |cs|
  {
    cs == [] || (Legal(Target(p, cs[0]), Other(p, cs[0]), cs[0]) &&
        LegalRun(Step(p, cs[0], repaired).0, cs[1..], repaired))
  }

  ghost predicate SafeRun(p: Pair, cs: seq<Command>)
    requires GoodPair(p, false) && LegalRun(p, cs, false)
    decreases |cs|
  {
    cs == [] || (Safe(Target(p, cs[0]), cs[0]) && SafeRun(Step(p, cs[0], false).0, cs[1..]))
  }

  ghost function Run(p: Pair, cs: seq<Command>, repaired: bool): (r: (Pair, seq<seq<Byte>>))
    requires GoodPair(p, repaired) && LegalRun(p, cs, repaired)
    ensures GoodPair(r.0, repaired)
    decreases |cs|
  {
    if cs == [] then (p, [])
    else
      var (p', out) := Step(p, cs[0], repaired);
      var (q, outs) := Run(p', cs[1..], repaired);
      (q, [out] + outs)
  }

  function RunBytes(a: seq<Byte>, b: seq<Byte>, cs: seq<Command>): (seq<Byte>, seq<Byte>, seq<seq<Byte>>)
    decreases |cs|
  {
    if cs == [] then (a, b, [])
    else
      var (a', b', out) := StepBytes(a, b, cs[0]);
      var (a'', b'', outs) := RunBytes(a', b', cs[1..]);
      (a'', b'', [out] + outs)
  }

  // Two buffers are two byte sequences, through any history: always once repaired, and as written as
  // long as no prepend or read is unsafe.
  lemma {:induction false} HistoryRefines(p: Pair, cs: seq<Command>, repaired: bool)
    requires GoodPair(p, repaired) && LegalRun(p, cs, repaired) && (!repaired ==> SafeRun(p, cs))
    ensures var (q, outs) := Run(p, cs, repaired);
            && (View(q.a.es, repaired), View(q.b.es, repaired), outs) ==
                RunBytes(View(p.a.es, repaired), View(p.b.es, repaired), cs)
            && q.a.size == |View(q.a.es, repaired)| && q.b.size == |View(q.b.es, repaired)|
    decreases |cs|
  {
    if cs != [] {
      StepRefines(Target(p, cs[0]), Other(p, cs[0]), cs[0], repaired);
      HistoryRefines(Step(p, cs[0], repaired).0, cs[1..], repaired);
    }
  }

  // As written, even through unsafe commands, a history without reserve keeps every extent full, so that
  // what the code reads is what has been written, and the cached size is its length.
  lemma AsWrittenStaysFull(p: Pair, cs: seq<Command>)
    requires GoodPair(p, false) && LegalRun(p, cs, false)
    ensures var q := Run(p, cs, false).0;
            && AllFull(q.a.es) && AllOk(q.a.es, true)
            && View(q.a.es, false) == View(q.a.es, true) && q.a.size == |View(q.a.es, true)|
            && AllFull(q.b.es) && AllOk(q.b.es, true)
            && View(q.b.es, false) == View(q.b.es, true) && q.b.size == |View(q.b.es, true)|
  {
    var q := Run(p, cs, false).0;
    FullViewsAgree(q.a.es);
    FullViewsAgree(q.b.es);
  }
}
