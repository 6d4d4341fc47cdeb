/**
BufferImpl of `src/buffer.cc`: a circular doubly linked list of extents around a sentinel.
Every operation is proved against the value-level function of module Extents.
*/
module BufferHeap {
  import opened Wrappers
  import opened Extents

  // memcpy
  method Store(dst: array<Byte>, at: nat, src: seq<Byte>)
    requires at + |src| <= dst.Length
    modifies dst
    ensures dst[..] == old(dst[..])[..at] + src + old(dst[..])[at + |src|..]
  {
    forall i | 0 <= i < |src| { dst[at + i] := src[i]; }
  }

  // What peek hands out: where some of the bytes are, in the buffer's own storage.
  datatype Extent = Extent(data: array<Byte>, at: nat, size: nat) {
    predicate InBounds() {
      at + size <= data.Length
    }

    function Bytes(): seq<Byte>
      requires InBounds()
      reads data
    {
      data[at..at + size]
    }
  }

  predicate AllInBounds(extents: seq<Extent>) {
    forall i :: 0 <= i < |extents| ==> extents[i].InBounds()
  }

  // What the extents handed out point at.
  function Pointed(extents: seq<Extent>): (parts: seq<seq<Byte>>)
    requires AllInBounds(extents)
    reads set i | 0 <= i < |extents| :: extents[i].data
    ensures |parts| == |extents|
  {
    if extents == [] then []
    else Pointed(extents[..|extents| - 1]) + [extents[|extents| - 1].Bytes()]
  }

  // They point at these bytes, all in the storage owned.
  ghost predicate PointAt(extents: seq<Extent>, parts: seq<seq<Byte>>, owned: set<object>)
    reads set i | 0 <= i < |extents| :: extents[i].data
  {
    && AllInBounds(extents) && Pointed(extents) == parts
    && forall i :: 0 <= i < |extents| ==> extents[i].data in owned
  }

  lemma NoExtents(owned: set<object>)
    ensures PointAt([], [], owned)
  {
  }

  lemma OneMoreExtent(extents: seq<Extent>, parts: seq<seq<Byte>>, e: Extent, owned: set<object>)
    requires PointAt(extents, parts, owned) && e.InBounds() && e.data in owned
    ensures PointAt(extents + [e], parts + [e.Bytes()], owned)
  {
    assert (extents + [e])[..|extents|] == extents;
  }

  class InternalExtent {
    const data: array<Byte>
    var readOffset: nat
    var writeOffset: nat
    var prev: InternalExtent?
    var next: InternalExtent?

    constructor (size: nat)
      ensures fresh(data) && data.Length == size
      ensures readOffset == 0 && writeOffset == 0
    {
      data := new Byte[size];
      readOffset, writeOffset := 0, 0;
      prev, next := null, null;
    }

    function Appendable(): nat
      requires writeOffset <= data.Length
      reads this
    {
      data.Length - writeOffset
    }

    // Where the code takes the data to end.
    function EndOfData(repaired: bool): nat
      reads this`writeOffset
    {
      if repaired then writeOffset else data.Length
    }

    function Readable(repaired: bool): nat
      requires Fits(repaired)
      reads this`readOffset, this`writeOffset
    {
      EndOfData(repaired) - readOffset
    }

    // The offsets lie within the storage.
    predicate Fits(repaired: bool)
      reads this`readOffset, this`writeOffset
    {
      readOffset <= EndOfData(repaired) && writeOffset <= data.Length <= MAX_OBJECT
    }

    ghost function Value(): Ext
      reads this`readOffset, this`writeOffset, data
    {
      Ext(data[..], readOffset, writeOffset)
    }

    // None: the copy would run past the end of the storage.
    method Append(buf: seq<Byte>, repaired: bool) returns (written: Option<nat>)
      requires Fits(repaired)
      modifies this`writeOffset, data
      ensures written.Some? ==> Fits(repaired)
      ensures written.Some? <==> AppendInto(old(Value()), buf, repaired).Some?
      ensures written.Some? ==> Value() == AppendInto(old(Value()), buf, repaired).value
      ensures written.Some? ==> written.value == Copied(Space(old(Value()), repaired), |buf|)
      ensures written.None? ==> Value() == old(Value())
    {
      var space := if repaired then data.Length - writeOffset else Sub(writeOffset, data.Length);
      if space == 0 {
        assert Value().bytes[..writeOffset] + buf[..0] + Value().bytes[writeOffset..] == Value().bytes;
        return Some(0);
      }
      var n := Min(space, |buf|);
      if writeOffset + n > data.Length {
        return None;
      }
      Store(data, writeOffset, buf[..n]);
      writeOffset := writeOffset + n;
      return Some(n);
    }

    method Prepend(buf: seq<Byte>, repaired: bool) returns (written: nat)
      requires Fits(repaired)
      modifies this`readOffset, data
      ensures Fits(repaired)
      ensures Value() == PrependInto(old(Value()), buf, repaired)
      ensures written == Min(old(readOffset), |buf|)
    {
      var space := readOffset;
      if space == 0 {
        assert Value().bytes[..0] + [] + Value().bytes[0..] == Value().bytes;
        return 0;
      }
      written := Min(space, |buf|);
      if repaired {
        Store(data, readOffset - written, buf[|buf| - written..]);
      } else {
        Store(data, 0, buf[..written]);
      }
      readOffset := readOffset - written;
    }

    // Where the first n readable bytes are.
    function Window(n: nat, repaired: bool): (w: Extent)
      requires Fits(repaired) && n <= Readable(repaired)
      reads this`readOffset, this`writeOffset, data
      ensures w.data == data && w.InBounds() && w.Bytes() == Part(Value(), repaired)[..n]
    {
      Extent(data, readOffset, n)
    }

    // What a copy of `size` bytes out of this extent delivers.
    method CopyOut(size: nat, repaired: bool) returns (out: seq<Byte>)
      requires Fits(repaired)
      ensures out == Part(Value(), repaired)[..Min(size, Readable(repaired))]
    {
      out := Window(Min(size, Readable(repaired)), repaired).Bytes();
    }

    method Consume(size: nat, repaired: bool) returns (left: nat)
      requires Fits(repaired) && size <= Readable(repaired)
      modifies this`readOffset
      ensures Value() == old(Value()).(ro := old(readOffset) + size) && Fits(repaired)
      ensures left == Readable(repaired)
    {
      readOffset := readOffset + size;
      left := EndOfData(repaired) - readOffset;
    }
  }

  // Neighbours in the sequence point at each other.
  ghost predicate Chain(nodes: seq<InternalExtent>)
    reads nodes`prev, nodes`next
  {
    && (forall i {:trigger nodes[i].next} :: 0 <= i < |nodes| - 1 ==> nodes[i].next == nodes[i + 1])
    && (forall i {:trigger nodes[i].prev} :: 0 < i < |nodes| ==> nodes[i].prev == nodes[i - 1])
  }

  // From the sentinel through the nodes and back to the sentinel.
  ghost predicate Linked(head: InternalExtent, nodes: seq<InternalExtent>)
    reads head`prev, head`next, nodes`prev, nodes`next
  {
    if nodes == [] then
      head.next == head && head.prev == head
    else
      var last := |nodes| - 1;
      && head.next == nodes[0] && nodes[0].prev == head
      && nodes[last].next == head && head.prev == nodes[last]
      && Chain(nodes)
  }

  // Every node and its storage have the node's own rank, so all are different.
  ghost predicate Ranked(nodes: seq<InternalExtent>, rank: map<object, int>, base: int) {
    forall i {:trigger nodes[i]} :: 0 <= i < |nodes| ==>
      nodes[i] in rank && rank[nodes[i]] == base + i && nodes[i].data in rank && rank[nodes[i].data] == base + i
  }

  // What a list owns: its nodes and their storage.
  ghost function Owned(nodes: seq<InternalExtent>): set<object> {
    (set n | n in nodes :: n as object) + (set n | n in nodes :: n.data as object)
  }

  lemma OwnedConcat(a: seq<InternalExtent>, b: seq<InternalExtent>)
    ensures Owned(a + b) == Owned(a) + Owned(b)
  {
  }

  lemma OwnedOne(n: InternalExtent)
    ensures Owned([n]) == {n, n.data}
  {
  }

  lemma OwnedNothing()
    ensures Owned([]) == {}
  {
  }

  lemma OwnedTail(nodes: seq<InternalExtent>, rank: map<object, int>, base: int)
    requires Ranked(nodes, rank, base) && nodes != []
    ensures Owned(nodes[1..]) == Owned(nodes) - {nodes[0], nodes[0].data}
  {
    var n, rest := nodes[0], nodes[1..];
    assert nodes == [n] + rest;
    OwnedConcat([n], rest);
    OwnedOne(n);
    forall m | m in rest ensures m != n && m.data != n.data {
      var i :| 0 <= i < |rest| && rest[i] == m;
      assert nodes[i + 1] == m;
    }
  }

  // The ranks of two lists put end to end: the second list's are moved by d.
  ghost function JoinRanks(ra: map<object, int>, rb: map<object, int>, d: int): (rank: map<object, int>)
    ensures rank.Keys == ra.Keys + rb.Keys
  {
    ra + map x | x in rb :: rb[x] + d
  }

  ghost predicate AllFit(nodes: seq<InternalExtent>, repaired: bool)
    reads nodes`readOffset, nodes`writeOffset
  {
    forall i :: 0 <= i < |nodes| ==> nodes[i].Fits(repaired)
  }

  ghost function Datas(nodes: seq<InternalExtent>): set<array<Byte>> {
    set n | n in nodes :: n.data
  }

  ghost function Values(nodes: seq<InternalExtent>): (es: seq<Ext>)
    reads nodes, Datas(nodes)
    ensures |es| == |nodes| && forall i :: 0 <= i < |nodes| ==> es[i] == nodes[i].Value()
  {
    seq(|nodes|, i requires 0 <= i < |nodes| reads nodes, Datas(nodes) => nodes[i].Value())
  }

  lemma SplitValues(nodes: seq<InternalExtent>, repaired: bool)
    requires nodes != []
    ensures Values(nodes)[1..] == Values(nodes[1..])
    ensures AllFit(nodes, repaired) ==> AllFit(nodes[1..], repaired)
  {
  }

  lemma ValuesConcat(a: seq<InternalExtent>, b: seq<InternalExtent>)
    ensures Values(a + b) == Values(a) + Values(b)
  {
  }

  lemma RankedConcat(a: seq<InternalExtent>, ra: map<object, int>, ba: int,
                     b: seq<InternalExtent>, rb: map<object, int>, bb: int)
    requires Ranked(a, ra, ba) && Ranked(b, rb, bb) && ra.Keys !! rb.Keys
    ensures Ranked(a + b, JoinRanks(ra, rb, ba + |a| - bb), ba)
  {
  }

  lemma AllFitOne(n: InternalExtent, repaired: bool)
    requires n.Fits(repaired)
    ensures AllFit([n], repaired) && Values([n]) == [n.Value()]
  {
  }

  lemma AllFitConcat(a: seq<InternalExtent>, b: seq<InternalExtent>, repaired: bool)
    requires AllFit(a, repaired) && AllFit(b, repaired)
    ensures AllFit(a + b, repaired)
  {
  }

  // Two chains joined end to start make a chain.
  lemma ChainConcat(a: seq<InternalExtent>, b: seq<InternalExtent>)
    requires Chain(a) && Chain(b)
    requires a != [] && b != [] ==> a[|a| - 1].next == b[0] && b[0].prev == a[|a| - 1]
    ensures Chain(a + b)
  {
  }

  method SpliceBefore(head: InternalExtent, head2: InternalExtent, tail: InternalExtent,
                      ghost nodes: seq<InternalExtent>, ghost rank: map<object, int>, ghost base: int,
                      ghost added: seq<InternalExtent>, ghost addedRank: map<object, int>, ghost addedBase: int)
    requires Linked(head, nodes) && Chain(added)
    requires added != [] && head2 == added[0] && tail == added[|added| - 1]
    requires Ranked(nodes, rank, base) && Ranked(added, addedRank, addedBase) && rank.Keys !! addedRank.Keys
    requires head !in rank && head !in addedRank
    modifies head`prev, head`next, nodes`prev, nodes`next, added`prev, added`next
    ensures Linked(head, nodes + added)
  {
    head2.prev := head.prev;
    head2.prev.next := head2;
    tail.next := head;
    tail.next.prev := tail;
    assert Chain(nodes) && Chain(added);
    ChainConcat(nodes, added);
  }

  method SpliceAfter(head: InternalExtent, head2: InternalExtent, tail: InternalExtent,
                     ghost nodes: seq<InternalExtent>, ghost rank: map<object, int>, ghost base: int,
                      ghost added: seq<InternalExtent>, ghost addedRank: map<object, int>, ghost addedBase: int)
    requires Linked(head, nodes) && Chain(added)
    requires added != [] && head2 == added[0] && tail == added[|added| - 1]
    requires Ranked(nodes, rank, base) && Ranked(added, addedRank, addedBase) && rank.Keys !! addedRank.Keys
    requires head !in rank && head !in addedRank
    modifies head`prev, head`next, nodes`prev, nodes`next, added`prev, added`next
    ensures Linked(head, added + nodes)
  {
    tail.next := head.next;
    tail.next.prev := tail;
    head2.prev := head;
    head2.prev.next := head2;
    assert Chain(nodes) && Chain(added);
    ChainConcat(added, nodes);
  }

  lemma RankedTail(nodes: seq<InternalExtent>, rank: map<object, int>, base: int)
    requires Ranked(nodes, rank, base) && nodes != []
    ensures Ranked(nodes[1..], rank - {nodes[0], nodes[0].data}, base + 1)
    ensures nodes[0] in rank && nodes[0].data in rank
    ensures forall n :: n in nodes ==> n in rank
  {
  }

  method UnlinkFirst(head: InternalExtent, cur: InternalExtent,
                     ghost nodes: seq<InternalExtent>, ghost rank: map<object, int>, ghost base: int)
    requires Linked(head, nodes) && nodes != [] && cur == nodes[0]
    requires Ranked(nodes, rank, base) && head !in rank
    modifies head`prev, head`next, nodes`prev, nodes`next
    ensures Linked(head, nodes[1..])
  {
    cur.prev.next := cur.next;
    cur.next.prev := cur.prev;
  }

  // The extents once n bytes of the first have been taken.
  function Taken(es: seq<Ext>, n: nat, repaired: bool): seq<Ext>
    requires AllOk(es, repaired) && es != [] && n <= Readable(es[0], repaired)
  {
    if n == Readable(es[0], repaired) then es[1..] else [es[0].(ro := es[0].ro + n)] + es[1..]
  }

  // Relinking leaves the values alone.
  twostate lemma ValuesKept(nodes: seq<InternalExtent>)
    requires forall n :: n in nodes ==> n.Value() == old(n.Value())
    ensures Values(nodes) == old(Values(nodes))
  {
  }

  // The first and the last node are no other nodes, and neither is their storage.
  lemma OthersApart(nodes: seq<InternalExtent>, rank: map<object, int>, base: int)
    requires Ranked(nodes, rank, base) && nodes != []
    ensures nodes[0] in rank && nodes[0].data in rank
    ensures forall i :: 0 < i < |nodes| ==> nodes[i] != nodes[0] && nodes[i].data != nodes[0].data
    ensures var last := nodes[|nodes| - 1];
            && last in rank && last.data in rank
            && forall i :: 0 <= i < |nodes| - 1 ==> nodes[i] != last && nodes[i].data != last.data
  {
  }

  // Only the last node has changed.
  twostate lemma LastChanged(nodes: seq<InternalExtent>)
    requires nodes != []
    requires forall i :: 0 <= i < |nodes| - 1 ==> nodes[i].Value() == old(nodes[i].Value())
    ensures Values(nodes) == old(Values(nodes))[..|nodes| - 1] + [nodes[|nodes| - 1].Value()]
  {
  }

  // Only the first node has changed.
  twostate lemma FirstChanged(nodes: seq<InternalExtent>)
    requires nodes != []
    requires forall i :: 0 < i < |nodes| ==> nodes[i].Value() == old(nodes[i].Value())
    ensures Values(nodes) == [nodes[0].Value()] + old(Values(nodes))[1..]
  {
  }

  lemma FitIsOk(nodes: seq<InternalExtent>, repaired: bool)
    ensures AllFit(nodes, repaired) <==> AllOk(Values(nodes), repaired)
  {
    if AllOk(Values(nodes), repaired) {
      forall i | 0 <= i < |nodes| ensures nodes[i].Fits(repaired) {
        assert Ok(Values(nodes)[i], repaired);
      }
    }
  }

  // An extent of just the right size for buf, and filled with it.
  method NewExtent(buf: seq<Byte>, repaired: bool) returns (cur: InternalExtent)
    requires |buf| <= MAX_OBJECT
    ensures fresh(cur) && fresh(cur.data) && cur.Fits(repaired) && cur.Value() == Fresh(buf)
  {
    cur := new InternalExtent(|buf|);
    var written := cur.Append(buf, repaired);
    assert buf[..|buf|] == buf && cur.data[|buf|..] == [];
  }

  lemma DrainStops(es: seq<Ext>, remain: nat, repaired: bool)
    requires AllOk(es, repaired) && (remain == 0 || es == [])
    ensures Drained(es, remain, repaired) == es && (remain > 0 ==> View(es, repaired) == [])
  {
  }

  // The read loop carried on with `out` already delivered.
  function ReadFrom(es: seq<Ext>, count: nat, out: seq<Byte>, repaired: bool): (seq<Byte>, seq<Ext>)
    requires AllOk(es, repaired)
  {
    var (more, left) := ReadLoop(es, count, |out|, repaired);
    (out + more, left)
  }

  lemma ReadStart(es: seq<Ext>, count: nat, repaired: bool)
    requires AllOk(es, repaired)
    ensures ReadFrom(es, count, [], repaired) == ReadLoop(es, count, 0, repaired)
  {
    var (more, left) := ReadLoop(es, count, 0, repaired);
    assert [] + more == more;
  }

  lemma ReadStops(es: seq<Ext>, count: nat, out: seq<Byte>, repaired: bool)
    requires AllOk(es, repaired) && (es == [] || |out| >= count)
    ensures ReadFrom(es, count, out, repaired) == (out, es)
  {
    assert out + [] == out;
  }

  // One turn of the read loop.
  lemma ReadTurn(es: seq<Ext>, count: nat, out: seq<Byte>, repaired: bool)
    requires AllOk(es, repaired) && es != [] && |out| < count
    ensures var n := Min(if repaired then count - |out| else count, Readable(es[0], repaired));
            var got := Part(es[0], repaired)[..n];
            && AllOk(Taken(es, n, repaired), repaired)
            && ReadFrom(es, count, out, repaired) ==
               if n == Readable(es[0], repaired) then ReadFrom(Taken(es, n, repaired), count, out + got, repaired)
               else (out + got, Taken(es, n, repaired))
  {
    var n := Min(if repaired then count - |out| else count, Readable(es[0], repaired));
    var got := Part(es[0], repaired)[..n];
    if n == Readable(es[0], repaired) {
      var (more, left) := ReadLoop(es[1..], count, |out| + n, repaired);
      assert out + (got + more) == (out + got) + more;
    }
  }

  // One turn of the append loop.
  lemma AppendTurn(es: seq<Ext>, buf: seq<Byte>, repaired: bool)
    requires AllOk(es, repaired)
    ensures es == [] || Appendable(es[|es| - 1]) == 0 ==> AppendTo(es, buf, repaired) == Some(es + [Fresh(buf)])
    ensures es != [] && Appendable(es[|es| - 1]) != 0 ==>
              var last, n := es[|es| - 1], Min(Appendable(es[|es| - 1]), |buf|);
              var into := AppendInto(last, buf, repaired);
              && AppendTo(es, buf, repaired).Some? == into.Some?
              && (into.Some? ==>
                    var grown := es[..|es| - 1] + [into.value];
                    && AllOk(grown, repaired)
                    && AppendTo(es, buf, repaired) ==
                       if repaired && n < |buf| then AppendTo(grown, buf[n..], repaired) else Some(grown))
  {
  }

  lemma PrependIntoOffset(e: Ext, buf: seq<Byte>, repaired: bool)
    requires Ok(e, repaired)
    ensures PrependInto(e, buf, repaired).ro == e.ro - Min(e.ro, |buf|)
  {
  }

  // One turn of the prepend loop with `remain` bytes to go.
  lemma PrependTurn(es: seq<Ext>, buf: seq<Byte>, remain: nat, repaired: bool)
    requires AllOk(es, repaired) && remain <= |buf| <= MAX_OBJECT
    ensures (es == [] || es[0].ro == 0) ==>
              PrependTo(es, buf[..remain], repaired) == [Fresh(buf[..remain])] + es
    ensures es != [] && es[0].ro > 0 ==>
              var left := remain - Min(es[0].ro, remain);
              var es' := [PrependInto(es[0], buf[..remain], repaired)] + es[1..];
              && AllOk(es', repaired)
              && PrependTo(es, buf[..remain], repaired) ==
                  if left > 0 then PrependTo(es', buf[..left], repaired) else es'
  {
    hide PrependInto, View, Exposed, Part, Fresh;
    if es != [] && es[0].ro > 0 {
      PrependIntoView(es[0], buf[..remain], repaired);
      PrependIntoOffset(es[0], buf[..remain], repaired);
      if es[0].ro < remain { assert buf[..remain][..remain - es[0].ro] == buf[..remain - es[0].ro]; }
    }
  }

  lemma SubInSteps(size: nat, n: nat, m: nat)
    requires size < TWO_64 && n + m < TWO_64
    ensures Sub(Sub(size, n), m) == Sub(size, n + m)
  {
  }

  // One turn of the drain loop.
  lemma DrainTurn(es: seq<Ext>, remain: nat, repaired: bool)
    requires AllOk(es, repaired) && es != [] && remain > 0
    ensures var n := Min(remain, Readable(es[0], repaired));
            && AllOk(Taken(es, n, repaired), repaired) && |Taken(es, n, repaired)| <= |es| &&
                (n < remain ==> |Taken(es, n, repaired)| < |es|)
            && Drained(Taken(es, n, repaired), remain - n, repaired) == Drained(es, remain, repaired)
            && n + |View(Taken(es, n, repaired), repaired)| == |View(es, repaired)|
  {
    if remain < Readable(es[0], repaired) { ViewCons(es[0].(ro := es[0].ro + remain), es[1..], repaired); }
  }

  // More than everything, drained, leaves no extent behind, not even an empty one.
  lemma {:induction false} DrainAll(es: seq<Ext>, count: nat, repaired: bool)
    requires AllOk(es, repaired) && |View(es, repaired)| < count
    ensures Drained(es, count, repaired) == []
    decreases |es|
  {
    if es != [] { DrainAll(es[1..], count - Readable(es[0], repaired), repaired); }
  }

  // One step of the peek loop.
  lemma PeekTurn(es: seq<Ext>, i: nat, count: nat, out: seq<Byte>, repaired: bool)
    requires AllOk(es, repaired) && i < |es| && |out| < count
    ensures var e, n := es[i], Min(if repaired then count - |out| else count, Readable(es[i], repaired));
            var got := Part(e, repaired)[..n];
            out + got + PeekLoop(es[i + 1..], count, |out + got|, repaired) ==
            out + PeekLoop(es[i..], count, |out|, repaired)
  {
    var e, n := es[i], Min(if repaired then count - |out| else count, Readable(es[i], repaired));
    var got := Part(e, repaired)[..n];
    assert es[i..][1..] == es[i + 1..];
    var rest := PeekLoop(es[i + 1..], count, |out| + n, repaired);
    assert out + (got + rest) == (out + got) + rest;
  }

  lemma PeekStops(es: seq<Ext>, count: nat, out: seq<Byte>, repaired: bool)
    requires AllOk(es, repaired) && (es == [] || |out| >= count)
    ensures out + PeekLoop(es, count, |out|, repaired) == out
  {
    assert out + [] == out;
  }

  // One step of the loop that peeks at extents.
  lemma PeekExtentsTurn(es: seq<Ext>, i: nat, count: nat, total: nat, parts: seq<seq<Byte>>, repaired: bool)
    requires AllOk(es, repaired) && i < |es| && total < count
    ensures var e, grant := es[i], Min(Readable(es[i], repaired), count - total);
            var more := if Readable(e, repaired) > 0 then [Part(e, repaired)[..grant]] else [];
            parts + more + PeekExtents(es[i + 1..], count, total + Readable(e, repaired), repaired) ==
            parts + PeekExtents(es[i..], count, total, repaired)
  {
    var e, grant := es[i], Min(Readable(es[i], repaired), count - total);
    var more := if Readable(e, repaired) > 0 then [Part(e, repaired)[..grant]] else [];
    assert es[i..][1..] == es[i + 1..];
    var rest := PeekExtents(es[i + 1..], count, total + Readable(e, repaired), repaired);
    assert parts + (more + rest) == (parts + more) + rest;
  }

  lemma PeekExtentsStops(es: seq<Ext>, count: nat, total: nat, repaired: bool)
    requires AllOk(es, repaired) && (es == [] || total >= count)
    ensures PeekExtents(es, count, total, repaired) == []
  {
  }

  class BufferImpl {
    const head: InternalExtent
    const repaired: bool
    var size: nat
    ghost var nodes: seq<InternalExtent>
    ghost var rank: map<object, int>
    ghost var base: int
    ghost var Repr: set<object>

    ghost predicate Valid()
      reads this, Repr
      ensures Valid() ==> this in Repr && head in Repr
    {
      && Repr == rank.Keys + {this, head}
      && this !in rank && head !in rank
      && Ranked(nodes, rank, base) && rank.Keys == Owned(nodes)
      && Linked(head, nodes)
      && AllFit(nodes, repaired)
      && size < TWO_64
    }

    ghost function Extents(): (es: seq<Ext>)
      requires Valid()
      reads this, Repr
      ensures AllOk(es, repaired) && |es| == |nodes|
    {
      Values(nodes)
    }

    constructor (repaired: bool)
      ensures Valid() && fresh(Repr) && Extents() == [] && size == 0 && this.repaired == repaired
    {
      this.repaired := repaired;
      head := new InternalExtent(0);
      size := 0;
      nodes, rank, base := [], map[], 0;
      new;
      head.prev := head;
      head.next := head;
      Repr := {this, head};
    }

    predicate ListEmpty()
      requires Valid()
      reads this, Repr
      ensures ListEmpty() <==> nodes == []
    {
      head.prev == head
    }

    // head_.next
    function First(): InternalExtent
      requires Valid() && nodes != []
      reads this, Repr
      ensures First() == nodes[0] && First().Fits(repaired) && First().Value() == Extents()[0]
    {
      head.next
    }

    // head_.prev
    function Last(): InternalExtent
      requires Valid() && nodes != []
      reads this, Repr
      ensures Last() == nodes[|nodes| - 1] && Last().Fits(repaired) && Last().Value() == Extents()[|nodes| - 1]
    {
      head.prev
    }

    // Records that the list now consists of `members`.
    ghost method Adopt(members: seq<InternalExtent>, ranks: map<object, int>, first: int)
      requires this !in ranks && head !in ranks && size < TWO_64
      requires Ranked(members, ranks, first) && ranks.Keys == Owned(members) && Linked(head, members) &&
               AllFit(members, repaired)
      modifies this`nodes, this`rank, this`base, this`Repr
      ensures Valid() && nodes == members && rank == ranks && Repr == ranks.Keys + {this, head}
    {
      hide Linked, Ranked, AllFit, Owned;
      nodes, rank, base, Repr := members, ranks, first, ranks.Keys + {this, head};
    }

    // ---- taking extents apart ----

    // Unlinks the first extent and deletes it: it and its storage are no longer among what is allocated.
    method Unlink(cur: InternalExtent)
      requires Valid() && nodes != [] && cur == nodes[0]
      modifies Repr
      ensures Valid() && {cur, cur.data} <= old(Repr) && Repr == old(Repr) - {cur, cur.data} && size == old(size)
      ensures nodes == old(nodes)[1..] && Extents() == old(Extents())[1..]
    {
      hide Linked, Owned, Ranked, AllFit, Values;
      ghost var rest := nodes[1..];
      SplitValues(nodes, repaired);
      RankedTail(nodes, rank, base);
      OwnedTail(nodes, rank, base);
      UnlinkFirst(head, cur, nodes, rank, base);
      ValuesKept(rest);
      Adopt(rest, rank - {cur, cur.data}, base + 1);
    }

    // The consuming half of one turn of the drain and read loops: takes n bytes off the first extent, and
    // unlinks the extent if that was the last of it.
    method ConsumeFront(cur: InternalExtent, n: nat) returns (left: nat)
      requires Valid() && nodes != [] && cur == nodes[0] && n <= cur.Readable(repaired)
      modifies Repr
      ensures Valid() && Repr <= old(Repr) && size == old(size)
      ensures left == Readable(old(Extents())[0], repaired) - n
      ensures Extents() == Taken(old(Extents()), n, repaired)
      ensures |nodes| == if left == 0 then |old(nodes)| - 1 else |old(nodes)|
    {
      hide Linked, Owned, Ranked, AllFit, Values;
      OthersApart(nodes, rank, base);
      assert cur == First();
      left := cur.Consume(n, repaired);
      FirstChanged(nodes);
      FitIsOk(nodes, repaired);
      if left == 0 {
        Unlink(cur);
      }
    }

    method Drain(count: nat)
      requires Valid() && count < TWO_64
      modifies Repr
      ensures Valid() && Repr == Owned(nodes) + {this, head} <= old(Repr)
      ensures Extents() == Drained(old(Extents()), count, repaired)
      ensures size == Sub(old(size), Min(count, |View(old(Extents()), repaired)|))
    {
      hide Linked, Owned, Ranked, AllFit, Values, View, Drained, Taken;
      ghost var es0 := Extents();
      var remain: nat := count;
      while remain > 0 && !ListEmpty()
        invariant Valid() && Repr <= old(Repr) && size == old(size) && remain <= count
        invariant Drained(Extents(), remain, repaired) == Drained(es0, count, repaired)
        invariant count - remain + |View(Extents(), repaired)| == |View(es0, repaired)|
        decreases |nodes|, remain
      {
        DrainTurn(Extents(), remain, repaired);
        var cur := First();
        var consume := Min(remain, cur.Readable(repaired));
        var left := ConsumeFront(cur, consume);
        remain := remain - consume;
      }
      DrainStops(Extents(), remain, repaired);
      Allocated();
      size := Sub(size, count - remain);
    }

    // ---- putting extents in ----

    // A chain of extents at the end (listAppend).
    method ListAppend(first: InternalExtent, last: InternalExtent,
                      ghost added: seq<InternalExtent>, ghost addedRank: map<object, int>, ghost addedBase: int)
      requires Valid() && added != [] && first == added[0] && last == added[|added| - 1]
      requires Chain(added) && Ranked(added, addedRank, addedBase) && addedRank.Keys == Owned(added) &&
               AllFit(added, repaired)
      requires addedRank.Keys !! Repr
      modifies this, head`prev, head`next, nodes`prev, nodes`next, added`prev, added`next
      ensures Valid() && Repr == old(Repr) + addedRank.Keys && size == old(size) && nodes == old(nodes) + added
    {
      hide Linked, Owned, Ranked, Chain, AllFit, JoinRanks;
      SpliceBefore(head, first, last, nodes, rank, base, added, addedRank, addedBase);
      AllFitConcat(nodes, added, repaired);
      RankedConcat(nodes, rank, base, added, addedRank, addedBase);
      OwnedConcat(nodes, added);
      Adopt(nodes + added, JoinRanks(rank, addedRank, base + |nodes| - addedBase), base);
    }

    // A chain of extents at the front (listPrepend).
    method ListPrepend(first: InternalExtent, last: InternalExtent,
                       ghost added: seq<InternalExtent>, ghost addedRank: map<object, int>, ghost addedBase: int)
      requires Valid() && added != [] && first == added[0] && last == added[|added| - 1]
      requires Chain(added) && Ranked(added, addedRank, addedBase) && addedRank.Keys == Owned(added) &&
               AllFit(added, repaired)
      requires addedRank.Keys !! Repr
      modifies this, head`prev, head`next, nodes`prev, nodes`next, added`prev, added`next
      ensures Valid() && Repr == old(Repr) + addedRank.Keys && size == old(size) && nodes == added + old(nodes)
    {
      hide Linked, Owned, Ranked, Chain, AllFit, JoinRanks;
      SpliceAfter(head, first, last, nodes, rank, base, added, addedRank, addedBase);
      RankedConcat(added, addedRank, addedBase, nodes, rank, base);
      OwnedConcat(added, nodes);
      AllFitConcat(added, nodes, repaired);
      Adopt(added + nodes, JoinRanks(addedRank, rank, addedBase + |added| - base), addedBase);
    }

    // The same, and what it does to the values.
    method AttachLast(first: InternalExtent, last: InternalExtent,
                      ghost added: seq<InternalExtent>, ghost addedRank: map<object, int>, ghost addedBase: int)
      requires Valid() && added != [] && first == added[0] && last == added[|added| - 1]
      requires Chain(added) && Ranked(added, addedRank, addedBase) && addedRank.Keys == Owned(added) &&
               AllFit(added, repaired)
      requires addedRank.Keys !! Repr
      modifies this, head`prev, head`next, nodes`prev, nodes`next, added`prev, added`next
      ensures Valid() && Repr == old(Repr) + addedRank.Keys && size == old(size)
      ensures Extents() == old(Extents()) + old(Values(added))
    {
      hide Linked, Owned, Ranked, Chain, AllFit, JoinRanks, Values;
      ListAppend(first, last, added, addedRank, addedBase);
      ValuesKept(old(nodes));
      ValuesKept(added);
      ValuesConcat(old(nodes), added);
    }

    method AttachFirst(first: InternalExtent, last: InternalExtent,
                       ghost added: seq<InternalExtent>, ghost addedRank: map<object, int>, ghost addedBase: int)
      requires Valid() && added != [] && first == added[0] && last == added[|added| - 1]
      requires Chain(added) && Ranked(added, addedRank, addedBase) && addedRank.Keys == Owned(added) &&
               AllFit(added, repaired)
      requires addedRank.Keys !! Repr
      modifies this, head`prev, head`next, nodes`prev, nodes`next, added`prev, added`next
      ensures Valid() && Repr == old(Repr) + addedRank.Keys && size == old(size)
      ensures Extents() == old(Values(added)) + old(Extents())
    {
      hide Linked, Owned, Ranked, Chain, AllFit, JoinRanks, Values;
      ListPrepend(first, last, added, addedRank, addedBase);
      ValuesKept(old(nodes));
      ValuesKept(added);
      ValuesConcat(added, old(nodes));
    }

    // A new extent at the end, filled with all of buf.
    method AppendExtent(buf: seq<Byte>)
      requires Valid() && |buf| <= MAX_OBJECT
      modifies Repr
      ensures Valid() && fresh(Repr - old(Repr)) && size == old(size)
      ensures Extents() == old(Extents()) + [Fresh(buf)]
    {
      hide Linked, Owned, AllFit;
      var cur := NewExtent(buf, repaired);
      AllFitOne(cur, repaired);
      OwnedOne(cur);
      AttachLast(cur, cur, [cur], map[cur := 0, cur.data := 0], 0);
    }

    method PrependExtent(buf: seq<Byte>)
      requires Valid() && |buf| <= MAX_OBJECT
      modifies Repr
      ensures Valid() && fresh(Repr - old(Repr)) && size == old(size)
      ensures Extents() == [Fresh(buf)] + old(Extents())
    {
      hide Linked, Owned, AllFit;
      var cur := NewExtent(buf, repaired);
      AllFitOne(cur, repaired);
      OwnedOne(cur);
      AttachFirst(cur, cur, [cur], map[cur := 0, cur.data := 0], 0);
    }

    // ---- the operations of Buffer ----

    // append(const char*, size_t).  False: the copy would run past the end of the last extent.  As it
    // stands the loop's guard cannot hold, and it is left after one turn.
    method Append(buf: seq<Byte>) returns (ok: bool)
      requires Valid() && |buf| <= MAX_OBJECT
      modifies Repr
      ensures Valid() && fresh(Repr - old(Repr))
      ensures ok <==> AppendTo(old(Extents()), buf, repaired).Some?
      ensures ok ==> Extents() == AppendTo(old(Extents()), buf, repaired).value && size == Add(old(size), |buf|)
      ensures !ok ==> Extents() == old(Extents()) && size == old(size)
    {
      hide Linked, Owned, Ranked, AllFit, Values, AppendTo;
      ghost var es := Extents();
      var written: nat := 0;
      var more := true;
      assert buf[0..] == buf;
      while more
        invariant Valid() && fresh(Repr - old(Repr)) && size == old(size) && written <= |buf|
        invariant more ==> AppendTo(Extents(), buf[written..], repaired) == AppendTo(es, buf, repaired)
        invariant more && written == 0 ==> Extents() == es
        invariant more && written > 0 ==> AppendTo(es, buf, repaired).Some?
        invariant !more ==> AppendTo(es, buf, repaired) == Some(Extents())
        decreases |buf| - written, more
      {
        var n;
        ok, n := AppendOnce(buf[written..]);
        if !ok {
          return;
        }
        assert buf[written..][n..] == buf[written + n..];
        written := written + n;
        more := repaired && written < |buf|;
      }
      size := Add(size, |buf|);
      return true;
    }

    // One turn of the loop.
    method AppendOnce(rest: seq<Byte>) returns (ok: bool, n: nat)
      requires Valid() && |rest| <= MAX_OBJECT
      modifies Repr
      ensures Valid() && fresh(Repr - old(Repr)) && size == old(size) && n <= |rest| && (ok && rest != [] ==> n > 0)
      ensures ok == AppendTo(old(Extents()), rest, repaired).Some?
      ensures ok ==>
                AppendTo(old(Extents()), rest, repaired) ==
                if repaired && n < |rest| then AppendTo(Extents(), rest[n..], repaired) else Some(Extents())
      ensures !ok ==> Extents() == old(Extents())
    {
      hide Valid, Extents, AppendInto, AppendTo, Fresh;
      AppendTurn(Extents(), rest, repaired);
      if ListEmpty() || Last().Appendable() == 0 {
        AppendExtent(rest);
        ok, n := true, |rest|;
      } else {
        var cur := Last();
        n := Min(cur.Appendable(), |rest|);
        ok := AppendInLast(cur, rest);
      }
    }

    method AppendInLast(cur: InternalExtent, buf: seq<Byte>) returns (ok: bool)
      requires Valid() && nodes != [] && cur == nodes[|nodes| - 1]
      modifies Repr
      ensures Valid() && Repr == old(Repr) && size == old(size)
      ensures var es := old(Extents()); var grown := AppendInto(es[|es| - 1], buf, repaired);
              ok == grown.Some? && Extents() == if grown.Some? then es[..|es| - 1] + [grown.value] else es
    {
      hide Linked, Owned, Ranked, AllFit, Values, AppendInto;
      OthersApart(nodes, rank, base);
      assert cur == Last();
      var written := cur.Append(buf, repaired);
      LastChanged(nodes);
      FitIsOk(nodes, repaired);
      ok := written.Some?;
    }

    // append(Buffer*)
    method AppendBuffer(o: BufferImpl)
      requires Valid() && o.Valid() && Repr !! o.Repr && o.repaired == repaired
      modifies Repr, o.Repr
      ensures Valid() && o.Valid() && Repr !! o.Repr && Repr + o.Repr == old(Repr) + old(o.Repr)
      ensures Extents() == old(Extents()) + old(o.Extents()) && o.Extents() == []
      ensures old(o.Extents()) != [] ==> size == Add(old(size), old(o.size)) && o.size == 0
      ensures old(o.Extents()) == [] ==> size == old(size) && o.size == old(o.size)
    {
      hide Linked, Owned, Ranked, Chain, AllFit, Values;
      if o.ListEmpty() {
        assert Extents() + o.Extents() == Extents();
        return;
      }
      o.Members();
      TakeLast(o);
      assert Repr !! {o, o.head};
      size := Add(size, o.size);
      assert Valid();
      Members();
      o.Reset();
    }

    // prepend(Buffer*)
    method PrependBuffer(o: BufferImpl)
      requires Valid() && o.Valid() && Repr !! o.Repr && o.repaired == repaired
      modifies Repr, o.Repr
      ensures Valid() && o.Valid() && Repr !! o.Repr && Repr + o.Repr == old(Repr) + old(o.Repr)
      ensures Extents() == old(o.Extents()) + old(Extents()) && o.Extents() == []
      ensures old(o.Extents()) != [] ==> size == Add(old(size), old(o.size)) && o.size == 0
      ensures old(o.Extents()) == [] ==> size == old(size) && o.size == old(o.size)
    {
      hide Linked, Owned, Ranked, Chain, AllFit, Values;
      if o.ListEmpty() {
        assert o.Extents() + Extents() == Extents();
        return;
      }
      o.Members();
      TakeFirst(o);
      assert Repr !! {o, o.head};
      size := Add(size, o.size);
      Members();
      o.Reset();
    }

    // The splices of append(Buffer*) and prepend(Buffer*): o's extents are this buffer's as well until o forgets them.
    method TakeLast(o: BufferImpl)
      requires Valid() && o.Valid() && Repr !! o.Repr && o.nodes != [] && o.repaired == repaired
      modifies Repr, o.rank.Keys
      ensures Valid() && Repr == old(Repr) + o.rank.Keys && size == old(size)
      ensures Extents() == old(Extents()) + old(o.Extents())
    {
      hide Linked, Owned, Ranked, Chain, AllFit, Values;
      Members();
      o.Members();
      AttachLast(o.First(), o.Last(), o.nodes, o.rank, o.base);
    }

    method TakeFirst(o: BufferImpl)
      requires Valid() && o.Valid() && Repr !! o.Repr && o.nodes != [] && o.repaired == repaired
      modifies Repr, o.rank.Keys
      ensures Valid() && Repr == old(Repr) + o.rank.Keys && size == old(size)
      ensures Extents() == old(o.Extents()) + old(Extents())
    {
      hide Linked, Owned, Ranked, Chain, AllFit, Values;
      Members();
      o.Members();
      AttachFirst(o.First(), o.Last(), o.nodes, o.rank, o.base);
    }

    // What Valid says about the list as a chain that can be spliced elsewhere.
    lemma Members()
      requires Valid()
      ensures Chain(nodes) && Ranked(nodes, rank, base) && AllFit(nodes, repaired)
      ensures forall n :: n in nodes ==> n in rank
      ensures Repr == rank.Keys + {this, head} && this !in rank && head !in rank && rank.Keys == Owned(nodes)
    {
    }

    // Forgets the extents without freeing them.
    method Reset()
      modifies this, head`prev, head`next
      ensures Valid() && Repr == {this, head} && Extents() == [] && size == 0
    {
      head.prev := head;
      head.next := head;
      size := 0;
      Adopt([], map[], 0);
    }

    // prepend(const char*, size_t)
    method Prepend(buf: seq<Byte>)
      requires Valid() && |buf| <= MAX_OBJECT
      modifies Repr
      ensures Valid() && fresh(Repr - old(Repr))
      ensures Extents() == PrependTo(old(Extents()), buf, repaired)
      ensures size == Add(old(size), |buf|)
    {
      hide Linked, Owned, Ranked, AllFit, Values, PrependTo, PrependInto;
      ghost var es := Extents();
      var remain: nat := |buf|;
      var more := true;
      assert buf[..remain] == buf;
      while more
        invariant Valid() && fresh(Repr - old(Repr)) && size == old(size) && remain <= |buf|
        invariant more ==> PrependTo(Extents(), buf[..remain], repaired) == PrependTo(es, buf, repaired)
        invariant !more ==> Extents() == PrependTo(es, buf, repaired)
        decreases remain, more
      {
        PrependTurn(Extents(), buf, remain, repaired);
        if ListEmpty() || First().readOffset == 0 {
          PrependExtent(buf[..remain]);
          remain := 0;
        } else {
          var written := PrependInFirst(First(), buf[..remain]);
          remain := remain - written;
        }
        more := remain > 0;
      }
      size := Add(size, |buf|);
    }

    method PrependInFirst(cur: InternalExtent, buf: seq<Byte>) returns (written: nat)
      requires Valid() && nodes != [] && cur == nodes[0]
      modifies Repr
      ensures Valid() && Repr == old(Repr) && size == old(size)
      ensures written == Min(old(Extents())[0].ro, |buf|)
      ensures Extents() == [PrependInto(old(Extents())[0], buf, repaired)] + old(Extents())[1..]
    {
      hide Linked, Owned, Ranked, AllFit, Values, PrependInto;
      OthersApart(nodes, rank, base);
      assert cur == First();
      written := cur.Prepend(buf, repaired);
      FirstChanged(nodes);
      FitIsOk(nodes, repaired);
    }

    // One turn of the read loop: copies out up to `size` bytes of the first extent and consumes them.
    method ReadFront(cur: InternalExtent, want: nat) returns (got: seq<Byte>, left: nat)
      requires Valid() && nodes != [] && cur == nodes[0]
      modifies Repr
      ensures var e, n := old(Extents())[0], Min(want, Readable(old(Extents())[0], repaired));
              && got == Part(e, repaired)[..n] && |got| == n && left == Readable(e, repaired) - n
              && Valid() && Repr <= old(Repr) && size == Sub(old(size), n)
              && Extents() == Taken(old(Extents()), n, repaired)
              && |nodes| == if left == 0 then |old(nodes)| - 1 else |old(nodes)|
    {
      hide Linked, Owned, Ranked, AllFit, Taken;
      ghost var es := Extents();
      got := cur.CopyOut(want, repaired);
      size := Sub(size, |got|);
      assert Extents() == es;
      left := ConsumeFront(cur, |got|);
    }

    // What is allocated for the buffer is what is in the list, and the buffer itself.
    lemma Allocated()
      requires Valid()
      ensures Repr == Owned(nodes) + {this, head}
    {
    }

    // read(buf, size, nread): `out` is what is stored from buf on, and |out| is *nread.
    method Read(count: nat) returns (out: seq<Byte>)
      requires Valid() && count < TWO_64
      modifies Repr
      ensures Valid() && Repr == Owned(nodes) + {this, head} <= old(Repr)
      ensures (out, Extents()) == ReadLoop(old(Extents()), count, 0, repaired)
      ensures |out| < TWO_64 ==> size == Sub(old(size), |out|)
    {
      hide Linked, Owned, Ranked, AllFit, Values, ReadLoop, ReadFrom, Taken, Readable;
      ghost var es := Extents();
      out := [];
      var more := true;
      ReadStart(es, count, repaired);
      while more && !ListEmpty() && |out| < count
        invariant Valid() && Repr <= old(Repr)
        invariant |out| < TWO_64 ==> size == Sub(old(size), |out|)
        invariant more ==> ReadFrom(Extents(), count, out, repaired) == ReadLoop(es, count, 0, repaired)
        invariant !more ==> (out, Extents()) == ReadLoop(es, count, 0, repaired)
        decreases |nodes|, more
      {
        ReadTurn(Extents(), count, out, repaired);
        var got, left := ReadFront(First(), if repaired then count - |out| else count);
        if |out| + |got| < TWO_64 { SubInSteps(old(size), |out|, |got|); }
        out := out + got;
        more := left == 0;
      }
      if more {
        ReadStops(Extents(), count, out, repaired);
      }
      Allocated();
    }

    // read(buf, size, nread) with the caller's array, in which buf is at `at`.  Overrun: what is read goes past
    // the array's end.  A caller who gives exactly the room asked for is overrun exactly when an extent is cut.
    method ReadInto(buf: array<Byte>, at: nat, count: nat) returns (nread: nat, overrun: bool)
      requires Valid() && buf !in Repr && at + count <= buf.Length < TWO_64
      modifies Repr, buf
      ensures Valid() && buf !in Repr && Repr <= old(Repr)
      ensures var (out, left) := ReadLoop(old(Extents()), count, 0, repaired);
              && Extents() == left && nread == |out| && (overrun <==> at + nread > buf.Length)
              && (!overrun ==> buf[..] == old(buf[..])[..at] + out + old(buf[..])[at + nread..])
      ensures overrun ==> !repaired && !CutsCleanly(old(Extents()), count, 0)
      ensures at + count == buf.Length ==> (overrun <==> !repaired && !CutsCleanly(old(Extents()), count, 0))
    {
      hide Valid, Extents, View, ReadLoop, CutsCleanly, AllOk, Owned;
      ReadExact(Extents(), count, repaired);
      var out := Read(count);
      nread := |out|;
      overrun := at + nread > buf.Length;
      if !overrun {
        Store(buf, at, out);
      }
    }

    // Where a walk along the next pointers is after i extents; the sentinel ends it.
    ghost function At(i: nat): InternalExtent
      requires i <= |nodes|
      reads this
    {
      if i < |nodes| then nodes[i] else head
    }

    lemma Walk(i: nat)
      requires Valid() && i <= |nodes|
      ensures At(0) == head.next
      ensures i < |nodes| <==> At(i) != head
      ensures i < |nodes| ==> At(i).next == At(i + 1) && At(i).Fits(repaired) && At(i).Value() == Extents()[i]
                              && At(i).data in Repr
    {
    }

    // peek(buf, size, nread)
    method Peek(count: nat) returns (out: seq<Byte>)
      requires Valid() && count < TWO_64
      ensures out == PeekLoop(Extents(), count, 0, repaired)
    {
      hide Valid, Owned, Linked, Ranked, AllFit, Values, PeekLoop;
      ghost var es, i := Extents(), 0;
      var cur := head.next;
      out := [];
      Walk(0);
      assert es[0..] == es;
      while cur != head && |out| < count
        invariant i <= |nodes| && cur == At(i)
        invariant out + PeekLoop(es[i..], count, |out|, repaired) == PeekLoop(es, count, 0, repaired)
        decreases |nodes| - i
      {
        Walk(i);
        PeekTurn(es, i, count, out, repaired);
        var got := cur.CopyOut(if repaired then count - |out| else count, repaired);
        cur := cur.next;
        out, i := out + got, i + 1;
      }
      Walk(i);
      PeekStops(es[i..], count, out, repaired);
    }

    // peek(size, extents): what is handed out points into storage that the buffer keeps allocated.
    method PeekParts(count: nat) returns (extents: seq<Extent>)
      requires Valid() && count < TWO_64
      ensures PointAt(extents, PeekExtents(Extents(), count, 0, repaired), Repr)
    {
      hide PointAt, Extent.Bytes, Extent.InBounds, Part, Valid, Owned, Linked, Ranked, AllFit, Values, PeekExtents;
      ghost var es, i := Extents(), 0;
      var cur := head.next;
      var total: nat := 0;
      extents := [];
      ghost var parts := [];
      NoExtents(Repr);
      Walk(0);
      assert es[0..] == es && parts + PeekExtents(es, count, 0, repaired) == PeekExtents(es, count, 0, repaired);
      while cur != head && total < count
        invariant i <= |nodes| && cur == At(i)
        invariant parts + PeekExtents(es[i..], count, total, repaired) == PeekExtents(es, count, 0, repaired)
        invariant PointAt(extents, parts, Repr)
        decreases |nodes| - i
      {
        Walk(i);
        PeekExtentsTurn(es, i, count, total, parts, repaired);
        var avail := cur.Readable(repaired);
        if avail > 0 {
          var grant := Min(avail, count - total);
          var e := cur.Window(grant, repaired);
          OneMoreExtent(extents, parts, e, Repr);
          extents, parts := extents + [e], parts + [e.Bytes()];
        }
        total := total + avail;
        cur := cur.next;
        i := i + 1;
      }
      Walk(i);
      PeekExtentsStops(es[i..], count, total, repaired);
      assert parts + [] == parts;
    }

    // reserve(size).  False: the allocation fails.  `junk` is what the new storage holds.
    method Reserve(amount: nat) returns (ok: bool, ghost junk: seq<Byte>)
      requires Valid() && amount < TWO_64
      modifies Repr
      ensures Valid() && fresh(Repr - old(Repr)) && size == old(size)
      ensures ok <==> if Slack(old(Extents())) > amount then repaired
                      else amount - Slack(old(Extents())) <= 0x7fff_ffff_ffff_ffff
      ensures ok ==> ReserveTo(old(Extents()), amount, junk, repaired) == Some(Extents())
                     && |junk| == if Slack(old(Extents())) < amount then amount - Slack(old(Extents())) else 0
      ensures ok ==> if Slack(old(Extents())) >= amount then Extents() == old(Extents())
                     else |nodes| == |old(nodes)| + 1 && Slack(old(Extents())) + Slack(Extents()) == amount
      ensures !ok ==> Extents() == old(Extents())
    {
      hide Linked, Owned, Ranked, AllFit, Values;
      ghost var es := Extents();
      var required := amount;
      if !ListEmpty() {
        var slack := Last().Appendable();
        required := if repaired && required < slack then 0 else Sub(required, slack);
      }
      junk := [];
      if required > MAX_OBJECT {
        return false, junk;
      }
      if required > 0 {
        junk := AppendReserved(required);
      }
      ReserveMakesRoom(es, amount, junk, repaired);
      ok := true;
    }

    method AppendReserved(required: nat) returns (ghost junk: seq<Byte>)
      requires Valid() && required <= MAX_OBJECT
      modifies Repr
      ensures Valid() && fresh(Repr - old(Repr)) && size == old(size)
      ensures |junk| == required && Extents() == old(Extents()) + [Ext(junk, 0, 0)]
    {
      hide Linked, Owned, AllFit;
      var cur := new InternalExtent(required);
      junk := cur.data[..];
      AllFitOne(cur, repaired);
      OwnedOne(cur);
      AttachLast(cur, cur, [cur], map[cur := 0, cur.data := 0], 0);
    }

    // The destructor: no extent stays behind as long as the buffer holds fewer than 2^64 - 1 bytes.
    method Destroy()
      requires Valid()
      modifies Repr
      ensures Valid() && (|View(old(Extents()), repaired)| < TWO_64 - 1 ==> nodes == [] && Repr == {this, head})
    {
      hide Linked, Owned, Ranked, AllFit, Values, View, Drained;
      ghost var es := Extents();
      Drain(TWO_64 - 1);
      if |View(es, repaired)| < TWO_64 - 1 {
        DrainAll(es, TWO_64 - 1, repaired);
        OwnedNothing();
      }
    }
  }
}
