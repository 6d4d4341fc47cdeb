/**
The extents of a buffer as values: what each operation of `src/buffer.cc` does to the list of
extents, and what that means for the bytes the buffer holds.

Where the code departs from its own interface (src/wte/buffer.h) the function takes `repaired`:
false is the code as it stands, true is the code with those lines put right.
*/
module Extents {
  import opened Wrappers

  newtype Byte = b: int | 0 <= b < 256

  const TWO_64: nat := 0x1_0000_0000_0000_0000
  // No C++ object is larger than this, so no caller can hand over more bytes, and no new[] can succeed.
  const MAX_OBJECT: nat := 0x7fff_ffff_ffff_ffff

  // Storage with a read and a write offset.
  datatype Ext = Ext(bytes: seq<Byte>, ro: nat, wo: nat)

  // Subtraction in size_t.
  function Sub(a: nat, b: nat): (d: nat)
    requires a < TWO_64 && b < TWO_64
    ensures d == (a - b) % TWO_64
  {
    if b <= a then a - b else TWO_64 - (b - a)
  }

  function Add(a: nat, b: nat): (s: nat)
    requires a < TWO_64 && b < TWO_64
    ensures s == (a + b) % TWO_64
  {
    if a + b < TWO_64 then a + b else a + b - TWO_64
  }

  function Min(a: nat, b: nat): nat {
    if a <= b then a else b
  }

  // Where readable data are taken to end: as it stands at the end of the storage, not at the write offset.
  function End(e: Ext, repaired: bool): nat {
    if repaired then e.wo else |e.bytes|
  }

  predicate Ok(e: Ext, repaired: bool) {
    e.ro <= End(e, repaired) && e.wo <= |e.bytes| <= MAX_OBJECT
  }

  ghost predicate AllOk(es: seq<Ext>, repaired: bool) {
    forall i :: 0 <= i < |es| ==> Ok(es[i], repaired)
  }

  // An extent without room at the end.
  predicate Full(e: Ext) {
    Ok(e, true) && e.wo == |e.bytes|
  }

  ghost predicate AllFull(es: seq<Ext>) {
    forall i :: 0 <= i < |es| ==> Full(es[i])
  }

  function Appendable(e: Ext): nat
    requires e.wo <= |e.bytes|
  {
    |e.bytes| - e.wo
  }

  // The room at the end, where append puts data.
  function Slack(es: seq<Ext>): nat
    requires es != [] ==> es[|es| - 1].wo <= |es[|es| - 1].bytes|
  {
    if es == [] then 0 else Appendable(es[|es| - 1])
  }

  function Readable(e: Ext, repaired: bool): nat
    requires Ok(e, repaired)
  {
    End(e, repaired) - e.ro
  }

  // The readable bytes.
  function Part(e: Ext, repaired: bool): (part: seq<Byte>)
    requires Ok(e, repaired)
    ensures |part| == Readable(e, repaired)
  {
    e.bytes[e.ro..End(e, repaired)]
  }

  // ---- what a list of extents holds ----

  // What the code treats as the contents.
  function View(es: seq<Ext>, repaired: bool): seq<Byte>
    requires AllOk(es, repaired)
  {
    if es == [] then [] else Part(es[0], repaired) + View(es[1..], repaired)
  }

  lemma Regroup(a: seq<Byte>, b: seq<Byte>, c: seq<Byte>)
    ensures (a + b) + c == a + (b + c)
  {
  }

  lemma ViewCons(e: Ext, es: seq<Ext>, repaired: bool)
    requires Ok(e, repaired) && AllOk(es, repaired)
    ensures AllOk([e] + es, repaired) && View([e] + es, repaired) == Part(e, repaired) + View(es, repaired)
  {
    assert ([e] + es)[1..] == es;
  }

  lemma {:induction false} ViewConcat(a: seq<Ext>, b: seq<Ext>, repaired: bool)
    requires AllOk(a, repaired) && AllOk(b, repaired)
    ensures View(a + b, repaired) == View(a, repaired) + View(b, repaired)
  {
    if a == [] {
      assert a + b == b;
    } else {
      assert (a + b)[1..] == a[1..] + b;
      hide Ok, Part;
      ViewConcat(a[1..], b, repaired);
    }
  }

  // As long as every extent is full the repaired code and the code as it stands see the same bytes.
  lemma {:induction false} FullViewsAgree(es: seq<Ext>)
    requires AllFull(es)
    ensures AllOk(es, false) && AllOk(es, true) && View(es, false) == View(es, true)
  {
    if es != [] { FullViewsAgree(es[1..]); }
  }

  lemma {:induction false} ViewLengths(es: seq<Ext>)
    requires AllOk(es, true)
    ensures AllOk(es, false) && |View(es, true)| <= |View(es, false)|
    ensures |View(es, true)| == |View(es, false)| ==> AllFull(es)
  {
    if es != [] {
      ViewLengths(es[1..]);
      forall i | 0 <= i < |es| && |View(es, true)| == |View(es, false)| ensures Full(es[i]) {
        assert i > 0 ==> Full(es[1..][i - 1]);
      }
    }
  }

  // With the read offsets where the repaired code keeps them, the code as it stands reads what it should
  // exactly if every extent is full.
  lemma ViewsAgreeExactly(es: seq<Ext>)
    requires AllOk(es, true)
    ensures AllOk(es, false)
    ensures View(es, false) == View(es, true) <==> AllFull(es)
  {
    ViewLengths(es);
    if AllFull(es) { FullViewsAgree(es); }
  }

  // ---- append ----

  // The room InternalExtent::append reckons with: as it stands `write_offset - extent.size`, in size_t.
  function Space(e: Ext, repaired: bool): nat
    requires Ok(e, repaired)
  {
    if repaired then Appendable(e) else Sub(e.wo, |e.bytes|)
  }

  // How many bytes InternalExtent::append copies.
  function Copied(space: nat, n: nat): nat {
    if space == 0 then 0 else Min(space, n)
  }

  // The subtraction is the wrong way round.  On the fresh extent of size n that append builds for n
  // bytes that is harmless exactly up to 2^63 bytes.
  lemma FreshAppendExact(n: nat)
    requires 0 < n < TWO_64
    ensures Copied(Sub(0, n), n) == n <==> n <= 0x8000_0000_0000_0000
  {
  }

  lemma SpaceIs(e: Ext)
    requires Ok(e, false)
    ensures Space(e, false) == if Appendable(e) == 0 then 0 else TWO_64 - Appendable(e)
  {
  }

  function Fresh(data: seq<Byte>): Ext {
    Ext(data, 0, |data|)
  }

  // BufferImpl::append.  None: the copy runs past the end of the last extent.  As it stands the loop
  // cannot repeat; repaired, what does not fit goes to an extent of its own.
  function AppendTo(es: seq<Ext>, data: seq<Byte>, repaired: bool): Option<seq<Ext>>
    requires AllOk(es, repaired)
  {
    if es == [] || Appendable(es[|es| - 1]) == 0 then
      Some(es + [Fresh(data)])
    else
      var n := Min(Appendable(es[|es| - 1]), |data|);
      match AppendInto(es[|es| - 1], data, repaired)
      case None => None
      case Some(e) =>
        var grown := es[..|es| - 1] + [e];
        Some(if repaired && n < |data| then grown + [Fresh(data[n..])] else grown)
  }

  // InternalExtent::append.
  function AppendInto(e: Ext, data: seq<Byte>, repaired: bool): Option<Ext>
    requires Ok(e, repaired)
  {
    var n := Copied(Space(e, repaired), |data|);
    if e.wo + n > |e.bytes| then None
    else Some(Ext(e.bytes[..e.wo] + data[..n] + e.bytes[e.wo + n..], e.ro, e.wo + n))
  }

  // What InternalExtent::append amounts to when the data fit.
  function Grown(e: Ext, data: seq<Byte>): Ext
    requires e.wo <= |e.bytes| && |data| <= Appendable(e)
  {
    Ext(e.bytes[..e.wo] + data + e.bytes[e.wo + |data|..], e.ro, e.wo + |data|)
  }

  lemma AppendFresh(es: seq<Ext>, data: seq<Byte>, repaired: bool)
    requires AllOk(es, repaired) && |data| <= MAX_OBJECT
    ensures AllOk(es + [Fresh(data)], repaired) && View(es + [Fresh(data)], repaired) == View(es, repaired) + data
    ensures es == [] || Appendable(es[|es| - 1]) == 0 ==> AppendTo(es, data, repaired) == Some(es + [Fresh(data)])
  {
    assert View([Fresh(data)], repaired) == data + [] == data;
    ViewConcat(es, [Fresh(data)], repaired);
  }

  lemma GrownPart(e: Ext, data: seq<Byte>, repaired: bool)
    requires Ok(e, repaired) && |data| <= Appendable(e)
    ensures Ok(Grown(e, data), repaired)
    ensures repaired ==> Part(Grown(e, data), true) == Part(e, true) + data
    ensures !repaired ==> |Part(Grown(e, data), false)| == |Part(e, false)|
  {
  }

  lemma GrownView(init: seq<Ext>, e: Ext, data: seq<Byte>, repaired: bool)
    requires AllOk(init, repaired) && Ok(e, repaired) && |data| <= Appendable(e)
    ensures AllOk(init + [Grown(e, data)], repaired)
    ensures repaired ==> View(init + [Grown(e, data)], true) == View(init + [e], true) + data
    ensures !repaired ==> |View(init + [Grown(e, data)], false)| == |View(init + [e], false)|
  {
    hide View, Part, Grown;
    var e' := Grown(e, data);
    GrownPart(e, data, repaired);
    ViewConcat(init, [e], repaired);
    ViewConcat(init, [e'], repaired);
    ViewOne(e, repaired);
    ViewOne(e', repaired);
    if repaired { Regroup(View(init, true), Part(e, true), data); }
  }

  lemma ViewOne(e: Ext, repaired: bool)
    requires Ok(e, repaired)
    ensures View([e], repaired) == Part(e, repaired)
  {
    assert [e][1..] == [] && Part(e, repaired) + [] == Part(e, repaired);
  }

  // As it stands, append with slack at the end works only for no data at all; repaired it fills the slack
  // and puts the rest into an extent of its own.
  lemma AppendInSlack(es: seq<Ext>, data: seq<Byte>, repaired: bool)
    requires AllOk(es, repaired) && es != [] && 0 < Appendable(es[|es| - 1]) && |data| <= MAX_OBJECT
    ensures !repaired ==>
              AppendTo(es, data, false) ==
              if |data| <= Appendable(es[|es| - 1]) then Some(es[..|es| - 1] + [Grown(es[|es| - 1], data)]) else None
    ensures repaired ==>
              var n := Min(Appendable(es[|es| - 1]), |data|);
              var grown := es[..|es| - 1] + [Grown(es[|es| - 1], data[..n])];
              AppendTo(es, data, true) == Some(if n < |data| then grown + [Fresh(data[n..])] else grown)
  {
    assert data[..|data|] == data;
    if !repaired { SpaceIs(es[|es| - 1]); }
  }

  // No slack left by an earlier reserve, or nothing to append.
  predicate AppendSafe(es: seq<Ext>, n: nat)
    requires AllOk(es, false)
  {
    es == [] || Appendable(es[|es| - 1]) == 0 || n == 0
  }

  // Repaired, append turns the view into view + data for every mix of slack and overflow.  As it stands it
  // does so exactly under that condition.
  lemma AppendExact(es: seq<Ext>, data: seq<Byte>, repaired: bool)
    requires AllOk(es, repaired) && |data| <= MAX_OBJECT
    ensures repaired || AppendSafe(es, |data|) <==>
            && AppendTo(es, data, repaired).Some? && AllOk(AppendTo(es, data, repaired).value, repaired)
            && View(AppendTo(es, data, repaired).value, repaired) == View(es, repaired) + data
  {
    hide View, AppendInto, AppendTo, Grown;
    if es == [] || Appendable(es[|es| - 1]) == 0 {
      AppendFresh(es, data, repaired);
    } else {
      var init, last := es[..|es| - 1], es[|es| - 1];
      assert es == init + [last];
      AppendInSlack(es, data, repaired);
      if repaired {
        var n := Min(Appendable(last), |data|);
        GrownView(init, last, data[..n], true);
        AppendFresh(init + [Grown(last, data[..n])], data[n..], true);
        Regroup(View(es, true), data[..n], data[n..]);
        assert data[..n] + data[n..] == data;
        assert n == |data| ==> data[..n] == data;
      } else if |data| <= Appendable(last) {
        GrownView(init, last, data, false);
        GrownByNothing(last, data);
        assert |data| == 0 ==> View(es, false) + data == View(es, false);
      }
    }
  }

  lemma GrownByNothing(e: Ext, data: seq<Byte>)
    requires e.wo <= |e.bytes| && |data| <= Appendable(e)
    ensures data == [] ==> Grown(e, data) == e
  {
    if data == [] { assert e.bytes[..e.wo] + data + e.bytes[e.wo..] == e.bytes; }
  }

  // What append allocates, repaired: nothing if the data fit the slack, and otherwise one extent, of just the
  // size of what does not fit, behind a last extent that is then full.
  lemma AppendAllocates(es: seq<Ext>, data: seq<Byte>)
    requires AllOk(es, true) && |data| <= MAX_OBJECT
    ensures AppendTo(es, data, true).Some?
    ensures var es', n := AppendTo(es, data, true).value, |es|;
            if 0 < Slack(es) && |data| <= Slack(es) then
              && |es'| == n && es'[..n - 1] == es[..n - 1]
              && |es'[n - 1].bytes| == |es[n - 1].bytes| && es'[n - 1].ro == es[n - 1].ro
              && es'[n - 1].wo == es[n - 1].wo + |data|
            else
              && |es'| == n + 1 && es'[n] == Fresh(data[Slack(es)..])
              && (n > 0 ==> es'[..n - 1] == es[..n - 1] && |es'[n - 1].bytes| == |es[n - 1].bytes|
                            && es'[n - 1].ro == es[n - 1].ro && es'[n - 1].wo == |es[n - 1].bytes|)
  {
    if es != [] && 0 < Slack(es) {
      AppendInSlack(es, data, true);
    } else {
      AppendFresh(es, data, true);
      assert data[0..] == data;
    }
  }

  // Without reserve every extent stays full, and append is right on all data.
  lemma AppendOnFull(es: seq<Ext>, data: seq<Byte>, repaired: bool)
    requires AllFull(es) && |data| <= MAX_OBJECT
    ensures AllOk(es, repaired) && AppendTo(es, data, repaired) == Some(es + [Fresh(data)])
    ensures AllFull(es + [Fresh(data)]) && View(es + [Fresh(data)], repaired) == View(es, repaired) + data
  {
    AppendFresh(es, data, repaired);
  }

  // ---- prepend ----

  // BufferImpl::prepend: into the space before the front extent's data if there is some, and whatever
  // is left over into a new extent.
  function PrependTo(es: seq<Ext>, data: seq<Byte>, repaired: bool): seq<Ext>
    requires AllOk(es, repaired)
  {
    if es == [] || es[0].ro == 0 then
      [Fresh(data)] + es
    else
      var front := [PrependInto(es[0], data, repaired)] + es[1..];
      if es[0].ro < |data| then [Fresh(data[..|data| - es[0].ro])] + front else front
  }

  // InternalExtent::prepend.  As it stands the bytes go to the start of the storage, and it is the start
  // of the data that is taken.
  function PrependInto(e: Ext, data: seq<Byte>, repaired: bool): Ext
    requires Ok(e, repaired)
  {
    var n := Min(e.ro, |data|);
    var at := if repaired then e.ro - n else 0;
    var src := if repaired then data[|data| - n..] else data[..n];
    Ext(e.bytes[..at] + src + e.bytes[at + n..], e.ro - n, e.wo)
  }

  // The bytes that come to lie between the new and the old read offset.
  function Exposed(e: Ext, data: seq<Byte>, repaired: bool): seq<Byte>
    requires Ok(e, repaired)
  {
    if repaired then data[|data| - Min(e.ro, |data|)..]
    else if |data| < e.ro then (data + e.bytes[|data|..])[e.ro - |data|..e.ro]
    else data[..e.ro]
  }

  lemma PrependIntoView(e: Ext, data: seq<Byte>, repaired: bool)
    requires Ok(e, repaired)
    ensures var e' := PrependInto(e, data, repaired);
            && Ok(e', repaired) && |e'.bytes| == |e.bytes|
            && Part(e', repaired) == Exposed(e, data, repaired) + Part(e, repaired)
  {
    var e' := PrependInto(e, data, repaired);
    assert e'.bytes[e.ro..End(e, repaired)] == Part(e, repaired);
    assert e'.bytes[e'.ro..e.ro] == Exposed(e, data, repaired);
  }

  lemma PrependShape(es: seq<Ext>, data: seq<Byte>, repaired: bool)
    requires AllOk(es, repaired) && |data| <= MAX_OBJECT
    ensures AllOk(PrependTo(es, data, repaired), repaired)
    ensures AllFull(es) ==> AllFull(PrependTo(es, data, repaired))
    ensures |View(PrependTo(es, data, repaired), repaired)| == |data| + |View(es, repaired)|
  {
    hide View, PrependTo;
    PrependView(es, data, repaired);
    PrependKeepsFull(es, data, repaired);
  }

  lemma PrependKeepsFull(es: seq<Ext>, data: seq<Byte>, repaired: bool)
    requires AllOk(es, repaired) && |data| <= MAX_OBJECT
    ensures AllFull(es) ==> AllFull(PrependTo(es, data, repaired))
  {
    if es != [] { PrependIntoView(es[0], data, repaired); }
  }

  // What ends up in front of the old contents.
  function PrependedBytes(es: seq<Ext>, data: seq<Byte>, repaired: bool): seq<Byte>
    requires AllOk(es, repaired)
  {
    if es == [] || es[0].ro == 0 || repaired then data
    else if |data| < es[0].ro then
      (data + es[0].bytes[|data|..])[es[0].ro - |data|..es[0].ro]
    else
      data[..|data| - es[0].ro] + data[..es[0].ro]
  }

  lemma PrependView(es: seq<Ext>, data: seq<Byte>, repaired: bool)
    requires AllOk(es, repaired) && |data| <= MAX_OBJECT
    ensures AllOk(PrependTo(es, data, repaired), repaired)
    ensures |PrependedBytes(es, data, repaired)| == |data|
    ensures View(PrependTo(es, data, repaired), repaired) == PrependedBytes(es, data, repaired) + View(es, repaired)
  {
    hide View, PrependInto, Exposed;
    if es == [] || es[0].ro == 0 {
      ViewCons(Fresh(data), es, repaired);
      assert Part(Fresh(data), repaired) == data;
    } else {
      PrependInPlace(es[0], es[1..], data, repaired);
      assert [es[0]] + es[1..] == es;
    }
  }

  lemma PrependInPlace(e: Ext, rest: seq<Ext>, data: seq<Byte>, repaired: bool)
    requires Ok(e, repaired) && AllOk(rest, repaired) && e.ro > 0 && |data| <= MAX_OBJECT
    ensures var es := [e] + rest;
            && AllOk(PrependTo(es, data, repaired), repaired)
            && |PrependedBytes(es, data, repaired)| == |data|
            && View(PrependTo(es, data, repaired), repaired) == PrependedBytes(es, data, repaired) + View(es, repaired)
  {
    hide View, PrependInto, Exposed, PrependedBytes;
    var es := [e] + rest;
    var e' := PrependInto(e, data, repaired);
    var exposed, view := Exposed(e, data, repaired), View(es, repaired);
    assert es[1..] == rest;
    PrependIntoView(e, data, repaired);
    ViewCons(e, rest, repaired);
    ViewCons(e', rest, repaired);
    Regroup(exposed, Part(e, repaired), View(rest, repaired));
    PrependedSplit(es, data, repaired);
    if e.ro < |data| {
      var over := data[..|data| - e.ro];
      ViewCons(Fresh(over), [e'] + rest, repaired);
      assert Part(Fresh(over), repaired) == over;
      Regroup(over, exposed, view);
    }
  }

  // What goes to a new extent, if the data do not fit in front, and what to the old one.
  lemma PrependedSplit(es: seq<Ext>, data: seq<Byte>, repaired: bool)
    requires AllOk(es, repaired) && es != [] && 0 < es[0].ro
    ensures |PrependedBytes(es, data, repaired)| == |data|
    ensures PrependedBytes(es, data, repaired) ==
            if es[0].ro < |data| then data[..|data| - es[0].ro] + Exposed(es[0], data, repaired)
            else Exposed(es[0], data, repaired)
  {
  }

  // With its two lines put right, prepend puts the data in front, always.
  lemma PrependRepaired(es: seq<Ext>, data: seq<Byte>)
    requires AllOk(es, true) && |data| <= MAX_OBJECT
    ensures AllOk(PrependTo(es, data, true), true)
    ensures View(PrependTo(es, data, true), true) == data + View(es, true)
  {
    PrependView(es, data, true);
  }

  // What prepend allocates, as written or repaired: nothing if the data fit in front of what is there, and
  // otherwise one extent, of just the size of what does not.
  lemma PrependAllocates(es: seq<Ext>, data: seq<Byte>, repaired: bool)
    requires AllOk(es, repaired) && |data| <= MAX_OBJECT
    ensures var es', space := PrependTo(es, data, repaired), if es == [] then 0 else es[0].ro;
            if 0 < space && |data| <= space then
              && |es'| == |es| && es'[1..] == es[1..] && es'[0].ro == space - |data|
              && |es'[0].bytes| == |es[0].bytes| && es'[0].wo == es[0].wo
            else
              && |es'| == |es| + 1 && es'[0].ro == 0 && es'[0].wo == |es'[0].bytes| == |data| - space
              && (es != [] ==> es'[2..] == es[1..] && es'[1].ro == 0 && |es'[1].bytes| == |es[0].bytes|
                               && es'[1].wo == es[0].wo)
  {
  }

  // No space before the front data, nothing to put there, or exactly as much as fits.
  predicate PrependSafe(es: seq<Ext>, n: nat) {
    es == [] || es[0].ro == 0 || n == 0 || n == es[0].ro
  }

  // As it stands, prepend is right on all data of a given length exactly under that condition.
  lemma PrependExact(es: seq<Ext>, n: nat)
    requires AllOk(es, false) && n <= MAX_OBJECT
    ensures PrependSafe(es, n) <==>
            forall data: seq<Byte> | |data| == n ::
              AllOk(PrependTo(es, data, false), false) &&
                  View(PrependTo(es, data, false), false) == data + View(es, false)
  {
    forall data: seq<Byte> | |data| == n
      ensures AllOk(PrependTo(es, data, false), false)
      ensures View(PrependTo(es, data, false), false) == data + View(es, false) <==>
              PrependedBytes(es, data, false) == data
    {
      PrependView(es, data, false);
      var got := PrependedBytes(es, data, false);
      if got + View(es, false) == data + View(es, false) {
        assert got == (got + View(es, false))[..n] == data;
      }
    }
    if PrependSafe(es, n) {
      forall data: seq<Byte> | |data| == n ensures PrependedBytes(es, data, false) == data {
      }
    } else {
      var bad := PrependCounterexample(es, n);
      assert View(PrependTo(es, bad, false), false) != bad + View(es, false);
    }
  }

  lemma PrependCounterexample(es: seq<Ext>, n: nat) returns (data: seq<Byte>)
    requires AllOk(es, false) && !PrependSafe(es, n)
    ensures |data| == n && PrependedBytes(es, data, false) != data
  {
    var ro := es[0].ro;
    if n < ro {
      // the last of the new bytes is stale storage
      var stale := es[0].bytes[ro - 1];
      data := seq(n, i => if stale == 0 then 1 else 0);
      assert PrependedBytes(es, data, false)[n - 1] == stale;
    } else {
      // the first byte turns up again at position n - ro
      data := seq(n, i => if i == 0 then 1 else 0);
      assert PrependedBytes(es, data, false)[n - ro] == data[0];
    }
  }

  // ---- drain ----

  function Drained(es: seq<Ext>, count: nat, repaired: bool): seq<Ext>
    requires AllOk(es, repaired)
    decreases |es|
  {
    if count == 0 || es == [] then es
    else if count < Readable(es[0], repaired) then [es[0].(ro := es[0].ro + count)] + es[1..]
    else Drained(es[1..], count - Readable(es[0], repaired), repaired)
  }

  // Drain takes exactly min(count, length) bytes off the front.
  lemma {:induction false} DrainExact(es: seq<Ext>, count: nat, repaired: bool)
    requires AllOk(es, repaired)
    ensures AllOk(Drained(es, count, repaired), repaired) && (AllFull(es) ==> AllFull(Drained(es, count, repaired)))
    ensures View(Drained(es, count, repaired), repaired) == View(es, repaired)[Min(count, |View(es, repaired)|)..]
    decreases |es|
  {
    hide View, Drained;
    DrainedTurn(es, count, repaired);
    if count != 0 && es != [] {
      var e, rest := es[0], es[1..];
      var front := Part(e, repaired);
      assert [e] + rest == es;
      ViewCons(e, rest, repaired);
      if count < Readable(e, repaired) {
        var e' := e.(ro := e.ro + count);
        ViewCons(e', rest, repaired);
        SliceWithin(front, View(rest, repaired), count);
        assert front[count..] == Part(e', repaired);
      } else {
        DrainExact(rest, count - Readable(e, repaired), repaired);
        SliceBeyond(front, View(rest, repaired), Min(count, |View(es, repaired)|));
      }
    }
  }

  lemma DrainedTurn(es: seq<Ext>, count: nat, repaired: bool)
    requires AllOk(es, repaired)
    ensures es == [] ==> View(es, repaired) == []
    ensures count == 0 || es == [] ==> Drained(es, count, repaired) == es
    ensures count != 0 && es != [] ==>
              Drained(es, count, repaired) ==
              if count < Readable(es[0], repaired) then [es[0].(ro := es[0].ro + count)] + es[1..]
              else Drained(es[1..], count - Readable(es[0], repaired), repaired)
  {
  }

  lemma SliceWithin(a: seq<Byte>, b: seq<Byte>, k: nat)
    requires k <= |a|
    ensures (a + b)[k..] == a[k..] + b
  {
  }

  lemma SliceBeyond(a: seq<Byte>, b: seq<Byte>, k: nat)
    requires |a| <= k <= |a| + |b|
    ensures (a + b)[k..] == b[k - |a|..]
  {
  }

  // How many bytes are in the first k extents.
  function Before(es: seq<Ext>, k: nat, repaired: bool): nat
    requires AllOk(es, repaired) && k <= |es|
  {
    |View(es[..k], repaired)|
  }

  // What drain does to extent k: it is freed exactly if there was something left to drain when its turn came,
  // and all it held goes.  Of the others only the first changes, and that in its read offset.
  lemma {:induction false} DrainFrees(es: seq<Ext>, count: nat, k: nat, repaired: bool)
    requires AllOk(es, repaired) && k < |es|
    ensures var es' := Drained(es, count, repaired);
            var gone := |es| - |es'|;
            && 0 <= gone <= |es|
            && (k < gone <==> Before(es, k, repaired) < count && Before(es, k + 1, repaired) <= count)
            && (k == gone ==> es'[0] == es[k].(ro := es'[0].ro))
            && (k > gone ==> es'[k - gone] == es[k])
    decreases |es|
  {
    hide View, Ok, Drained, Before;
    BeforeFirst(es, k, repaired);
    BeforeFirst(es, k + 1, repaired);
    DrainedTurn(es, count, repaired);
    if count > 0 && Readable(es[0], repaired) <= count {
      var rest, left := es[1..], count - Readable(es[0], repaired);
      if k > 0 {
        DrainFrees(rest, left, k - 1, repaired);
      } else {
        BeforeFirst(rest, 0, repaired);
        DrainedShorter(rest, left, repaired);
      }
    }
  }

  lemma {:induction false} DrainedShorter(es: seq<Ext>, count: nat, repaired: bool)
    requires AllOk(es, repaired)
    ensures |Drained(es, count, repaired)| <= |es|
    decreases |es|
  {
    if count > 0 && es != [] && Readable(es[0], repaired) <= count {
      DrainedShorter(es[1..], count - Readable(es[0], repaired), repaired);
    }
  }

  lemma BeforeFirst(es: seq<Ext>, k: nat, repaired: bool)
    requires AllOk(es, repaired) && k <= |es|
    ensures Before(es, k, repaired) ==
            if k == 0 then 0 else Readable(es[0], repaired) + Before(es[1..], k - 1, repaired)
  {
    if k > 0 { assert es[..k][1..] == es[1..][..k - 1]; }
  }

  // ---- read and peek ----

  // The loop of BufferImpl::read with `total` bytes already delivered: what it delivers, and what it leaves.
  // As it stands every extent is asked for `size` bytes, not for the `size - total` still wanted.
  function ReadLoop(es: seq<Ext>, size: nat, total: nat, repaired: bool): (seq<Byte>, seq<Ext>)
    requires AllOk(es, repaired)
    decreases |es|
  {
    if es == [] || total >= size then ([], es)
    else
      var e := es[0];
      var n := Min(if repaired then size - total else size, Readable(e, repaired));
      var got := Part(e, repaired)[..n];
      if n == Readable(e, repaired) then
        var (more, left) := ReadLoop(es[1..], size, total + n, repaired);
        (got + more, left)
      else
        (got, [e.(ro := e.ro + n)] + es[1..])
  }

  // The same loop without consuming, which is peek: it goes on where a read would stop.
  function PeekLoop(es: seq<Ext>, size: nat, total: nat, repaired: bool): seq<Byte>
    requires AllOk(es, repaired)
    decreases |es|
  {
    if es == [] || total >= size then []
    else
      var e := es[0];
      var n := Min(if repaired then size - total else size, Readable(e, repaired));
      Part(e, repaired)[..n] + PeekLoop(es[1..], size, total + n, repaired)
  }

  lemma {:induction false} PeekIsRead(es: seq<Ext>, size: nat, total: nat, repaired: bool)
    requires AllOk(es, repaired)
    ensures PeekLoop(es, size, total, repaired) == ReadLoop(es, size, total, repaired).0
    decreases |es|
  {
    if es != [] && total < size {
      var n := Min(if repaired then size - total else size, Readable(es[0], repaired));
      if n == Readable(es[0], repaired) {
        PeekIsRead(es[1..], size, total + n, repaired);
      } else {
        assert PeekLoop(es[1..], size, total + n, repaired) == [];
      }
    }
  }

  lemma {:induction false} ReadKeepsOk(es: seq<Ext>, size: nat, total: nat, repaired: bool)
    requires AllOk(es, repaired)
    ensures var left := ReadLoop(es, size, total, repaired).1; AllOk(left, repaired) && (AllFull(es) ==> AllFull(left))
    decreases |es|
  {
    if es != [] && total < size {
      var n := Min(if repaired then size - total else size, Readable(es[0], repaired));
      if n == Readable(es[0], repaired) { ReadKeepsOk(es[1..], size, total + n, repaired); }
    }
  }

  // Reading never loses or reorders a byte: what is delivered and what is left make up what was there.
  lemma {:induction false} ReadConserves(es: seq<Ext>, size: nat, total: nat, repaired: bool)
    requires AllOk(es, repaired)
    ensures var (out, left) := ReadLoop(es, size, total, repaired);
            AllOk(left, repaired) && (AllFull(es) ==> AllFull(left)) && out + View(left, repaired) == View(es, repaired)
    decreases |es|
  {
    hide View, ReadLoop;
    ReadKeepsOk(es, size, total, repaired);
    ReadLoopTurn(es, size, total, repaired);
    if es == [] || total >= size {
      assert [] + View(es, repaired) == View(es, repaired);
    } else {
      var e, rest := es[0], es[1..];
      var n := Min(if repaired then size - total else size, Readable(e, repaired));
      assert [e] + rest == es;
      ViewCons(e, rest, repaired);
      if n == Readable(e, repaired) {
        ReadConserves(rest, size, total + n, repaired);
        var (more, left) := ReadLoop(rest, size, total + n, repaired);
        Regroup(Part(e, repaired), more, View(left, repaired));
      } else {
        PartRead(e, rest, n, repaired);
      }
    }
  }

  // ReadLoop taken one turn further.
  lemma ReadLoopTurn(es: seq<Ext>, size: nat, total: nat, repaired: bool)
    requires AllOk(es, repaired)
    ensures es == [] || total >= size ==> ReadLoop(es, size, total, repaired) == ([], es)
    ensures es != [] && total < size ==>
              var e, rest := es[0], es[1..];
              var n := Min(if repaired then size - total else size, Readable(e, repaired));
              var later := ReadLoop(rest, size, total + n, repaired);
              ReadLoop(es, size, total, repaired) ==
              if n == Readable(e, repaired) then (Part(e, repaired) + later.0, later.1)
              else (Part(e, repaired)[..n], [e.(ro := e.ro + n)] + rest)
  {
    if es != [] { assert Part(es[0], repaired)[..Readable(es[0], repaired)] == Part(es[0], repaired); }
  }

  lemma PartRead(e: Ext, rest: seq<Ext>, n: nat, repaired: bool)
    requires Ok(e, repaired) && AllOk(rest, repaired) && n <= Readable(e, repaired)
    ensures AllOk([e.(ro := e.ro + n)] + rest, repaired)
    ensures Part(e, repaired)[..n] + View([e.(ro := e.ro + n)] + rest, repaired) ==
            Part(e, repaired) + View(rest, repaired)
  {
    var e' := e.(ro := e.ro + n);
    ViewCons(e', rest, repaired);
    Regroup(Part(e, repaired)[..n], Part(e', repaired), View(rest, repaired));
    assert Part(e, repaired)[..n] + Part(e', repaired) == Part(e, repaired);
  }

  // The cut after `size` bytes falls strictly inside extent k, with data before it.
  predicate CutsInto(es: seq<Ext>, size: nat, total: nat, k: nat)
    requires AllOk(es, false) && k < |es|
  {
    0 < total + |View(es[..k], false)| < size < total + |View(es[..k], false)| + Readable(es[k], false)
  }

  // It does so in no extent.
  ghost predicate CutsCleanly(es: seq<Ext>, size: nat, total: nat)
    requires AllOk(es, false)
  {
    forall k :: 0 <= k < |es| ==> !CutsInto(es, size, total, k)
  }

  lemma {:induction false} ReadLength(es: seq<Ext>, size: nat, total: nat, repaired: bool)
    requires AllOk(es, repaired) && total <= size
    ensures var n := |ReadLoop(es, size, total, repaired).0|;
            && n >= Min(size - total, |View(es, repaired)|)
            && (n == Min(size - total, |View(es, repaired)|) <==> repaired || CutsCleanly(es, size, total))
    decreases |es|
  {
    if es == [] || total >= size {
    } else {
      var e := es[0];
      var n := Min(if repaired then size - total else size, Readable(e, repaired));
      if n < Readable(e, repaired) {
        CutShifts(es, size, total);
      } else if total + n <= size {
        ReadLength(es[1..], size, total + n, repaired);
        CutShifts(es, size, total);
      } else {
        CutsFirst(es, size, total);
      }
    }
  }

  lemma CutsFirst(es: seq<Ext>, size: nat, total: nat)
    requires AllOk(es, false) && es != []
    ensures CutsInto(es, size, total, 0) <==> 0 < total < size < total + Readable(es[0], false)
  {
    assert es[..0] == [] && View(es[..0], false) == [];
  }

  lemma CutsLater(es: seq<Ext>, size: nat, total: nat, k: nat)
    requires AllOk(es, false) && 0 < k < |es|
    ensures CutsInto(es, size, total, k) <==> CutsInto(es[1..], size, total + Readable(es[0], false), k - 1)
  {
    assert es[..k][1..] == es[1..][..k - 1];
  }

  // Past the first extent the condition is the one for the rest of the list.
  lemma {:induction false} CutShifts(es: seq<Ext>, size: nat, total: nat)
    requires AllOk(es, false) && es != []
    ensures CutsCleanly(es, size, total) <==>
            !(0 < total < size < total + Readable(es[0], false)) &&
                CutsCleanly(es[1..], size, total + Readable(es[0], false))
  {
    hide CutsInto, View;
    var rest, past := es[1..], total + Readable(es[0], false);
    CutsFirst(es, size, total);
    if CutsCleanly(es, size, total) {
      assert !CutsInto(es, size, total, 0);
      forall k | 0 <= k < |rest| ensures !CutsInto(rest, size, past, k) {
        CutsLater(es, size, total, k + 1);
      }
    } else {
      var k :| 0 <= k < |es| && CutsInto(es, size, total, k);
      if k > 0 {
        CutsLater(es, size, total, k);
      }
    }
  }

  // read(size) delivers the first min(size, length) bytes and leaves the rest exactly when the cut is
  // clean; otherwise it delivers more than was asked for.  Repaired, it always does.
  lemma ReadExact(es: seq<Ext>, size: nat, repaired: bool)
    requires AllOk(es, repaired)
    ensures var (out, left) := ReadLoop(es, size, 0, repaired);
            var n := Min(size, |View(es, repaired)|);
            && AllOk(left, repaired)
            && (repaired || CutsCleanly(es, size, 0) <==>
                out == View(es, repaired)[..n] && View(left, repaired) == View(es, repaired)[n..])
            && (!repaired && !CutsCleanly(es, size, 0) ==> |out| > size)
  {
    ReadConserves(es, size, 0, repaired);
    ReadLength(es, size, 0, repaired);
    var (out, left) := ReadLoop(es, size, 0, repaired);
    assert View(es, repaired)[..|out|] == out && View(es, repaired)[|out|..] == View(left, repaired);
  }

  // A clean read frees what a drain of as much does.
  lemma {:induction false} ReadFrees(es: seq<Ext>, size: nat, total: nat, repaired: bool)
    requires AllOk(es, repaired) && total <= size && (repaired || CutsCleanly(es, size, total))
    ensures ReadLoop(es, size, total, repaired).1 == Drained(es, size - total, repaired)
    decreases |es|
  {
    if es != [] && total < size {
      if !repaired { CutShifts(es, size, total); }
      var n := Min(if repaired then size - total else size, Readable(es[0], repaired));
      if n == Readable(es[0], repaired) && total + n <= size {
        ReadFrees(es[1..], size, total + n, repaired);
      }
    }
  }

  // A peek followed by a drain of what it saw is a read.
  lemma PeekThenDrainIsRead(es: seq<Ext>, size: nat, repaired: bool)
    requires AllOk(es, repaired)
    ensures var out := PeekLoop(es, size, 0, repaired);
            && out == ReadLoop(es, size, 0, repaired).0
            && AllOk(Drained(es, |out|, repaired), repaired) && AllOk(ReadLoop(es, size, 0, repaired).1, repaired)
            && View(Drained(es, |out|, repaired), repaired) == View(ReadLoop(es, size, 0, repaired).1, repaired)
  {
    PeekIsRead(es, size, 0, repaired);
    ReadConserves(es, size, 0, repaired);
    var out := PeekLoop(es, size, 0, repaired);
    DrainExact(es, |out|, repaired);
    var left := View(ReadLoop(es, size, 0, repaired).1, repaired);
    assert (out + left)[|out|..] == left;
  }

  // ---- peek at extents ----

  function PeekExtents(es: seq<Ext>, size: nat, total: nat, repaired: bool): seq<seq<Byte>>
    requires AllOk(es, repaired)
    decreases |es|
  {
    if es == [] || total >= size then []
    else
      var e := es[0];
      var grant := Min(Readable(e, repaired), size - total);
      var part := if Readable(e, repaired) > 0 then [Part(e, repaired)[..grant]] else [];
      part + PeekExtents(es[1..], size, total + Readable(e, repaired), repaired)
  }

  function Joined(parts: seq<seq<Byte>>): seq<Byte> {
    if parts == [] then [] else parts[0] + Joined(parts[1..])
  }

  lemma JoinedCons(part: seq<Byte>, rest: seq<seq<Byte>>)
    ensures Joined((if part != [] then [part] else []) + rest) == part + Joined(rest)
  {
    if part == [] {
      assert [] + rest == rest && [] + Joined(rest) == Joined(rest);
    } else {
      assert ([part] + rest)[1..] == rest;
    }
  }

  // Taking the first k of a + b: only from a, or all of a and the rest from b.
  lemma TakeAcross(a: seq<Byte>, b: seq<Byte>, k: nat)
    requires k <= |a| + |b|
    ensures (a + b)[..k] == if k <= |a| then a[..k] else a + b[..k - |a|]
  {
  }

  // The extents handed out are never empty and together are the first min(size, length) bytes.
  lemma {:induction false} PeekExtentsExact(es: seq<Ext>, size: nat, total: nat, repaired: bool)
    requires AllOk(es, repaired)
    ensures var parts := PeekExtents(es, size, total, repaired);
            && (forall i :: 0 <= i < |parts| ==> parts[i] != [])
            && Joined(parts) ==
               View(es, repaired)[..Min(if total <= size then size - total else 0, |View(es, repaired)|)]
    decreases |es|
  {
    hide View, PeekExtents, Joined;
    PeekExtentsSplit(es, size, total, repaired);
    if es != [] && total < size {
      var e, later := es[0], View(es[1..], repaired);
      var front, past := Part(e, repaired), total + Readable(e, repaired);
      var part := front[..Min(Readable(e, repaired), size - total)];
      PeekExtentsExact(es[1..], size, past, repaired);
      assert [e] + es[1..] == es;
      ViewCons(e, es[1..], repaired);
      JoinedCons(part, PeekExtents(es[1..], size, past, repaired));
      TakeAcross(front, later, Min(size - total, |front| + |later|));
      assert later[..0] == [] && part + [] == part && front[..|front|] == front;
    }
  }

  lemma PeekExtentsSplit(es: seq<Ext>, size: nat, total: nat, repaired: bool)
    requires AllOk(es, repaired)
    ensures es == [] ==> View(es, repaired) == []
    ensures es == [] || total >= size ==> PeekExtents(es, size, total, repaired) == [] && Joined([]) == []
    ensures es != [] && total < size ==>
              var part := Part(es[0], repaired)[..Min(Readable(es[0], repaired), size - total)];
              PeekExtents(es, size, total, repaired) ==
              (if part != [] then [part] else []) +
              PeekExtents(es[1..], size, total + Readable(es[0], repaired), repaired)
  {
  }

  // Draining any number of bytes the peeked extents cover removes exactly the first of them.
  lemma PeekedThenDrained(es: seq<Ext>, size: nat, k: nat, repaired: bool)
    requires AllOk(es, repaired) && k <= |Joined(PeekExtents(es, size, 0, repaired))|
    ensures AllOk(Drained(es, k, repaired), repaired)
    ensures Joined(PeekExtents(es, size, 0, repaired))[..k] + View(Drained(es, k, repaired), repaired) ==
            View(es, repaired)
  {
    hide View, PeekExtents, Drained, Joined;
    PeekExtentsExact(es, size, 0, repaired);
    DrainExact(es, k, repaired);
  }

  // ---- reserve ----

  // BufferImpl::reserve.  None: the allocation fails, because the subtraction wrapped around.
  // `junk` is what the new storage happens to hold.
  function ReserveTo(es: seq<Ext>, size: nat, junk: seq<Byte>, repaired: bool): Option<seq<Ext>>
    requires AllOk(es, repaired) && size < TWO_64
  {
    var required := Required(es, size, repaired);
    if required == 0 then Some(es)
    else if required > MAX_OBJECT || |junk| != required then None
    else Some(es + [Ext(junk, 0, 0)])
  }

  // Repaired, the subtraction stops at nothing.
  function Required(es: seq<Ext>, size: nat, repaired: bool): nat
    requires AllOk(es, repaired) && size < TWO_64
  {
    if es == [] then size
    else if repaired && size < Appendable(es[|es| - 1]) then 0
    else Sub(size, Appendable(es[|es| - 1]))
  }

  // Reserve succeeds exactly if what is missing can be allocated, and, as it stands, the slack does not exceed what
  // is asked for.  It then makes sure of `size` bytes of room: if the slack does not do, an extent is added, and
  // slack and new room are `size` together.  What is there stays as it is.
  lemma ReserveMakesRoom(es: seq<Ext>, size: nat, junk: seq<Byte>, repaired: bool)
    requires AllOk(es, repaired) && size < TWO_64
    ensures ReserveTo(es, size, junk, repaired).Some? <==>
            if Slack(es) >= size then repaired || Slack(es) == size
            else size - Slack(es) == |junk| <= 0x7fff_ffff_ffff_ffff
    ensures ReserveTo(es, size, junk, repaired).Some? ==>
              var es' := ReserveTo(es, size, junk, repaired).value;
              if Slack(es) >= size then es' == es
              else
                && |es'| == |es| + 1 && es'[..|es|] == es && AllOk(es', repaired) && es'[|es|].ro == es'[|es|].wo == 0
                && Slack(es) + Slack(es') == size && |junk| == Slack(es') == |es'[|es|].bytes|
  {
  }

  // Repaired, data for which room has been reserved are appended without a further allocation exactly if the
  // room is in one place, or they fit what has been added: append does not go back to the slack before it.
  lemma ReservedAppend(es: seq<Ext>, size: nat, junk: seq<Byte>, data: seq<Byte>)
    requires AllOk(es, true) && 0 < |data| <= size < TWO_64 && |data| <= MAX_OBJECT
    requires ReserveTo(es, size, junk, true).Some?
    ensures var es' := ReserveTo(es, size, junk, true).value;
            && AllOk(es', true) && AppendTo(es', data, true).Some?
            && (|AppendTo(es', data, true).value| == |es'| <==>
                Slack(es) == 0 || size <= Slack(es) || |data| <= size - Slack(es))
  {
    ReserveMakesRoom(es, size, junk, true);
    AppendAllocates(ReserveTo(es, size, junk, true).value, data);
  }

  // Repaired, reserve always succeeds and leaves the view alone.  As it stands it succeeds exactly when the
  // slack there already is does not exceed what is asked for, and the view grows by the storage it added.
  lemma ReserveExact(es: seq<Ext>, size: nat, junk: seq<Byte>, repaired: bool)
    requires AllOk(es, repaired) && size <= MAX_OBJECT && |junk| == if Slack(es) < size then size - Slack(es) else 0
    ensures ReserveTo(es, size, junk, repaired).Some? <==> repaired || es == [] || Appendable(es[|es| - 1]) <= size
    ensures ReserveTo(es, size, junk, repaired).Some? ==>
              var es' := ReserveTo(es, size, junk, repaired).value;
              AllOk(es', repaired) && View(es', repaired) == if repaired then View(es, true) else View(es, false) + junk
  {
    if ReserveTo(es, size, junk, repaired).Some? {
      if junk == [] {
        assert View(es, repaired) + junk == View(es, repaired);
      } else {
        var e := Ext(junk, 0, 0);
        ViewOne(e, repaired);
        ViewConcat(es, [e], repaired);
        assert e.bytes[0..0] == [] && e.bytes[0..|junk|] == junk;
        assert View(es, repaired) + [] == View(es, repaired);
      }
    }
  }
}
