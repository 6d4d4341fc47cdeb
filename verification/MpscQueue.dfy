/**
ConcurrentMPSCQueue of `src/mpsc_queue.h` on real nodes, one operation at a time.  What interleaved
operations do is the subject of NotifyProtocol; here the statements of push, pop and the destructor
are kept in their order and proved against the plain sequence of queued items.
*/
module MpscQueue {
  import opened Wrappers

  class Node<T> {
    var data: Option<T>
    var next: Node?<T>

    constructor (data: Option<T>)
      ensures this.data == data && this.next == null
    {
      this.data := data;
      this.next := null;
    }
  }

  class ConcurrentMPSCQueue<T> {
    var head: Node<T>
    var tail: Node<T>
    ghost var chain: seq<Node<T>>    // from tail to head
    ghost var live: set<Node<T>>     // allocated and not yet freed

    ghost predicate Valid()
      reads this, chain
    {
      && chain != []
      && tail == chain[0] && head == chain[|chain| - 1]
      && tail.data == None
      && head.next == null
      && (forall i {:trigger chain[i].next} :: 0 <= i < |chain| - 1 ==> chain[i].next == chain[i + 1])
      && (forall i, j :: 0 <= i < j < |chain| ==> chain[i] != chain[j])
      && (forall i {:trigger chain[i].data} :: 0 < i < |chain| ==> chain[i].data.Some?)
      && live == set n | n in chain
    }

    // The items still queued, oldest first.
    ghost function Contents(): (items: seq<T>)
      requires Valid()
      reads this, chain
      ensures |items| == |chain| - 1
    {
      seq(|chain| - 1, i requires 0 <= i < |chain| - 1 && Valid() reads this, chain => chain[i + 1].data.value)
    }

    constructor ()
      ensures Valid() && fresh(live) && Contents() == []
    {
      var dummy := new Node<T>(None);
      head := dummy;
      tail := dummy;
      chain := [dummy];
      live := {dummy};
    }

    // Answers whether the queue was empty at insertion.
    method Push(item: T) returns (empty: bool)
      requires Valid()
      modifies this, chain
      ensures Valid() && fresh(live - old(live)) && old(live) <= live
      ensures Contents() == old(Contents()) + [item]
      ensures empty <==> old(Contents()) == []
    {
      var cur := new Node(Some(item));
      var prev := head;
      head := cur;
      var emptyAtInit := prev == tail;
      prev.next := cur;
      chain := chain + [cur];
      live := live + {cur};
      if emptyAtInit {
        return true;
      }
      return tail == prev;
    }

    method Pop() returns (item: Option<T>)
      requires Valid()
      modifies this, chain
      ensures Valid() && live <= old(live)
      ensures item == if old(Contents()) == [] then None else Some(old(Contents())[0])
      ensures Contents() == if old(Contents()) == [] then [] else old(Contents())[1..]
      ensures |chain| <= |old(chain)| && forall i :: 0 <= i < |chain| ==> chain[i] in old(chain)
      ensures old(Contents()) == [] ==> chain == old(chain)
      ensures old(Contents()) != [] ==> chain == old(chain)[1..] && live == old(live) - {old(tail)}
    {
      var spent := tail;
      var next := spent.next;
      if next == null {
        assert |chain| == 1;
        return None;
      }
      tail := next;
      Free(spent);
      chain := chain[1..];
      item := next.data;
      next.data := None;
    }

    // freeAligned: only memory that is allocated may be freed.
    ghost method Free(n: Node<T>)
      requires n in live
      modifies this`live
      ensures live == old(live) - {n}
    {
      live := live - {n};
    }

    // The destructor.  Free's precondition makes every node's release its first.
    method Destroy()
      requires Valid()
      modifies this, chain
      ensures live == {}
    {
      hide Valid, Contents;
      var item := Pop();
      while item.Some?
        invariant Valid()
        invariant forall i :: 0 <= i < |chain| ==> chain[i] in old(chain)
        invariant item.None? ==> Contents() == []
        decreases |chain| + if item.Some? then 1 else 0
      {
        item := Pop();
      }
      OneLeft();
      Free(head);
    }

    lemma OneLeft()
      requires Valid() && Contents() == []
      ensures live == {head}
    {
      assert chain == [head];
    }
  }
}
