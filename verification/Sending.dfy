/**
What one turn of StreamImpl::writeHelper (src/stream.cc) hands to the kernel: the extents of the front
request one after the other, until the kernel fails or has taken them all.

As it stands a short write does not leave the loop over the extents; `repaired` puts that right.
*/
module Sending {
  import opened Extents

  // The kernel's answer to one write: it takes at most so many bytes, or fails.
  datatype Reply = Takes(limit: nat) | Fails

  // The bytes put on the wire, and whether the kernel stopped taking them or failed.
  datatype Sent = Sent(wire: seq<Byte>, blocked: bool, failed: bool)

  // Replies missing at the end mean a kernel that takes nothing more.
  function ReplyTo(replies: seq<Reply>): Reply {
    if replies == [] then Takes(0) else replies[0]
  }

  function Later(replies: seq<Reply>): seq<Reply> {
    if replies == [] then [] else replies[1..]
  }

  function SendParts(parts: seq<seq<Byte>>, replies: seq<Reply>, repaired: bool): Sent
    decreases |parts|
  {
    if parts == [] then Sent([], false, false)
    else
      match ReplyTo(replies)
      case Fails => Sent([], false, true)
      case Takes(limit) =>
        var n := Min(limit, |parts[0]|);
        if repaired && n < |parts[0]| then Sent(parts[0][..n], true, false)
        else
          var rest := SendParts(parts[1..], Later(replies), repaired);
          Sent(parts[0][..n] + rest.wire, n < |parts[0]| || rest.blocked, rest.failed)
  }

  // A write that the kernel cuts short is followed by one of which it takes something.
  predicate Skips(lens: seq<nat>, replies: seq<Reply>) {
    lens != [] && ReplyTo(replies).Takes? &&
    if ReplyTo(replies).limit < lens[0] then TakesSome(lens[1..], Later(replies))
    else Skips(lens[1..], Later(replies))
  }

  predicate TakesSome(lens: seq<nat>, replies: seq<Reply>) {
    lens != [] && ReplyTo(replies).Takes? &&
    ((lens[0] > 0 && ReplyTo(replies).limit > 0) || TakesSome(lens[1..], Later(replies)))
  }

  function Lengths(parts: seq<seq<Byte>>): (lens: seq<nat>)
    ensures |lens| == |parts| && forall i :: 0 <= i < |parts| ==> lens[i] == |parts[i]|
  {
    seq(|parts|, i requires 0 <= i < |parts| => |parts[i]|)
  }

  predicate IsPrefix(s: seq<Byte>, t: seq<Byte>) {
    |s| <= |t| && s == t[..|s|]
  }

  // The answer to the k-th write.
  function ReplyAt(replies: seq<Reply>, k: nat): Reply {
    if k < |replies| then replies[k] else Takes(0)
  }

  // The k-th write is made: none before it has failed, and repaired none has been cut short.
  predicate Reaches(lens: seq<nat>, replies: seq<Reply>, k: nat, repaired: bool)
    requires k <= |lens|
  {
    forall j :: 0 <= j < k ==> ReplyAt(replies, j).Takes? && (repaired ==> ReplyAt(replies, j).limit >= lens[j])
  }

  predicate FailsAt(lens: seq<nat>, replies: seq<Reply>, k: nat, repaired: bool)
    requires k < |lens|
  {
    ReplyAt(replies, k).Fails? && Reaches(lens, replies, k, repaired)
  }

  predicate CutAt(lens: seq<nat>, replies: seq<Reply>, k: nat, repaired: bool)
    requires k < |lens|
  {
    ReplyAt(replies, k).Takes? && ReplyAt(replies, k).limit < lens[k] && Reaches(lens, replies, k, repaired)
  }

  // Some write that is made fails.
  predicate KernelFails(lens: seq<nat>, replies: seq<Reply>, repaired: bool) {
    exists k :: 0 <= k < |lens| && FailsAt(lens, replies, k, repaired)
  }

  // Some write that is made is cut short.
  predicate KernelBlocks(lens: seq<nat>, replies: seq<Reply>, repaired: bool) {
    exists k :: 0 <= k < |lens| && CutAt(lens, replies, k, repaired)
  }

  // The later writes are those of the rest of the list.
  lemma ReachesLater(lens: seq<nat>, replies: seq<Reply>, k: nat, repaired: bool)
    requires 0 < k <= |lens|
    ensures Reaches(lens, replies, k, repaired) <==>
            && ReplyTo(replies).Takes? && (repaired ==> ReplyTo(replies).limit >= lens[0])
            && Reaches(lens[1..], Later(replies), k - 1, repaired)
    ensures ReplyAt(Later(replies), k - 1) == ReplyAt(replies, k)
  {
    assert forall j: nat :: ReplyAt(Later(replies), j) == ReplyAt(replies, j + 1);
    if Reaches(lens, replies, k, repaired) {
      assert ReplyAt(replies, 0).Takes?;
      forall j | 0 <= j < k - 1 ensures ReplyAt(Later(replies), j).Takes? &&
                                        (repaired ==> ReplyAt(Later(replies), j).limit >= lens[1..][j]) {
        assert ReplyAt(replies, j + 1).Takes?;
      }
    } else {
      var j :| 0 <= j < k && !(ReplyAt(replies, j).Takes? && (repaired ==> ReplyAt(replies, j).limit >= lens[j]));
      if j > 0 { assert ReplyAt(Later(replies), j - 1) == ReplyAt(replies, j); }
    }
  }

  lemma LaterWrite(lens: seq<nat>, replies: seq<Reply>, k: nat, repaired: bool)
    requires k < |lens|
    ensures var first, rest := ReplyTo(replies), Later(replies);
            var goesOn := first.Takes? && (repaired ==> first.limit >= lens[0]);
            if k == 0 then
              && (FailsAt(lens, replies, k, repaired) <==> first.Fails?)
              && (CutAt(lens, replies, k, repaired) <==> first.Takes? && first.limit < lens[0])
            else
              && (FailsAt(lens, replies, k, repaired) <==> goesOn && FailsAt(lens[1..], rest, k - 1, repaired))
              && (CutAt(lens, replies, k, repaired) <==> goesOn && CutAt(lens[1..], rest, k - 1, repaired))
  {
    if k > 0 {
      hide Reaches;
      ReachesLater(lens, replies, k, repaired);
    }
  }

  lemma KernelLater(lens: seq<nat>, replies: seq<Reply>, repaired: bool)
    requires lens != []
    ensures var first, rest := ReplyTo(replies), Later(replies);
            var goesOn := first.Takes? && (repaired ==> first.limit >= lens[0]);
            && (KernelFails(lens, replies, repaired) <==>
                first.Fails? || (goesOn && KernelFails(lens[1..], rest, repaired)))
            && (KernelBlocks(lens, replies, repaired) <==>
                (first.Takes? && first.limit < lens[0]) || (goesOn && KernelBlocks(lens[1..], rest, repaired)))
  {
    hide FailsAt, CutAt;
    var rest := Later(replies);
    LaterWrite(lens, replies, 0, repaired);
    if KernelFails(lens, replies, repaired) {
      var k :| 0 <= k < |lens| && FailsAt(lens, replies, k, repaired);
      LaterWrite(lens, replies, k, repaired);
    }
    if KernelFails(lens[1..], rest, repaired) {
      var k :| 0 <= k < |lens[1..]| && FailsAt(lens[1..], rest, k, repaired);
      LaterWrite(lens, replies, k + 1, repaired);
    }
    if KernelBlocks(lens, replies, repaired) {
      var k :| 0 <= k < |lens| && CutAt(lens, replies, k, repaired);
      LaterWrite(lens, replies, k, repaired);
    }
    if KernelBlocks(lens[1..], rest, repaired) {
      var k :| 0 <= k < |lens[1..]| && CutAt(lens[1..], rest, k, repaired);
      LaterWrite(lens, replies, k + 1, repaired);
    }
  }

  // A turn fails exactly if the kernel fails one of its writes, and stops exactly if it cuts one short.
  lemma {:induction false} SendOutcome(parts: seq<seq<Byte>>, replies: seq<Reply>, repaired: bool)
    ensures var s := SendParts(parts, replies, repaired);
            && (s.failed <==> KernelFails(Lengths(parts), replies, repaired))
            && (s.blocked <==> KernelBlocks(Lengths(parts), replies, repaired))
    decreases |parts|
  {
    if parts != [] {
      assert Lengths(parts)[1..] == Lengths(parts[1..]);
      KernelLater(Lengths(parts), replies, repaired);
      SendOutcome(parts[1..], Later(replies), repaired);
    }
  }

  // How much the kernel takes in the first n writes, those that are made.
  function Amount(lens: seq<nat>, replies: seq<Reply>, n: nat, repaired: bool): nat
    requires n <= |lens|
  {
    if n == 0 then 0
    else
      Amount(lens, replies, n - 1, repaired) +
      if ReplyAt(replies, n - 1).Takes? && Reaches(lens, replies, n - 1, repaired)
      then Min(ReplyAt(replies, n - 1).limit, lens[n - 1]) else 0
  }

  lemma {:induction false} AmountLater(lens: seq<nat>, replies: seq<Reply>, n: nat, repaired: bool)
    requires 0 < n <= |lens|
    ensures var first := ReplyTo(replies);
            Amount(lens, replies, n, repaired) ==
            if first.Fails? then 0
            else Min(first.limit, lens[0]) +
                 if repaired && first.limit < lens[0] then 0 else Amount(lens[1..], Later(replies), n - 1, repaired)
  {
    hide Reaches;
    if n == 1 {
      NoneBefore(lens, replies, repaired);
    } else {
      AmountLater(lens, replies, n - 1, repaired);
      ReachesLater(lens, replies, n - 1, repaired);
    }
  }

  lemma NoneBefore(lens: seq<nat>, replies: seq<Reply>, repaired: bool)
    ensures Reaches(lens, replies, 0, repaired)
  {
  }

  // On the wire there is as much as the kernel has said that it takes.
  lemma {:induction false} SentAmount(parts: seq<seq<Byte>>, replies: seq<Reply>, repaired: bool)
    ensures |SendParts(parts, replies, repaired).wire| == Amount(Lengths(parts), replies, |parts|, repaired)
    decreases |parts|
  {
    if parts != [] {
      assert Lengths(parts)[1..] == Lengths(parts[1..]);
      AmountLater(Lengths(parts), replies, |parts|, repaired);
      SentAmount(parts[1..], Later(replies), repaired);
    }
  }

  // What goes on the wire is never longer than what there was, and everything went there exactly
  // when the kernel neither stopped nor failed.
  lemma {:induction false} SentLength(parts: seq<seq<Byte>>, replies: seq<Reply>, repaired: bool)
    ensures var s := SendParts(parts, replies, repaired);
            && |s.wire| <= |Joined(parts)|
            && (!s.blocked && !s.failed ==> s.wire == Joined(parts))
            && (|s.wire| == |Joined(parts)| && (forall i :: 0 <= i < |parts| ==> parts[i] != []) ==>
                !s.blocked && !s.failed)
    decreases |parts|
  {
    if parts != [] {
      SentLength(parts[1..], Later(replies), repaired);
      assert Joined(parts) == parts[0] + Joined(parts[1..]);
      if |parts| > 1 && (forall i :: 0 <= i < |parts| ==> parts[i] != []) {
        assert parts[1..][0] == parts[1] != [];
        assert forall i :: 0 <= i < |parts[1..]| ==> parts[1..][i] == parts[i + 1];
      }
    }
  }

  lemma {:induction false} NothingMore(parts: seq<seq<Byte>>, replies: seq<Reply>)
    ensures SendParts(parts, replies, false).wire == [] <==> !TakesSome(Lengths(parts), replies)
    decreases |parts|
  {
    if parts != [] {
      assert Lengths(parts)[1..] == Lengths(parts[1..]);
      NothingMore(parts[1..], Later(replies));
    }
  }

  // Repaired, or as long as no short write is followed by another, the wire gets the first of the bytes.
  lemma {:induction false} SentInOrder(parts: seq<seq<Byte>>, replies: seq<Reply>, repaired: bool)
    requires repaired || !Skips(Lengths(parts), replies)
    ensures IsPrefix(SendParts(parts, replies, repaired).wire, Joined(parts))
    decreases |parts|
  {
    if parts != [] && ReplyTo(replies).Takes? {
      assert Lengths(parts)[1..] == Lengths(parts[1..]);
      var n := Min(ReplyTo(replies).limit, |parts[0]|);
      if n < |parts[0]| {
        NothingMore(parts[1..], Later(replies));
        assert parts[0][..n] + [] == parts[0][..n] == Joined(parts)[..n];
      } else {
        SentInOrder(parts[1..], Later(replies), repaired);
        AfterCommon(parts[0], SendParts(parts[1..], Later(replies), repaired).wire, Joined(parts[1..]));
      }
    }
  }

  lemma AfterCommon(a: seq<Byte>, s: seq<Byte>, t: seq<Byte>)
    ensures IsPrefix(a + s, a + t) <==> IsPrefix(s, t)
  {
    if |s| <= |t| {
      assert (a + t)[..|a + s|] == a + t[..|s|];
      assert (a + s)[|a|..] == s && (a + t[..|s|])[|a|..] == t[..|s|];
    }
  }

  function Uniform(lens: seq<nat>, b: Byte): (parts: seq<seq<Byte>>)
    ensures Lengths(parts) == lens
  {
    seq(|lens|, i requires 0 <= i < |lens| => seq(lens[i], _ => b))
  }

  lemma {:induction false} UniformWire(lens: seq<nat>, b: Byte, replies: seq<Reply>)
    ensures var wire := SendParts(Uniform(lens, b), replies, false).wire;
            forall i :: 0 <= i < |wire| ==> wire[i] == b
    decreases |lens|
  {
    if lens != [] {
      assert Uniform(lens, b)[1..] == Uniform(lens[1..], b);
      UniformWire(lens[1..], b, Later(replies));
      if ReplyTo(replies).Takes? {
        var n := Min(ReplyTo(replies).limit, lens[0]);
        assert SendParts(Uniform(lens, b), replies, false).wire ==
               Uniform(lens, b)[0][..n] + SendParts(Uniform(lens[1..], b), Later(replies), false).wire;
      }
    }
  }

  lemma {:induction false} SkipScrambles(lens: seq<nat>, replies: seq<Reply>) returns (parts: seq<seq<Byte>>)
    requires Skips(lens, replies)
    ensures Lengths(parts) == lens && !IsPrefix(SendParts(parts, replies, false).wire, Joined(parts))
    decreases |lens|
  {
    var zeros := seq(lens[0], _ => 0 as Byte);
    var limit := ReplyTo(replies).limit;
    var rest: seq<seq<Byte>>;
    if limit < lens[0] {
      rest := Uniform(lens[1..], 1);
      UniformWire(lens[1..], 1, Later(replies));
      NothingMore(rest, Later(replies));
    } else {
      rest := SkipScrambles(lens[1..], Later(replies));
    }
    parts := [zeros] + rest;
    assert parts[1..] == rest && Lengths(parts) == lens by {
      assert forall i :: 0 < i < |lens| ==> |parts[i]| == lens[1..][i - 1];
    }
    var wire := SendParts(rest, Later(replies), false).wire;
    if limit < lens[0] {
      assert (zeros[..limit] + wire)[limit] == 1 && Joined(parts)[limit] == 0;
    } else {
      assert zeros[..lens[0]] == zeros;
      AfterCommon(zeros, wire, Joined(rest));
    }
  }

  // As it stands, a turn sends a prefix of the request whatever its bytes exactly under that condition.
  lemma SendExact(lens: seq<nat>, replies: seq<Reply>)
    ensures !Skips(lens, replies) <==>
            forall parts | Lengths(parts) == lens :: IsPrefix(SendParts(parts, replies, false).wire, Joined(parts))
  {
    if Skips(lens, replies) {
      var bad := SkipScrambles(lens, replies);
    } else {
      forall parts | Lengths(parts) == lens
        ensures IsPrefix(SendParts(parts, replies, false).wire, Joined(parts))
      {
        SentInOrder(parts, replies, false);
      }
    }
  }

  // A request of one extent, which is what write(const char*, size_t) makes, is never affected.
  lemma OneExtentNeverSkips(lens: seq<nat>, replies: seq<Reply>)
    requires |lens| <= 1
    ensures !Skips(lens, replies)
  {
    if lens != [] { assert lens[1..] == []; }
  }
}
