# A model of what-the-event: wake-ups, buffers and streams

This project models the three parts of *what-the-event* in which the most can go wrong, and states
what they guarantee:

1. **The notification queue** (`NotifyProtocol`, `NotifyInvariant`, `NotifyTheorems`, `NotifyCalls`,
   `NotifyProgress`, `NotifyWitness`, `MpscQueue`). Every shared-memory access of the lock-free
   queue's `push` and `pop`, and every token written to or read from the notification pipe, is a step
   of an interleaved system with any number of calling threads. The loop thread may itself push from
   an op or from the handler of another event. Freed addresses may be allocated again. Steps are
   sequentially consistent: the weaker C++11 orders annotated in the source are not modelled. `MpscQueue` has the same statements on real nodes,
   one operation at a time.
2. **The buffer** (`Extents`, `BufferHeap`, `BufferHistory`, `BufferDriver`). `BufferHeap` is the
   circular doubly linked list of extents around a sentinel, with real nodes and arrays, splicing
   between two buffers, and unlinking during reads. Each method is proved against a function on the list
   of extents (`Extents`), about which the byte-level laws are proved; `BufferHistory` and
   `BufferDriver` carry them to arbitrary histories on two buffers.
3. **Streams** (`Interest`, `Sending`, `StreamModel`, `StreamInvariant`, `StreamTheorems`,
   `StreamCallbacks`, `StreamHeap`, `BlockingModel`, `BlockingHeap`). The request list, the write helper with re-entrant
   callbacks and a kernel that may take any prefix or fail at any point, event interest, and the read
   helper under a blocking read.

## Code and documentation

Where the code does something other than its interface or its comments say, the model has a parameter
`repaired`. `false` is the code as it stands, `true` is the code with the lines below put right. For
the code as it stands the exact condition under which it is right is proved; repaired, the property is
proved without conditions.

| where | what the code does | as written it is right exactly when | repaired |
|---|---|---|---|
| src/buffer.cc:36 | subtracts the wrong way round, modulo 2^64 | no slack is left at the end by a `reserve`, or nothing is appended (`AppendExact`); on the fresh extent that append makes, up to 2^63 bytes (`FreshAppendExact`) | `AppendExact` |
| src/buffer.cc:147-148 | the source pointer never advances, and the loop's guard never holds | as above | `AppendExact` |
| src/buffer.cc:56, 185 | prepend copies to the start of the storage, and from the start of the data | nothing is in front of the first extent's data, or exactly as much as is to be prepended, or nothing is (`PrependExact`) | `PrependRepaired` |
| src/buffer.cc:246 | each extent is asked for `size` bytes, not for those still wanted | the cut does not fall inside an extent with data before it (`ReadExact`) | `ReadExact` |
| src/buffer-internal.h:88, src/buffer.cc:65, 73 | takes readable data to end with the storage, not at the write offset | every extent is full (`ViewsAgreeExactly`), which holds without `reserve` (`AsWrittenStaysFull`) | `ReserveExact`, `ExecuteRepaired` |
| src/buffer.cc:211 | unclamped subtraction | the slack at the end does not exceed what is asked for (`ReserveExact`) | `ReserveExact` |
| src/stream.cc:123 | the tail of the request list is not advanced | no more than two requests between two moments without any: for the list (`EnqueueExact`), the bytes (`AsWrittenConservation`) the callbacks (`NoRequestForgotten`) and what the destructor frees (`StreamImpl.Destroy`) | `WriteConservation`, `NoRequestForgotten` |
| src/stream.cc:380-382 | a short write does not end the loop over the extents | no short write is followed by one of which something is taken (`SendExact`); once wrong bytes have gone out it is never right again (`AsWrittenConservation`) | `SentInOrder` |
| src/stream.cc:145-156 | goes on to the read helper after the write helper, whose last callback may have freed the stream (src/stream.cc:399-402) | the event is not `READ_WRITE` (`FreeingIsSafeExactly`) | not modelled |
| src/wte/what.h:51-52, 61-62 | `READ_WRITE` loses a bit | the interest to add to is not `READ_WRITE` (`EnsureExact`); for a stream, no call adds a bit to `READ_WRITE` while the other bit is needed (`CallLosesInterest` for each call, `AsWrittenInterest` for every run) | `InterestKept` |
| src/libevent_event_base.cc:317-345 | documented in src/wte/event_base.h:97-102 as a way to synchronize: a loop thread that defers an op and waits for it waits for itself | the loop thread never makes that call (`RestsExactly`) | not modelled |
| src/stream.cc:301-310 | src/wte/blocking_stream.h:65 promises a short read at the end of the file; but what earlier calls left over is only handed on together with something new, so a call that meets the end first returns nothing, and one that nothing arrives for waits although there is enough | something arrives, nothing was left over, or nothing is asked for (`LeftoverNeedsArrival`) | not modelled |

Preconditions taken from the callers' side: no buffer is spliced onto itself, no write is empty, and no
object is larger than 2^63 - 1 bytes, and what is held at one time fits a 64-bit address space.

## Model

| member | source | states |
|---|---|---|
| NotifyInvariant.StepInv | src/mpsc_queue.h:85-136 | Every step of every thread keeps the whole invariant: chain shape, live nodes, uses of addresses, pending answers, order, outcomes, and accounted wake-ups |
| NotifyInvariant.ReachableInv | src/mpsc_queue.h:85-136 | The invariant holds after every interleaving |
| NotifyInvariant.FirstCheckExact | src/mpsc_queue.h:94-98 | The first look at the tail compares live nodes only: it answers true exactly when the pushed op is then the oldest one unpopped |
| NotifyInvariant.PopExact | src/mpsc_queue.h:121-129 | `pop` comes back empty exactly when everything is popped or the oldest unpopped op's producer is between exchange and publish |
| NotifyTheorems.BlockedLoopWillBeWoken | src/libevent_event_base.cc:347-412 | No lost wake-up: if the loop is blocked with ops unpopped, a token is in the pipe or some thread is bound to write one |
| NotifyTheorems.ObligedThreadSignals | src/mpsc_queue.h:98-117 | A thread so bound writes its token within four of its own steps while the loop stays blocked, whatever the others do |
| NotifyTheorems.QuiescenceMeansAllRan | src/libevent_event_base.cc:389-412 | With no call under way, a blocked loop and an empty pipe mean every op has run, every waiter may return and only the dummy node is allocated, although one read takes up to eight tokens |
| NotifyTheorems.FifoInExchangeOrder | src/mpsc_queue.h:89-90 | Popped ops are a prefix of the ops in `head_` exchange order, and each caller's ops are in call order |
| NotifyTheorems.HistoryOnlyGrows | src/mpsc_queue.h:85-136 | Neither order is ever revised by later steps |
| NotifyTheorems.NothingRunsTwice | src/libevent_event_base.cc:402-412 | No op runs twice, queued or immediate |
| NotifyTheorems.ReturnsOnlyAfterItsOpRan | src/libevent_event_base.cc:317-345 | `runOnEventLoopAndWait`, and an immediate `runOnEventLoop`, return true only after the op has run exactly once and is not the one still running |
| NotifyTheorems.SafeReclamation | src/mpsc_queue.h:87-101 | No step touches freed memory; the node at `head_` is never freed and has a null `next`; a producer's predecessor is allocated, unlinked and the node it exchanged out |
| NotifyTheorems.FaultsAreRecorded | src/mpsc_queue.h:85-136 | A step that goes through a pointer to what is not allocated, or takes data twice, is recorded as a fault, and nothing else is |
| NotifyTheorems.EveryAccessIsLive | src/mpsc_queue.h:85-136 | No step of any run does |
| NotifyTheorems.NothingLeaks | src/mpsc_queue.h:123-135 | Outside a call's first step and a pop, the allocated nodes are exactly the chain from the tail on |
| NotifyTheorems.DestructorFreesAll | src/mpsc_queue.h:53-56 | After any interleaving that has left no call under way, the destructor frees every node, touches none that is not allocated, and takes every op left, in order |
| NotifyTheorems.EmptyAtInsertIsReported | src/mpsc_queue.h:58-67 | A push whose exchange finds all earlier ops popped returns true, whatever happens before it gets its answer |
| NotifyTheorems.SecondCheckNeverMisses | src/mpsc_queue.h:106-114 | The second look at the tail answers true whenever the pushed op is the oldest one left, reused addresses or not |
| NotifyTheorems.UninterruptedPush | src/mpsc_queue.h:86-118 | Without interference `push` answers exactly whether everything earlier has been popped |
| NotifyWitness.RecycledAddressAnswersTrue | src/mpsc_queue.h:106-114 | There is a run in which the second look compares against a recycled address and answers true for an op popped long before |
| NotifyWitness.LoopWaitsForItself | src/libevent_event_base.cc:317-345 | There is a run in which a handler on the loop thread defers an op, waits for it, and the loop thread waits for itself |
| NotifyCalls.CallIsOverExactly | src/libevent_event_base.cc:301-345 | In every reachable state each call ever made has returned true if and only if its caller is no longer inside it |
| NotifyCalls.IdleHasWaited | src/libevent_event_base.cc:341-344 | A thread outside any call has had every op that it waited for run, once and to its end |
| NotifyCalls.WhatACallComesTo | src/libevent_event_base.cc:301-345 | From its beginning, over every run: the caller is inside the call with its op until the call returns; then the op is queued, and if the call waits it has been run to its end |
| NotifyCalls.InlineRunsAtOnce | src/libevent_event_base.cc:301-322 | A call on the loop thread that does not defer has run its op when it returns, and queues nothing |
| NotifyCalls.PushIsWaitFree | src/mpsc_queue.h:85-118 | Whatever the others do and wherever they stop, a thread inside `push` can take its next step, and is out, token written, after five of its own at most |
| NotifyCalls.TokensReadExactly | src/libevent_event_base.cc:347-363 | p tokens are used up by exactly (p + 7) / 8 reads while none is written, and in every run none is lost and none read that was not written |
| NotifyProgress.StuckExactlyAtRest | src/libevent_event_base.cc:263-283 | Unless the loop thread waits for itself, no thread can carry on exactly when the loop is blocked, the pipe empty and every call answered |
| NotifyProgress.CarryingOnIsBounded | src/libevent_event_base.cc:402-412 | However they are scheduled, threads that only finish what they began do so within a bounded number of steps |
| NotifyProgress.EverythingPushedRuns | src/libevent_event_base.cc:402-412 | Carried on until nothing is left to do, every op pushed has run in order and every call ever made has returned true |
| NotifyProgress.EveryCallIsAnswered | src/libevent_event_base.cc:301-345 | As long as the loop thread never asks to wait for an op it defers, every run that cannot be carried on further is at rest with every op run in order and every call returned true |
| NotifyProgress.RestsExactly | src/libevent_event_base.cc:317-345 | A run that cannot be carried on further is at rest if and only if the loop thread has never asked to wait for an op it deferred; otherwise the loop thread waits for itself |
| NotifyProgress.NeverRestsAgain | src/libevent_event_base.cc:317-345 | After one such call no run comes to rest, however it goes on |
| NotifyProgress.SelfWaitIsForever | src/libevent_event_base.cc:317-345 | A loop thread that defers an op and waits for it is stuck for good |
| MpscQueue.ConcurrentMPSCQueue.Push | src/mpsc_queue.h:85-118 | On real nodes: the item goes to the end, and the answer is whether the queue was empty |
| MpscQueue.ConcurrentMPSCQueue.Pop | src/mpsc_queue.h:120-136 | The oldest item comes out, moved out of its node, and exactly the old tail is freed; nothing changes when empty |
| MpscQueue.ConcurrentMPSCQueue.Destroy | src/mpsc_queue.h:53-56 | Every node is freed, and none twice |
| Extents.FreshAppendExact | src/buffer.cc:36-40 | On the fresh extent that append makes, the reversed subtraction is harmless exactly up to 2^63 bytes |
| Extents.AppendExact | src/buffer.cc:135-151 | Append turns the view into view + data if and only if repaired, or there is no slack at the end, or nothing to append; repaired for every mix of slack and overflow |
| Extents.AppendAllocates | src/buffer.cc:135-151 | Repaired, append allocates nothing if the data fit the slack, and else one extent of just the rest, behind a last extent that is then full |
| Extents.AppendOnFull | src/buffer.cc:135-151 | With every extent full, append adds a full extent, and the view becomes view + data |
| Extents.ViewsAgreeExactly | src/buffer-internal.h:79-89 | The code as it stands reads what it would if it stopped at the write offset if and only if every extent is full |
| Extents.PrependView | src/buffer.cc:169-190 | What prepend, as written or repaired, puts in front of the old view, for every mix of space and overflow |
| Extents.PrependExact | src/buffer.cc:49-62 | As written prepend is right for all data of a length if and only if `PrependSafe` |
| Extents.PrependRepaired | src/buffer.cc:169-190 | Repaired, the view becomes data + view |
| Extents.PrependAllocates | src/buffer.cc:169-190 | Prepend allocates nothing if the data fit in front, and else one extent of just the rest; nothing else moves |
| Extents.DrainFrees | src/buffer.cc:85-99 | Drain frees an extent if and only if there is something left to drain when its turn comes and all it holds goes; of the others only the first changes, in its read offset |
| Extents.ReadFrees | src/buffer.cc:242-270 | A clean read leaves the very extents that a drain of as much leaves |
| Extents.DrainExact | src/buffer.cc:85-99 | Drain removes exactly the first min(count, length) bytes and keeps extents full |
| Extents.ReadConserves | src/buffer.cc:242-270 | As written or repaired, what read delivers followed by what it leaves is what was there |
| Extents.ReadExact | src/buffer.cc:242-270 | Read delivers exactly the first min(size, length) bytes if and only if repaired or the cut is clean; otherwise more than was asked for |
| Extents.PeekThenDrainIsRead | src/buffer.cc:272-275 | A copying peek returns what read would, and draining that many bytes leaves what read would |
| Extents.PeekExtentsExact | src/buffer.cc:278-291 | The extents handed out are non-empty and together the first min(size, length) bytes |
| Extents.PeekedThenDrained | src/buffer.cc:278-291 | Draining any part of what the peeked extents cover removes precisely its first bytes |
| Extents.ReserveMakesRoom | src/buffer.cc:208-217 | When reserve succeeds; and then the slack does, or one extent is added and slack and new room are exactly what was asked for, with nothing else changed |
| Extents.ReservedAppend | src/buffer.cc:208-217 | Repaired, data for which room has been reserved are appended without an allocation if and only if the room is in one place or they fit what has been added |
| Extents.ReserveExact | src/buffer.cc:208-217 | Repaired, reserve always succeeds and leaves the view alone; as written it succeeds exactly when the slack does not exceed the request, and the code then reads the new storage as well |
| BufferHeap.InternalExtent.Append | src/buffer.cc:34-47 | On the array: appends as many bytes as the space reckoned with allows, or finds that they run past the end |
| BufferHeap.InternalExtent.Prepend | src/buffer.cc:49-62 | On the array: the copy and the new read offset |
| BufferHeap.SpliceBefore | src/buffer.cc:105-111 | Splicing a chain before the sentinel gives a well-formed ring of both, in order |
| BufferHeap.SpliceAfter | src/buffer.cc:118-124 | The same after the sentinel |
| BufferHeap.BufferImpl.Unlink | src/buffer.cc:91-95 | Unlinking takes exactly the first node out of the ring, and it and its storage out of what is allocated |
| BufferHeap.BufferImpl.Drain | src/buffer.cc:85-99 | Ends for every count and list, zero-length extents included; the extents are those of `Drained`, the size goes down by min(count, length), and what stays allocated is what is in the ring |
| BufferHeap.DrainAll | src/buffer.cc:81-83 | Draining more than there is leaves no extent, not even an empty one |
| BufferHeap.BufferImpl.Destroy | src/buffer.cc:81-83 | The destructor leaves no extent behind and none allocated |
| BufferHeap.BufferImpl.Append | src/buffer.cc:135-151 | The loop's list is that of `AppendTo`, and the cached size grows by the data |
| BufferHeap.BufferImpl.AppendBuffer | src/buffer.cc:157-167 | The other buffer's extents follow this one's, the other is empty, well formed and reusable, no node is shared, and none is lost or gained |
| BufferHeap.BufferImpl.PrependBuffer | src/buffer.cc:196-206 | The same in front |
| BufferHeap.BufferImpl.Prepend | src/buffer.cc:169-190 | The loop's list is that of `PrependTo` |
| BufferHeap.BufferImpl.Read | src/buffer.cc:242-270 | Output and remaining ring are those of `ReadLoop`: exactly the exhausted nodes are unlinked, and what stays allocated is what is in the ring |
| BufferHeap.BufferImpl.ReadInto | src/buffer.cc:238-270 | In the caller's array: what `ReadLoop` delivers is stored and nothing else changes, unless it runs past the end; with exactly the room asked for it does so if and only if as written an extent is cut |
| BufferHeap.BufferImpl.Peek | src/buffer.cc:272-275 | Returns what `PeekLoop` says and changes nothing |
| BufferHeap.BufferImpl.PeekParts | src/buffer.cc:278-291 | Hands out pointers into storage that stays in the buffer, at the bytes that `PeekExtents` says, and changes nothing |
| BufferHeap.BufferImpl.Reserve | src/buffer.cc:208-217 | Fails exactly when what is missing cannot be allocated, or as written the slack exceeds the request; else, if the slack falls short, an empty extent with exactly the missing room is added |
| BufferHistory.StepRefines | src/buffer-internal.h:37-58 | Every operation on two buffers does to the bytes what it should, always repaired, and as written when safe |
| BufferHistory.HistoryRefines | src/buffer.cc:85-291 | Any history on two buffers is one on two byte sequences, outputs and sizes included |
| BufferHistory.AsWrittenStaysFull | src/buffer.cc:85-291 | As written, any history without reserve keeps every extent full, so that readable data end at the write offset, and the cached size is their number |
| BufferHistory.UnsafeOverdelivers | src/buffer.cc:242-275 | As written, a read or peek outside its condition returns more than was asked for, without fail |
| BufferDriver.Execute | src/buffer.cc:85-291 | On real nodes, any history leaves both buffers well formed and disjoint, with the contents and outputs of the byte sequences |
| BufferDriver.ExecuteRepaired | src/buffer.cc:85-291 | Repaired, the same for histories with reserve, which leaves the bytes as they are |
| Interest.EnsureExact | src/wte/what.h:46-74 | `ensureWrite` and `ensureRead` add their bit and keep the other exactly unless both are set; `removeWrite` always keeps READ |
| Interest.RegisterSetsInterest | src/libevent_event_base.cc:500-544 | Whatever was registered, what is watched afterwards is what was asked for; NONE unregisters |
| Sending.SentLength | src/stream.cc:371-387 | Never more than there is goes out, and all of it exactly when the kernel neither stopped nor failed |
| Sending.SendOutcome | src/stream.cc:375-393 | A turn fails if and only if some write that is made fails, and is blocked if and only if some write that is made is cut short |
| Sending.SentAmount | src/stream.cc:375-389 | On the wire there is as much as the kernel said it took, write by write |
| Sending.SentInOrder | src/stream.cc:375-387 | Repaired, or if no short write is followed by another, what goes out is a prefix of the request |
| Sending.SendExact | src/stream.cc:375-387 | As written that condition is necessary: otherwise some request of the same extents goes out scrambled |
| Sending.OneExtentNeverSkips | src/stream.cc:158-161 | A request of one extent is never affected |
| StreamModel.EnqueueExact | src/stream.cc:117-125 | As written a request is appended as it should exactly if it is at most the second since the list was last empty |
| StreamInvariant.TurnSends | src/stream.cc:368-393 | The helper's assertion holds; sent and left make up the request; the turn stops exactly when something is left |
| StreamInvariant.CallInv | src/stream.cc:170-206 | Every write, startRead and stopRead keeps the invariant |
| StreamInvariant.HelperInv | src/stream.cc:363-417 | So does every run of the helper, with any kernel and any calls made by its callbacks |
| StreamTheorems.WriteConservation | src/stream.cc:194-206 | Repaired: after every run, wire + pending requests = everything written |
| StreamTheorems.AsWrittenConservation | src/stream.cc:113-139 | As written no byte is missing if and only if no busy period has had a third request; all are there in order if and only if, besides, no turn ever sent other bytes than the next of its request; and then no store went through a tail left behind |
| StreamTheorems.PlainWritesConserved | src/stream.cc:194-200 | As written, with writes of plain bytes only, wire + pending = written if and only if no busy period has had a third |
| StreamTheorems.LossIsForever | src/stream.cc:117-125 | After a third request in a busy period bytes stay missing, and a request stays neither done nor pending, for ever |
| StreamTheorems.ThirdWriteDropsSecond | src/stream.cc:117-125 | Of any three writes made at once the second is lost |
| StreamTheorems.CompletionDiscipline | src/stream.cc:389-415 | Completions come once per request, in submission order, when exactly the bytes up to its end are out; the last without write interest; and a completion or an error is always about the oldest request not yet done |
| StreamTheorems.NoRequestForgotten | src/stream.cc:117-138 | Every request ever made is completed or pending, always repaired, and as written if and only if no busy period has had a third |
| StreamTheorems.NothingAfterLastCallback | src/stream.cc:395-417 | In any run of the helper nothing follows the last request's callback, no event and no byte, and a stream freed in the run is freed there |
| StreamTheorems.FreedInLastCallback | src/stream.cc:399-402 | Over every run, a stream that has been freed was freed in the callback of its last request, after its last byte and without write interest |
| StreamTheorems.FreeingIsSafeExactly | src/stream.cc:145-156 | Handling an event is safe whatever the last callback does if and only if the event is not READ_WRITE |
| StreamTheorems.AllGetsSent | src/stream.cc:363-417 | One readiness event sends every pending request if the kernel takes them and the callbacks make no calls, and drops write interest |
| StreamTheorems.AllPendingGetDone | src/stream.cc:363-417 | Repaired, it completes every request that was pending when it came, or as many as it has turns, whatever the callbacks write meanwhile |
| StreamTheorems.InterestKept | src/stream.cc:397-404 | Repaired: requests pending implies WRITE watched, a read callback implies READ watched |
| StreamTheorems.CallLosesInterest | src/stream.cc:170-206 | A call, by a client or a callback, loses interest that is needed if and only if, as written, it adds a bit to READ_WRITE while the other is needed: a write while there is a read callback, or a new read callback while requests are pending |
| StreamTheorems.AsWrittenInterest | src/stream.cc:170-206 | Over every run, callbacks' calls included: the interest needed has been there at every point, always repaired, and as written if and only if no call was of that kind |
| StreamTheorems.ReadingLeavesWrites | src/stream.cc:170-192 | startRead and stopRead leave WRITE alone, as written exactly unless a new callback finds both bits set; stopRead drops READ only if WRITE is watched too |
| StreamTheorems.WritesLeaveReading | src/stream.cc:194-206 | Writing, sending and completing leave READ alone, as written exactly unless both bits were set |
| StreamCallbacks.TurnReports | src/stream.cc:366-415 | What one turn reports: the failure, nothing if it was cut short, or the completion of the front request; and whether there is a next |
| StreamCallbacks.FailuresAreReported | src/stream.cc:363-417 | Over every run of the helper: if the kernel fails in the last turn taken, the request then in front is reported to have failed, once and last; otherwise no failure is reported |
| StreamCallbacks.StopsAtOnce | src/stream.cc:391-393 | A turn that fails or is cut short is the last |
| StreamCallbacks.FreedExactly | src/stream.cc:399-408 | The stream is freed if and only if the completion callback of the last request is made and frees it |
| StreamCallbacks.EveryCallTakesEffect | src/stream.cc:170-206 | Over every run, with re-entrant callbacks: what was given to the stream is what the calls wrote, each write is one request with its end and its callback, and the read callback is the last one set |
| StreamCallbacks.StraysExactly | src/stream.cc:117-125 | As written a write stores through a tail left behind if and only if it finds a single request that was not the first of its busy period |
| StreamHeap.Requests.Append | src/stream.cc:117-125 | On real nodes the list becomes that of `Enqueue`; says whether the store went through a tail left behind into a deleted request |
| StreamHeap.Requests.ConsumeFront | src/stream.cc:127-138 | Takes the first node off, deletes exactly that one, and returns the next |
| StreamHeap.Requests.ConsumeAll | src/stream.cc:284-289 | The destructor's sweep deletes every request in the list, each once, and nothing else; repaired none stays allocated |
| StreamHeap.SendExtents | src/stream.cc:375-387 | The loop over the extents sends and reports what `SendParts` says |
| StreamHeap.StreamImpl.Write | src/stream.cc:194-206 | The object after write is that of `StreamModel.Write` |
| StreamHeap.StreamImpl.StartRead | src/stream.cc:170-176 | Likewise for startRead |
| StreamHeap.StreamImpl.StopRead | src/stream.cc:178-192 | Likewise for stopRead |
| StreamHeap.StreamImpl.WriteHelper | src/stream.cc:363-417 | The loop over the requests, callbacks included, does what `Helper` says; every access it makes is to a stream still alive, although its last callback may free it |
| StreamHeap.StreamImpl.Destroy | src/stream.cc:284-289 | Nothing is watched any more; as many requests stay allocated as were made and are neither done nor in the list: none if and only if repaired or no busy period has had a third request |
| StreamHeap.StreamImpl.Perform | src/stream.cc:145-206 | Any run on the object is the run on values, and keeps the invariant; if it ends with the stream freed, in whatever callback, nothing is watched and no request is left allocated but as said of the destructor |
| BlockingModel.HelperOutcome | src/stream.cc:291-324 | One event hands on all that was read up to the first read that did not fill the array of 4096 bytes; it reports an error if and only if that one failed, and the end of the file likewise |
| BlockingModel.CallOutcome | src/blocking_stream.cc:140-153 | A call goes on while it has less than asked for and no error or end of file; it throws if and only if its last event ended in an error, sees the end if and only if it ended there, and has received what its events delivered |
| BlockingModel.ReturnsExactlyWhen | src/blocking_stream.cc:144-150 | Repaired, or as written if the leftover fits: it has returned if and only if after some event the kernel has reported an error or the end, or delivered something with which there is enough, or nothing was asked for |
| BlockingModel.ReadCallConserves | src/blocking_stream.cc:140-153 | What a call stores and leaves is what was left over and what arrived |
| BlockingModel.SessionConserves | src/blocking_stream.cc:107-111 | Over any calls and any chunking, the pieces and the leftover are exactly the stream |
| BlockingModel.ReadCallExact | src/blocking_stream.cc:54-64 | Once something arrives a call stores exactly the first min(size, length) bytes, always repaired, and as written if the leftover fits; before that nothing |
| BlockingModel.LeftoverNeedsArrival | src/stream.cc:301-317 | A call stores the first min(size, length) bytes if and only if something arrived in it, nothing was left over, or nothing was asked for; without an arrival, an error or the end of the file it waits, whatever is left over |
| BlockingModel.EndOfFileFirst | src/stream.cc:306-311 | A call that meets the end of the file first returns nothing and leaves everything behind |
| BlockingModel.AsWrittenReadCall | src/blocking_stream.cc:107-111 | As written a call never stores more than asked for if and only if the leftover fits |
| BlockingHeap.BlockingReadCallback.Available | src/blocking_stream.cc:107-111 | On a real buffer: the callback takes what `ReadLoop` gives for the bytes still wanted |
| BlockingHeap.BlockingStreamImpl.ReadHelper | src/stream.cc:291-324 | The read loop does what `BlockingModel.ReadHelper` says; the flags of the callback tell an error from the end of the file |
| BlockingHeap.BlockingStreamImpl.Read | src/blocking_stream.cc:140-153 | The call returns what `BlockingModel.Read` says, throws if and only if its last event ended in an error, and no byte is lost |

## Left out

- libevent, sockets, pipes and error numbers: the kernel takes a prefix, blocks or fails as it likes; the pipe is an unbounded counter, so signal failure, a full pipe and the eventfd branch do not occur.
- Weak memory orders: sequential consistency is an assumption.
- `stop()`, the `await_` handshake, and who runs ops when no loop is running: they depend on check-then-act races, so there is no clean safety claim.
- `connect`, `connectHelper` and the connection listener: thin sequences of socket calls.
- `close()`, and freeing the stream from inside any callback but the last completion.
- The second `reserve`, which hands out the reserved storage: no operation commits what is written there.
- BufferHeap.BufferImpl.PeekParts: how long the storage pointed into stays allocated is said only through what Drain, Read and the destructor keep.
- BufferHeap.BufferImpl.ReadInto: a copy past the end of the caller's array is reported; what it does is undefined, and nothing is said of the array then. BufferHeap.BufferImpl.Read returns what is stored from the caller's pointer on.
- MpscQueue.ConcurrentMPSCQueue.Push: not interleaved with other operations; that is NotifyProtocol's subject.
- MpscQueue.ConcurrentMPSCQueue.Pop: likewise.
- StreamHeap.StreamImpl.Write: a request's buffer is the list of its extents, whose operations BufferHeap has on real nodes; the two are not joined on one heap. That the buffer given to write is left empty is BufferHeap.BufferImpl.AppendBuffer.
- StreamHeap.Requests.Append: as written, a tail left behind points at a deleted request. What the store through it does is undefined; it is noted as `strayed`, and modelled as having no effect on the list.
- StreamTheorems.LossIsForever: what is said of the time after a stray store rests on that.
- StreamTheorems.AllGetsSent: callbacks make no calls here; AllPendingGetDone is about those that do.
- StreamTheorems.FreeingIsSafeExactly: the read helper that follows on READ_WRITE is in BlockingModel, not on the same state.
- BlockingHeap.BlockingStreamImpl.Read: one blocking read at a time; a blocking write between two reads, which would run the loop with the earlier read's callback still set, is not modelled. Neither is `BlockingStreamImpl::write`.
- `Optional`, `CacheAligned`, timeouts, `EventHandler` accessors, build files and examples: storage tricks or one-branch members.
