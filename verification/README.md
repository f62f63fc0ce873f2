# Verified model of the ring logger

This project models the core of a packet logger and proves that it works: the lock-free ring
that carries packets between threads, the reader/writer spin lock, the logger that turns queued
packets into rotated files, a ring that hands over halves, and the line editor of the command
line.

To check it: `dafny verify dfyconfig.toml`.

## The parts

**The ring** (`buffer_ring.h`, `buffer_ring_c.h`) is modelled twice.

- `RingProtocol.dfy` is a step machine for any number of threads. A step is one access to shared
  memory: read the own head, read the opposite tail, exchange or store the head, copy one element,
  test the own tail, store the own tail. All counters are 32-bit words that wrap; slots are chosen
  by masking. A second machine makes the same decisions, on words, but counts in unbounded numbers
  and logs every claimed value. `RingRefinement.dfy` proves that on every schedule the 32-bit
  machine is its image. `RingInvariant.dfy` proves what the second machine keeps as long as each
  claim that goes through finds room at that moment, a condition that can be read off the 32-bit
  words and without which the ring is taken past its capacity. `RingQueue.dfy` and
  `RingProgress.dfy` draw the conclusions: an atomic bounded FIFO queue, linearizability call by
  call, justified refusals, no deadlock, and draining. `RingCalls.dfy` proves for every schedule what
  a call is granted and that it comes to a claim or an answer. `RingStale.dfy` leads a new ring,
  event by event, to what stale snapshots can do. The capacity may be anything below the size, so
  both files are covered.
- `BuffRing.dfy` is the class with its array, its counters and the real copy loops, as one thread
  uses it, refined against a bounded sequence. `RingSolo.dfy` ties the two models: a call that runs
  alone in the 32-bit step machine ends where the class's methods end. `RingCopy.dfy` and
  `Words.dfy` hold the slot and 32-bit arithmetic of both models, `Sizing.dfy` the power-of-two
  rounding.

**The lock** (`rwlock.h`): `RwLock.dfy` has the class, a step machine over loads and exchanges, and its
safety; `RwLockProgress.dfy` what it grants.

**The logger** (`logger.cpp`): `LogText.dfy` is the value level (lines, files, rotation, whole runs),
`Rotation.dfy` when packets leave the ring, when files are written and when time-outs fire,
`PacketLine.dfy` the line format, `LineReader.dfy` a reader that gets the packets back from the text,
`Logger.dfy` the class on top of `BuffRing`, and `ConcurrentLog.dfy` puts the log behind the 32-bit
step machine: many threads push at any moment, and each rotation gets what a consumer has copied out
of the ring.

**The half ring** (`ring_buffer.h`): `HalfRing.dfy`, for `Put` and `GetHalf` in one thread, with the
exact point at which its comparisons stop being right.

**The command line** (`access_cmdline.cpp`): `Terminal.dfy` is a terminal row fed with the bytes that
are written, `Editor.dfy` the key-by-key state machine and its image on that row, `EditorKeys.dfy` what
each key and series of keys do to text, cursor, history and returned line, `Hints.dfy` the
completion, `Listing.dfy` the list of matches, `History.dfy` the history file, `CommandLine.dfy` the
class, `Sessions.dfy` what one session leaves for the next.

## Results that differ from what the source's comments say

- `buffer_ring_c.h:203-206` says that `entries` is always at most the ring size minus one. A size
  computation sees what can be claimed plus the distance the head has moved since it was read, which
  gives the exact condition (`RingQueue.EntriesExact`). It holds for every claim that starts at the
  head that was read (`RingRefinement.ClaimSawTrueDistance`); a schedule from a new ring on which a
  consumer sees three entries in two slots is `RingStale.StaleEntriesExceed`.
- An exchange on a multi side can be fooled by a head that has moved by a multiple of 2^32
  (`RingRefinement.FooledMeansLapped`). That does no harm if the claim finds room at that moment
  (`RingStale.StaleCasFits`). If one does not, the ring is taken past its capacity: as long as no call
  asks for 2^32 - capacity elements or more, a new ring stays within its capacity on exactly the
  schedules in which every claim that goes through finds room (`RingQueue.OnlyRoomStaysWithin`). The
  condition is `RingRefinement.Roomy`, a test of the 32-bit words at each claim;
  `RingQueue.FreshRingIsRoomy` proves that young snapshots meet it, `RingQueue.SingleIsRoomy` that a
  single producer and a single consumer always do, and `RingStale.StaleCasOverruns` leads a new ring
  of capacity one, in a schedule of 2^32 enqueues, to hand out a second slot while the first is queued.
- A consumer whose snapshot the head has left behind by 2^32 can be told that there is nothing, although
  an element is queued (`RingStale.StaleRefusal`); refusals are right for calls that look in time
  (`RingQueue.RefusalIsJustified`).
- `RingBuff::Put` and `GetHalf` are right exactly while `rd + size` and `rd + size / 2` fit in a word
  (`HalfRings.PutTestIsExact`, `HalfRings.HalfTestIsExact`); every ring can be led to the point where
  it is empty and refuses (`HalfRings.EmptyRingRefuses`).
- `have_space` in `compareHints` is never reset, so a single-word hint that follows a hint of two
  words is not offered (`Hints.StickyFlag`, with the exact condition, and `Hints.StickyFlagDrops`).
- The list of matches for a two-word command is meant to leave out the main command. The first
  occurrence is erased each time, which may lie in the rest of an earlier match
  (`Listing.ListingIsShortened`, with the exact condition, and `Listing.ListingCanMiss`).
- The 32-bit product of the time-out test can wrap; exactly if it does not (or wraps to the largest
  word) the test is right at every time (`Rotation.TimeOutTestIsExact`).
- An unknown key prints over the edited row (`Editors.UnsupportedKey`).

## Model

| member | source | states |
|---|---|---|
| `Sizing.IsPowerOf2Correct` | buffer_ring.h:7-11 | The bit test holds exactly of the powers of two. |
| `Sizing.RoundupPowerOf2` | buffer_ring.h:13-23 | The result is the least power of two that is at least the argument, for arguments up to 2^31. |
| `RingCopy.SlotIsModulo` | buffer_ring.h:37-59 | Stepping a slot index around the end is addition modulo the size, for the masked counter and the counter itself. |
| `RingCopy.SplitFour` | buffer_ring.h:40-53 | The unrolled runs of four and the switch together copy exactly `n` elements. |
| `RingCopy.PutHit` | buffer_ring.h:34-60 | After the copy each of the `n` slots behind the start holds its element, so no two elements share a slot. |
| `RingCopy.PutMiss` | buffer_ring.h:34-60 | The copy changes no other slot. |
| `RingCopy.PutExtends` | buffer_ring.h:34-60 | A batch copied behind a queue leaves the queue in place and extends it by the batch, around the end or not. |
| `RingCopy.HoldsDrop` | buffer_ring.h:62-88 | A queue without its first `n` elements is the queue that starts `n` slots further on. |
| `BuffRings.AfterEnqueue` | buffer_ring.h:180-196 | Copying `n` elements at the masked tail and moving the tail appends them to the queue between the tails, across a 2^32 wrap. |
| `BuffRings.AfterDequeue` | buffer_ring.h:203-218 | Moving the consumer tail by `n` removes the `n` oldest elements, across a 2^32 wrap. |
| `BuffRings.LoopSlotIsStepSlot` | buffer_ring.h:37-59 | The slot that the copy loops visit for element `i` is the one the step machine uses. |
| `BuffRings.BuffRing.constructor` | buffer_ring.h:100-114 | The new ring is empty, its size is the least sufficient power of two, its capacity is one less. |
| `BuffRings.BuffRing.EnqueuePtrs` | buffer_ring.h:34-60 | The unrolled copy with its fall-through switch and the split copy both equal the simple loop over slots modulo the size, in bounds, for every head and every `n` below the size. |
| `BuffRings.BuffRing.EnqueueStraight` | buffer_ring.h:39-53 | The unrolled path equals the simple loop. |
| `BuffRings.BuffRing.EnqueueAround` | buffer_ring.h:54-59 | The two loops around the end equal the simple loop. |
| `BuffRings.BuffRing.DequeuePtrs` | buffer_ring.h:62-88 | Both read paths fill the buffer with the ring's elements in order and leave the rest of the buffer and the ring alone. |
| `BuffRings.BuffRing.DequeueStraight` | buffer_ring.h:67-81 | The unrolled read path. |
| `BuffRings.BuffRing.DequeueAround` | buffer_ring.h:82-87 | The read path around the end. |
| `BuffRings.BuffRing.MoveProdHead` | buffer_ring.h:130-154 | Sees the true room, grants all or nothing (fixed) or what fits (variable), and moves the head by that much, on both kinds of side. |
| `BuffRings.BuffRing.MoveConsumerHead` | buffer_ring.h:156-178 | Sees the true number of elements, grants accordingly and moves the head by that much. |
| `BuffRings.BuffRing.UpdateTail` | buffer_ring.h:120-128 | Called when it is this claim's turn, it moves the tail over the claim. |
| `BuffRings.BuffRing.DoEnqueue` | buffer_ring.h:180-196 | Refines a bounded queue: with room for all of the batch all of it is appended in order, and otherwise nothing when fixed and exactly what there is room for when variable; the free space reported is the room left. |
| `BuffRings.BuffRing.DoDequeue` | buffer_ring.h:203-218 | Refines a bounded queue: with `n` elements queued exactly `n` are taken, and otherwise none when fixed and all when variable; the buffer gets the oldest elements in order, and the number reported is what is left. |
| `BuffRings.BuffRing.RingCount` | buffer_ring.h:220-226 | The masked and clamped difference is the length of the queue. |
| `BuffRings.BuffRing.RingFreeCount` | buffer_ring.h:228-231 | The room left in the queue. |
| `BuffRings.BuffRing.RingFull` | buffer_ring.h:233-236 | True exactly when the queue is at capacity. |
| `BuffRings.BuffRing.RingEmpoty` | buffer_ring.h:238-241 | True exactly when the queue is empty. |
| `RingInvariant.InitInv` | buffer_ring.h:100-114 | A new ring meets the invariant: counter order, claims that tile from tail to head, stored values, and what each thread knows. |
| `RingInvariant.BeginStep` | buffer_ring.h:130-138 | Starting a call keeps the invariant. |
| `RingInvariant.LookStep` | buffer_ring.h:138-145 | Reading the own head, the opposite tail or the own tail keeps the invariant, however stale the reads are. |
| `RingInvariant.ClaimStep` | buffer_ring.h:147-151 | A claim that finds room keeps the counter order within the capacity and extends the tiling at the head, whatever its thread saw before. |
| `RingInvariant.WriteIsPrivate` | buffer_ring.h:34-60 | A slot of an outstanding producer claim is the slot of no other index that is still in use. |
| `RingInvariant.WriteStep` | buffer_ring.h:40-53 | Writing one element keeps every published value and every other claim's values. |
| `RingInvariant.TakenValue` | buffer_ring.h:62-88 | A consumer reads from its slot the value that was claimed for its index. |
| `RingInvariant.CopyStep` | buffer_ring.h:34-88 | Copying one element keeps the invariant on both sides. |
| `RingInvariant.WaitIsExact` | buffer_ring.h:120-128 | The test `tail != old_val` on words decides whether all earlier claims are published. |
| `RingInvariant.PublishStep` | buffer_ring.h:120-128 | A tail moves over one whole claim, in claim order, and everything below the producer tail is written. |
| `RingInvariant.StepKeepsInv` | buffer_ring.h:120-218 | Every single step of every thread keeps the invariant, if a claim that it makes finds room. |
| `RingInvariant.InvariantHolds` | buffer_ring.h:120-218 | Every schedule in which each claim that goes through finds room keeps cons.tail <= cons.head <= prod.tail <= prod.head <= cons.tail + capacity, and the rest of the invariant. |
| `RingInvariant.OrderExactly` | buffer_ring.h:120-218 | That order holds after every event of a schedule if and only if each claim that goes through finds room; no bound on the calls is needed. |
| `RingRefinement.LookCommutes` | buffer_ring.h:138-145 | The size computation and the tail test on words decide as the ones on unbounded counters seen as words. |
| `RingRefinement.ClaimCommutes` | buffer_ring.h:147-152 | Store and exchange of the head act as on unbounded counters, fooled or not. |
| `RingRefinement.SlotCommutes` | buffer_ring.h:37-59 | Masking the wrapped head selects the slot of the unbounded index. |
| `RingRefinement.PublishCommutes` | buffer_ring.h:120-128 | Storing the wrapped tail, and the count reported to the caller, are the images of the unbounded ones. |
| `RingRefinement.StepCommutes` | buffer_ring.h:120-218 | Each 32-bit step is the image of the step on unbounded counters. |
| `RingRefinement.NextCommutes` | buffer_ring.h:120-218 | So is each event of a schedule, a call that starts included. |
| `RingRefinement.RunRefines` | buffer_ring.h:120-218 | Across any number of 2^32 wraps every schedule of the 32-bit ring, without a condition, ends in the image of the unbounded ring's state. |
| `RingRefinement.RefinesAt` | buffer_ring.h:120-218 | The same after each event of the schedule. |
| `RingRefinement.RoomIsExact` | buffer_ring.h:138-151 | Whether a claim finds room can be read off the 32-bit words: the word test is the unbounded one. |
| `RingRefinement.RoomyKeepsInv` | buffer_ring.h:120-218 | On a schedule that meets the word test at each claim the invariant holds and the 32-bit ring is its image. |
| `RingRefinement.FooledMeansLapped` | buffer_ring.h:150-151 | A claim goes through at another head than the one read only on a multi side whose head has moved by a multiple of 2^32. |
| `RingRefinement.FreshIsRoomy` | buffer_ring.h:136-152 | Schedules in which no multi-side snapshot grows older than 2^32 - capacity claims find room at each claim. |
| `RingRefinement.SingleIsFresh` | buffer_ring.h:148-149 | With a single producer and a single consumer every schedule keeps its snapshots young. |
| `RingRefinement.ClaimStaysWithin` | buffer_ring.h:147-151 | A claim that goes through leaves the 32-bit ring within its capacity if and only if there was room for it. |
| `RingRefinement.WithinExactly` | buffer_ring.h:120-218 | The 32-bit ring stays within its capacity throughout a schedule if and only if each claim that goes through finds room, for calls of fewer than 2^32 - capacity elements. |
| `RingRefinement.ClaimSawTrueDistance` | buffer_ring_c.h:201-221 | A claim that starts at the head its thread read saw the true distance, in 32 bits as in unbounded numbers; it was at most the capacity, and there is room for the claim. |
| `RingStale.StaleEntriesExceed` | buffer_ring_c.h:203-207 | A schedule from a new ring on which a stalled consumer reads the opposite tail and sees three entries in two slots. |
| `RingStale.StaleRefusal` | buffer_ring.h:160-169 | A schedule from a new ring, in which every claim finds room, on which a consumer that looks 2^32 elements late is refused although one is queued. |
| `RingStale.StaleCasFits` | buffer_ring.h:150-151 | A schedule from a new ring on which an exchange fooled by a head moved by 2^32 goes through and finds room. |
| `RingStale.StaleCasOverruns` | buffer_ring.h:138-151 | A schedule from a new ring of capacity one in which every claim finds room, and one more step that does not: the stalled producer's exchange goes through, with one element queued and a second slot handed out. |
| `RingQueue.PushStep` | buffer_ring.h:180-196 | An enqueue takes effect at its tail store: one contiguous batch at the end of the queue, within capacity. |
| `RingQueue.PopStep` | buffer_ring.h:203-218 | A dequeue takes effect at its head move: the oldest elements leave the queue. |
| `RingQueue.SilentStep` | buffer_ring.h:120-218 | No other step changes the queue. |
| `RingQueue.StepIsQueueOp` | buffer_ring.h:120-218 | Each step of any thread is one legal operation of an atomic bounded queue, or none. |
| `RingQueue.RunIsQueueRun` | buffer_ring.h:120-218 | The effects of a whole schedule are a legal history of the atomic queue. |
| `RingQueue.HistoryConserves` | buffer_ring.h:180-218 | A legal history loses, invents and reorders nothing and stays within capacity. |
| `RingQueue.ResultIsBlock` | buffer_ring.h:180-218 | A returned call moved one contiguous block of the queue, and a consumer's buffer holds exactly that block. |
| `RingQueue.RingIsAtomicQueue` | buffer_ring.h:120-218 | For any number of threads, any interleaving in which each claim that goes through finds room, single or multi sides, fixed or variable calls: the 32-bit ring agrees with an atomic FIFO queue, and what was taken out is a prefix of what was put in. |
| `RingQueue.OnlyRoomStaysWithin` | buffer_ring.h:120-218 | The condition is necessary: a new ring stays within its capacity throughout a schedule if and only if each claim that goes through finds room, for calls of fewer than 2^32 - capacity elements. |
| `RingQueue.SingleIsRoomy` | buffer_ring.h:148-149 | A single producer and a single consumer meet the condition on every schedule. |
| `RingQueue.FreshRingIsRoomy` | buffer_ring.h:136-152 | Several producers or consumers meet it if no snapshot grows older than 2^32 - capacity claims. |
| `RingQueue.SingleRingIsAtomicQueue` | buffer_ring.h:120-218 | With a single producer and a single consumer the same for every schedule, without a condition. |
| `RingQueue.EffectIsActing` | buffer_ring.h:180-218 | An event has an effect on the queue exactly if its thread's call has acted after it and not before, so a call has at most one. |
| `RingQueue.CallActsOnce` | buffer_ring.h:180-218 | A call that moved elements has an event at which it acts: it runs there and has not acted, the effect is that of its batch, and ever since it is this same call, on one claim, that has acted. |
| `RingQueue.CallIsLinearizable` | buffer_ring.h:180-218 | On each schedule on which the ring is an atomic queue: a call of the 32-bit ring that returned n > 0 acted on that queue at an event inside this very call: an enqueue put its batch at the end there, a dequeue took, and returned, the n oldest elements of that moment. |
| `RingQueue.EveryIndexIsClaimed` | buffer_ring.h:120-178 | Every index between a tail and its head belongs to exactly one outstanding claim. |
| `RingQueue.ClaimsShareNoSlot` | buffer_ring.h:34-88 | Two outstanding claims, of the same or opposite sides, never share a slot. |
| `RingQueue.EntriesExact` | buffer_ring_c.h:203-207 | What a size computation sees on words is what can be claimed plus the distance the head has moved since it was read, so below 2^32 it is at most the capacity, or the mask, exactly if the head has moved by at most the difference. |
| `RingQueue.RefusedExactly` | buffer_ring.h:136-145 | A call is refused exactly if that is less than it needs: all of its elements in fixed mode, one in variable mode. |
| `RingQueue.RefusalIsJustified` | buffer_ring.h:136-145 | A call that returned 0 looked at the opposite tail at the event that ended this very call; if it looked before the window it sees reached 2^32, there were fewer elements to claim than it asked for, and none in variable mode, however stale its head read was. |
| `RingQueue.RealRefusalIsJustified` | buffer_ring.h:160-169 | What a caller of the 32-bit ring sees as a refusal was one, if it looked in time: the thread has stood at this result since that read. |
| `RingQueue.FreshIsInTime` | buffer_ring.h:136-145 | A thread whose snapshot is young looks in time. |
| `RingProgress.SomeClaimMoves` | buffer_ring.h:120-128 | If a claim is outstanding, some claim of that side can copy, pass the wait loop or publish. |
| `RingProgress.MovingIsWork` | buffer_ring.h:120-128 | Each such step lowers the remaining work. |
| `RingProgress.OnlyClaimsAddWork` | buffer_ring.h:130-178 | No event other than a new claim raises it. |
| `RingProgress.ClaimAddsWork` | buffer_ring.h:147-152 | A new claim raises it by exactly its own copies, wait and store. |
| `RingProgress.MovesAreBounded` | buffer_ring.h:120-178 | In any schedule the events that move a claim, and the work left at the end, are together at most the work at the start and what new claims add. |
| `RingProgress.MovesWithoutClaims` | buffer_ring.h:120-128 | In any schedule without a new claim at most as many events move a claim as there was work at the start, however long the schedule is. |
| `RingProgress.Drain` | buffer_ring.h:120-128 | From every reachable state the claiming threads alone finish all claims within the measure. |
| `RingProgress.RealRingDrains` | buffer_ring.h:120-128 | In the 32-bit ring both tails then stand at their heads and no claim is left. |
| `RingProgress.FailureMeansRival` | buffer_ring.h:148-152 | A head that is no longer the one read was moved by another thread's claim on the same side: before that event it was the one read, and since then never, in one and the same attempt. |
| `RingProgress.RealFailureMeansRival` | buffer_ring.h:172-176 | On every schedule, when an exchange of the 32-bit ring is about to fail, a rival's claim has gone through since this attempt read the head. |
| `RingSolo.SoloEnqueue` | buffer_ring.h:180-196 | An enqueue that runs alone in the 32-bit step machine, from start to return, ends with the counters, slots and results that `DoEnqueue` promises. |
| `RingSolo.SoloDequeue` | buffer_ring.h:203-218 | A dequeue that runs alone ends with the counters, slots, buffer and results that `DoDequeue` promises. |
| `RingCalls.ResultsAreFair` | buffer_ring.h:138-178 | On every schedule a call takes what it asks for if its size computation saw as much, and otherwise nothing in fixed mode and all that it saw in variable mode; what it saw is what it took and what it reports as left. |
| `RingCalls.ResultHasLook` | buffer_ring.h:138-178 | Each result has a look: an event of this very call at which a size computation on the shared counters sees exactly that. |
| `RingCalls.CallClaimsOrReturns` | buffer_ring.h:136-152 | From any state, a call claims or returns within five steps of its own, a failed exchange with a new attempt included, if meanwhile nobody else moves the head of its side. |
| `RwLocks.RwLock.AtomicCAS` | rwlock.h:37 | The exchange succeeds exactly on the expected value. |
| `RwLocks.RwLock.ReadLock` | rwlock.h:25-39 | Called when no writer holds the lock, it adds one to the word. |
| `RwLocks.RwLock.ReadTrylock` | rwlock.h:41-61 | Adds one to the word and succeeds exactly if the word is not negative, and else changes nothing. |
| `RwLocks.RwLock.ReadUnlock` | rwlock.h:63-66 | Subtracts one from the word; what that means for the holds is `UnlockKeepsSafe`. |
| `RwLocks.RwLock.WriteLock` | rwlock.h:68-82 | Called when the word is 0, it makes the word -1. |
| `RwLocks.RwLock.WriteUnlock` | rwlock.h:84-87 | Adds one to the word; what that means for the holds is `UnlockKeepsSafe`. |
| `RwLocks.StepKeepsSafe` | rwlock.h:30-82 | Every load and every exchange of the acquiring loops keeps the count exact. |
| `RwLocks.UnlockKeepsSafe` | rwlock.h:63-87 | Every release by a holder keeps the count exact. |
| `RwLocks.LockIsSafe` | rwlock.h:25-87 | For fewer than 2^31 threads every run has either no writer and a count of the readers, or one writer, no reader and -1; and no read section sees the data change. |
| `RwLocks.WriterIsAlone` | rwlock.h:68-82 | While one thread writes no other reads or writes. |
| `RwLocks.ReaderCountFits` | rwlock.h:37 | Counting one more reader is exact if and only if the count is below 2^31 - 1. |
| `RwLocks.ReleasedIsZero` | rwlock.h:63-87 | The word is 0 exactly when nobody holds the lock. |
| `RwLocks.FreeLockIsTaken` | rwlock.h:30-82 | A waiting thread, reader or writer, takes a lock that nobody holds within three of its own steps, even with a stale value; for a lock with readers see `ReaderGetsIn`. |
| `RwLocks.FailureMeansChange` | rwlock.h:37-80 | An exchange that is about to fail was overtaken by another thread's change of the word since this very load, and has been stale ever since. |
| `RwLocks.RefusalMeansWriter` | rwlock.h:52-60 | A trylock refuses only if a writer held the lock at the look that ended this very call. |
| `RwLockProgress.ReaderGetsIn` | rwlock.h:30-38 | Readers do not exclude one another: with no writer, a read call whose lock word nobody changes is in after three steps of its own, however many readers there are and however stale its value is, and the readers are one more. |
| `RwLockProgress.TrylockAnswers` | rwlock.h:52-60 | A trylock that nobody disturbs answers after three steps of its own, and refuses exactly if a writer holds the lock. |
| `RwLockProgress.WriterGetsIn` | rwlock.h:73-81 | A write call that nobody disturbs takes a free lock within two steps of its own. |
| `RwLockProgress.CallIsKept` | rwlock.h:30-82 | On every schedule: a holder holds on until it releases, a blocking call asks until it holds, and only a trylock can be refused. |
| `RwLockProgress.ReleaseTakesOut` | rwlock.h:63-87 | A release takes its holder out and nobody else; after a writer's release nobody holds the lock. |
| `RwLockProgress.ReadSection` | rwlock.h:25-66 | Two steps lead into a read section beside any number of others, change nothing else but the count, and the release restores the lock. |
| `RwLockProgress.RefusedSection` | rwlock.h:41-61 | While a writer holds the lock, a trylock is refused and leaves the lock as it was. |
| `RwLockProgress.WriteSection` | rwlock.h:68-87 | Two steps lead into a write section on a free lock, and what it stores is all that is left of it after the release. |
| `HalfRings.RingBuff.constructor` | ring_buffer.h:43-50 | The new ring is empty and its size is the least sufficient power of two. |
| `HalfRings.RingBuff.Put` | ring_buffer.h:56-66 | Appends unless the ring is full, while `rd + size` fits in a word; beyond that it refuses always. |
| `HalfRings.RingBuff.GetHalf` | ring_buffer.h:68-80 | Hands over exactly the oldest half ring of items in order if there are as many, in one copy that stays inside the array, and nothing otherwise. |
| `HalfRings.PutOne` | ring_buffer.h:61-63 | Storing at the masked write index appends to the queue. |
| `HalfRings.AtHalfIsMultiple` | ring_buffer.h:69-73 | The read index selects the start or the middle of the array exactly when it is a multiple of half the size. |
| `HalfRings.NextHalf` | ring_buffer.h:73 | Advancing the read index by half the size leads to the other half, across the end of the array. |
| `HalfRings.TakeHalf` | ring_buffer.h:71-73 | The oldest half lies in one piece, and the rest starts at the next half. |
| `HalfRings.PutTestIsExact` | ring_buffer.h:57 | The comparison tells a full ring from one with room if and only if `rd + size` fits in a word. |
| `HalfRings.HalfTestIsExact` | ring_buffer.h:70 | The comparison tells whether half a ring is queued if and only if `rd + half` fits in a word. |
| `HalfRings.EmptyRingRefuses` | ring_buffer.h:56-80 | Every ring of two slots or more can be led, by `Put` and `GetHalf` from its creation, to a point where it is empty and `Put` refuses. |
| `PacketLine.AddressLength` | pcap.h:106-109 | A printed address has at most 15 characters. |
| `PacketLine.LineLength` | logger.cpp:144-159 | No line is longer than 83 bytes, and that length occurs. |
| `LineReader.ValueOfDecimal` | logger.cpp:150-157 | A printed number consists of digits, has by their places the number as its value, and no leading zero. |
| `LineReader.AddressReads` | pcap.h:106-109 | A printed address reads as four numbers below 256 with dots between them whose value, highest byte first, is the address. |
| `LineReader.LineReads` | logger.cpp:144-159 | The line of a packet reads back as that packet, field by field behind its own name: source and destination address, source and destination port. |
| `LineReader.LogReads` | logger.cpp:144-168 | The joined lines of any packets read back as those packets in order. |
| `LogText.AddLinesText` | logger.cpp:274-292 | The rotation loop moves text from buffer to files and adds the batch's lines, in order. |
| `LogText.RotateConserves` | logger.cpp:270-296 | One rotation loses and invents no text. |
| `LogText.RotateBound` | logger.cpp:270-296 | The pending text and every file stay within the rotation size plus one line; a call's files are all over the size and numbered from 0, or there is one time-out file with everything pending and the whole batch. |
| `LogText.CheckConserves` | logger.cpp:230-300 | A rotation with its dequeue keeps the whole of logged and queued text. |
| `LogText.NothingIsLost` | logger.cpp:119-300 | Over every sequence of pushes and rotations, files, pending text and queued packets' lines are together the lines of the accepted packets in acceptance order. |
| `LogText.FilesStayBounded` | logger.cpp:270-296 | The size bound holds throughout every run. |
| `Rotation.TakesOldest` | logger.cpp:257-265 | A call empties the queue if it holds at most 2^26 packets, and else takes exactly the 2^26 oldest; their lines, and no others, are logged. |
| `Rotation.EverythingIsLogged` | logger.cpp:257-296 | After a call that finds at most 2^26 packets queued, in any run, the queue is empty and the log holds every line accepted so far. |
| `Rotation.NoFileExactly` | logger.cpp:274-292 | The rotation loop writes no file if and only if the pending text and all lines but the last are within the rotation size. |
| `Rotation.TimeOutFile` | logger.cpp:274-296 | A time-out writes one file with everything that is pending and the whole batch if that text is within the size, and else leaves it at the files over the size, one at least. |
| `Rotation.SizeFile` | logger.cpp:274-292 | Without a time-out a file is written if and only if that text is over the size. |
| `Rotation.TimeOutFlushes` | logger.cpp:241-296 | After a time-out call that writes one file, in any run, every line accepted so far is in the files. |
| `Rotation.FilesHoldWholeLines` | logger.cpp:274-292 | Throughout every run each file, and the pending text, is made of whole lines. |
| `Rotation.TimeOutTestIsExact` | logger.cpp:241 | The time-out test on words is right at every time if and only if the product fits in a word, or wraps to the largest one. |
| `Rotation.CountsTimeOuts` | logger.cpp:241-245 | In any run the count is the number of time-outs that the clock readings alone give: at most one for each call, the next one once that many whole cycles have gone by. |
| `Rotation.FiresWhenDue` | logger.cpp:241-296 | The next call is a time-out if and only if more time has gone by than that many cycles, and then it writes a file. |
| `Rotation.FiredExactly` | logger.cpp:241-245 | The k-th time-out has fired by a call if and only if k is at most the number of calls, and at most the cycles begun by each call plus the calls made since. |
| `Rotation.KeepsPace` | logger.cpp:241-245 | With a call in every cycle the k-th time-out fires at the first call made more than k - 1 cycles after the start. |
| `Loggers.LoggerKeepsEveryLine` | logger.cpp:87-300 | For a logger from its creation, with the real line format: files, pending text and queued packets' lines are the lines of the accepted packets in order, and no file exceeds the rotation size plus 83 bytes. |
| `Loggers.LogReadsBack` | logger.cpp:87-300 | In every run from a logger's creation the line reader gets from files, pending text and queued packets' lines exactly the accepted packets, in order. |
| `Loggers.LoggerTimesOut` | logger.cpp:87-245 | For a logger from its creation, in any run: the next call is a time-out if and only if more time has gone by since the creation than the cycles of the time-outs that the clock readings give, and then it writes a file. |
| `Loggers.LoggedReadsBack` | logger.cpp:87-300 | After a call that finds at most 2^26 packets queued it gets them from the files and the pending text alone. |
| `Loggers.BasicBusinessLogger.constructor` | logger.cpp:87-117 | A new logger has an empty log and an empty variable-mode ring of capacity 2^27 - 1. |
| `Loggers.BasicBusinessLogger.PushBack` | logger.cpp:119-130 | Queues the packet, or drops it if the ring is full. |
| `Loggers.BasicBusinessLogger.MakeCsvLog` | logger.cpp:144-171 | Appends the packet's line, which `LineReads` characterises, to the pending text. |
| `Loggers.BasicBusinessLogger.OutputFile` | logger.cpp:304-338 | Writes the pending text to the next file and empties it. |
| `Loggers.BasicBusinessLogger.LogPacket` | logger.cpp:279-291 | One turn of the loop: a file first if the pending text is over the size, then the line. |
| `Loggers.BasicBusinessLogger.LogBatch` | logger.cpp:270-296 | The loop over the batch and the time-out file are the rotation of the value level. |
| `Loggers.BasicBusinessLogger.TakeBatch` | logger.cpp:257-265 | Takes the oldest packets out of the ring: all of them, or 2^26. |
| `Loggers.BasicBusinessLogger.CheckRotate` | logger.cpp:230-300 | The whole call is the rotation step of the value level, with the 32-bit time-out test; `Rotation` says what that step takes and writes. |
| `ConcurrentLog.ReturnMovesTail` | buffer_ring.h:180-218 | A call of the 32-bit ring that returns at an event has moved, into the ring or into its own buffer, exactly the block of values that its side's tail passes. |
| `ConcurrentLog.RunMovesTails` | logger.cpp:230-300 | After every schedule the published packets, and the log fed from the consumers' buffers, are the claimed values up to the producer tail and up to the consumer tail. |
| `ConcurrentLog.RingAndLogConserve` | logger.cpp:119-300 | For every interleaving of any number of threads on the 32-bit ring: files and pending text, made from what consumers copied out, then the lines of what the ring's slots hold between the tails, are the lines of all enqueued packets in the order of their returns. |
| `ConcurrentLog.InRingIsClaimedAndQueued` | buffer_ring.h:180-218 | Those packets are the ones pushed on the atomic queue, and the slots hold first the claimed but unreturned packets, then the queue. |
| `ConcurrentLog.RingFilesStayBounded` | logger.cpp:270-296 | The size bound on files holds on the concurrent ring, too. |
| `ConcurrentLog.ReturnWrites` | logger.cpp:257-296 | When a consumer of the concurrent ring returns, new files bear the time stamp of that moment, and on a time-out there is one at least. |
| `Lines.TrimUnique` | access_cmdline.cpp:5-8 | Right-trimming leaves the one prefix that does not end in a blank and is followed by blanks only. |
| `Hints.StickyFlag` | access_cmdline.cpp:194-217 | The hints collected are those that match with a space test per hint, if and only if the command has a space or no matching single-word hint follows a hint of two words. |
| `Hints.StickyFlagDrops` | access_cmdline.cpp:194-217 | For example for the command `a` the hint `ab` is not offered behind the hint `b c`. |
| `Hints.CommonByIndex` | access_cmdline.cpp:194-217 | The collected hints are, by index, those that are the command with more behind it, without a blank in this hint or one in front of it unless the command has one; each once and in order. |
| `Hints.CompletionIsLongestPrefix` | access_cmdline.cpp:235-255 | With two or more matches, command and completion are their longest common prefix, if and only if that prefix has no NUL behind the command and does not pass the cap of 65535. |
| `Listing.FindIsFirst` | access_cmdline.cpp:230 | The search returns the first occurrence, or -1 exactly if there is none. |
| `Listing.EraseSegments` | access_cmdline.cpp:227-233 | The erasing loop over worded segments never fails; it removes exactly the words in front if the word is found nowhere else, and otherwise the last word stays. |
| `Listing.ListsExactly` | access_cmdline.cpp:203-211 | One text only reads from the left as given items, each followed by one blank and every fourth by a newline, with nothing else: the layout that the loop makes. |
| `Listing.ListingShowsMatches` | access_cmdline.cpp:194-227 | For a command without a blank the list reads from the left as every collected hint in order and nothing else. |
| `Listing.ListingIsShortened` | access_cmdline.cpp:194-233 | For a two-word command no search fails, so no erasure throws, and the list reads from the left as the matches without their main commands if and only if the main command occurs in the rest of none of them but the last. |
| `Listing.RepeatedWordMisses` | access_cmdline.cpp:227-233 | If the rest of the first of two matches has the main command in it, the list is not the shortened one. |
| `Listing.ListingCanMiss` | access_cmdline.cpp:227-233 | For example for the command `a ` with the hints `a ba` and `a bb`. |
| `Listing.EmptyWordErasesNothing` | access_cmdline.cpp:227-233 | For a command that starts with a blank nothing is erased. |
| `HistoryFile.EntriesOfLine` | access_cmdline.cpp:119-125 | Chunks of at most 1023 characters never cross the end of a line: the entries of a line and of what follows it are read separately. |
| `HistoryFile.EntryRoundTrip` | access_cmdline.cpp:112-153 | A written entry is read back as itself alone exactly if it has no newline, no NUL, no blank at its end and at most 1022 characters. |
| `HistoryFile.HistoryRoundTrip` | access_cmdline.cpp:112-153 | Reading what was written restores the newest 502 entries in order if and only if each of them survives. |
| `HistoryFile.FileHoldsNewestFirst` | access_cmdline.cpp:139-153 | The k-th entry of the written file is the k-th newest of the history, for 502 entries at most. |
| `HistoryFile.ReadReverses` | access_cmdline.cpp:112-137 | The history that is read holds the file's entries from the last to the first, 502 at most, and `help` if there is no file. |
| `Terminal.FeedText` | access_cmdline.cpp:102-105 | Printable text replaces the cells from the cursor on and moves the cursor behind it. |
| `Terminal.FeedLeft` | access_cmdline.cpp:67-74 | Backspaces move the cursor and change no cell. |
| `Terminal.ShowsBlanks` | access_cmdline.cpp:76-83 | Spaces blank the cells behind a prefix. |
| `Editors.ClearLineShows` | access_cmdline.cpp:85-100 | Clearing removes the whole command from the row, wherever the cursor stands, and leaves the prompt. |
| `Editors.RewriteShows` | access_cmdline.cpp:366-377 | Clearing, rewriting and stepping back shows the new command with the cursor at its place. |
| `Editors.EnterGood` | access_cmdline.cpp:263-280 | After a return key, and the caller's answer, a new row shows the prompt alone. |
| `Editors.TabGood` | access_cmdline.cpp:281-305 | Completion and listing keep the image. |
| `Editors.EraseGood` | access_cmdline.cpp:306-315 | Erasing keeps the image. |
| `Editors.UpGood` | access_cmdline.cpp:319-331 | Going up in the history keeps the image and the bounds. |
| `Editors.DownGood` | access_cmdline.cpp:332-349 | Going down keeps the image and the bounds. |
| `Editors.LeftGood` | access_cmdline.cpp:350-354 | Moving left keeps the image. |
| `Editors.RightGood` | access_cmdline.cpp:355-359 | Moving right keeps the image. |
| `Editors.CharGood` | access_cmdline.cpp:365-377 | Typing keeps the image. |
| `Editors.StartAgrees` | access_cmdline.cpp:155-167 | The image is right at the start. |
| `Editors.ScreenAlwaysAgrees` | access_cmdline.cpp:258-385 | After every sequence of supported keys the row reads prompt and command, the cursor stands at the editing position, and both indices are in bounds. |
| `Editors.UnsupportedKey` | access_cmdline.cpp:378-382 | After any other key the image is right if and only if the prompt is empty, the index 0 and the command blank. |
| `Editors.EraseUndoesChar` | access_cmdline.cpp:306-377 | Erasing undoes typing. |
| `Editors.UpThenDown` | access_cmdline.cpp:319-349 | Up and then down from the end of the history gives the command back if and only if it is what was typed last or what the history ends in. |
| `Editors.UpRecallsCommand` | access_cmdline.cpp:263-331 | The next up key shows the command just finished. |
| `EditorKeys.CharInserts` | access_cmdline.cpp:365-377 | A printable key puts its character in at the cursor, remembers the text as typed, and changes nothing else. |
| `EditorKeys.EraseRemoves` | access_cmdline.cpp:306-315 | An erase key takes away the character in front of the cursor, if there is one, and nothing else. |
| `EditorKeys.ArrowsMove` | access_cmdline.cpp:350-359 | `ESC [ D` moves the cursor one character to the left and `ESC [ C` one to the right, within the text, and changes nothing else. |
| `EditorKeys.OtherEscapes` | access_cmdline.cpp:316-363 | Other bytes behind an escape byte, and up and down in an empty history, do nothing. |
| `EditorKeys.TabCompletes` | access_cmdline.cpp:281-305 | A tab replaces the command by a single match and a blank; a second one in a row appends the completion of several; otherwise it does nothing. |
| `EditorKeys.TabLists` | access_cmdline.cpp:288-296 | What the second tab writes for a command without a blank: a list that reads as all collected hints in order, and on a row of its own the prompt and the completed command. |
| `EditorKeys.UpGoesBack` | access_cmdline.cpp:319-331 | `ESC [ A` recalls the entry before the place in the history, or the one before that if the row shows the first already, and stays at the oldest. |
| `EditorKeys.DownGoesOn` | access_cmdline.cpp:332-349 | `ESC [ B` recalls the next entry, and behind the newest the typed text if there is any. |
| `EditorKeys.EnterReturns` | access_cmdline.cpp:263-280 | The return key returns the command on the row without the spaces in front and the blanks behind; the history grows by exactly that line unless it is empty, `exit` or the newest entry; the text starts anew. |
| `EditorKeys.TrimsOnce` | access_cmdline.cpp:266-267 | That description settles the line. |
| `EditorKeys.SessionReturnsRow` | access_cmdline.cpp:258-385 | At every turn of every session the return key returns the text that the terminal row showed behind the prompt before the key, trimmed; no other key returns anything. |
| `EditorKeys.TypingInserts` | access_cmdline.cpp:365-377 | A typed text stands at the cursor. |
| `EditorKeys.ErasingRemoves` | access_cmdline.cpp:306-315 | `n` erase keys take away the `n` characters in front of the cursor, or all there are. |
| `EditorKeys.TypedIsReturned` | access_cmdline.cpp:263-377 | What is typed into a fresh row is what the return key returns, trimmed. |
| `EditorKeys.NoRepeatsStays` | access_cmdline.cpp:270-277 | Sessions never put an entry behind an equal one. |
| `EditorKeys.UpRecalls` | access_cmdline.cpp:319-331 | From the end of such a history `n` up keys recall its entries one by one, newest first, down to the oldest. |
| `EditorKeys.DownRecalls` | access_cmdline.cpp:332-349 | From an entry the down keys recall the newer ones one by one. |
| `EditorKeys.DownReturns` | access_cmdline.cpp:332-349 | And then the typed text. |
| `EditorKeys.FirstUp` | access_cmdline.cpp:155-167 | A new session starts behind its newest entry: `n` up keys recall the n-th newest. |
| `Sessions.SessionKeepsClean` | access_cmdline.cpp:263-280 | Commands enter the history printable and without blanks at the end. |
| `Sessions.NextSessionRemembers` | access_cmdline.cpp:112-280 | The next session gets the newest 502 entries back if and only if none is longer than 1022 characters. |
| `CommandLines.CmdLine.constructor` | access_cmdline.cpp:22-33 | Starts with the history file's entries, the place in the history behind them, and the prompt written. |
| `CommandLines.CmdLine.BackSpaces` | access_cmdline.cpp:86-91 | Writes the bytes that clear the last `n` columns. |
| `CommandLines.CmdLine.ClearRow` | access_cmdline.cpp:94-100 | Writes the bytes whose effect `ClearLineShows` proves. |
| `CommandLines.CmdLine.CollectHints` | access_cmdline.cpp:196-217 | The matching loop collects the common hints, their layout with a line break behind every fourth, and their least length. |
| `CommandLines.CmdLine.CompleteCommon` | access_cmdline.cpp:235-254 | The nested loops compute the agreed characters up to a disagreement, a NUL or the least length. |
| `CommandLines.CmdLine.EraseMainCommands` | access_cmdline.cpp:229-232 | The erasing loop. |
| `CommandLines.CmdLine.CompareHints` | access_cmdline.cpp:174-256 | The matches, the list of them and the completion, which `CommonByIndex`, `ListingShowsMatches`, `ListingIsShortened` and `CompletionIsLongestPrefix` characterise. |
| `CommandLines.CmdLine.ReadEnter` | access_cmdline.cpp:263-280 | The return key: new state, bytes written and line returned are those of the state machine, which `EnterReturns` characterises. |
| `CommandLines.CmdLine.ReadTab` | access_cmdline.cpp:281-305 | The tab key. |
| `CommandLines.CmdLine.ReadErase` | access_cmdline.cpp:306-315 | The erase keys. |
| `CommandLines.CmdLine.ReadChar` | access_cmdline.cpp:365-377 | A printable key. |
| `CommandLines.CmdLine.ReadUp` | access_cmdline.cpp:319-331 | The up key. |
| `CommandLines.CmdLine.ReadDown` | access_cmdline.cpp:332-349 | The down key. |
| `CommandLines.CmdLine.ReadEscape` | access_cmdline.cpp:316-363 | The dispatch over escape sequences. |
| `CommandLines.CmdLine.ReadKey` | access_cmdline.cpp:258-385 | A whole call is one step of the state machine. |
| `CommandLines.CmdLine.ReadEntries` | access_cmdline.cpp:119-125 | The read loop yields the entries of the text. |
| `CommandLines.CmdLine.ReadHistory` | access_cmdline.cpp:112-137 | The history becomes the file's entries in reverse, the first 502 of them, or the one entry `help`. |
| `CommandLines.CmdLine.WriteBackHistory` | access_cmdline.cpp:139-153 | Writes the newest 502 entries, newest first. |

## Left out

- Weak memory, `volatile`, `CompilerBarrier`, `Pause` and cache alignment: every step is one sequentially consistent access to a word.
- RingQueue.RingIsAtomicQueue: holds for the schedules in which every claim that goes through finds room; a claim that does not takes the ring past its capacity (`OnlyRoomStaysWithin`, `RingStale.StaleCasOverruns`), and what the ring does after that is not described.
- RingQueue.CallIsLinearizable: the same condition.
- RingQueue.OnlyRoomStaysWithin: calls that ask for 2^32 - capacity elements or more, with which the distance between the counters can pass 2^32 within one claim; on unbounded counters the equivalence is proved for all calls (`RingInvariant.OrderExactly`).
- RingQueue.RealRefusalIsJustified: says nothing about a call whose look comes after the window that it sees has reached 2^32; there it can be refused for no reason (`RingStale.StaleRefusal`).
- RingProtocol.RealStep: in `buffer_ring_c.h` single or multi is an argument of each call; here it belongs to a side of the ring, as in `buffer_ring.h`. A single side runs one call at a time.
- Calls with more than 2^32 - 1 elements, and arrays shorter than the count passed with them: the source's arguments are words, and the copy loops read what they are told to.
- BuffRings.BuffRing.UpdateTail: the waiting loop is asserted to be over at once, since the class model has one thread; waiting is part of the step machine.
- RwLocks.RwLock.ReadLock: likewise only called when it can return; waiting is part of the step machine.
- RwLocks.RwLock.WriteLock: likewise only called when it can return.
- Sizing.RoundupPowerOf2: arguments above 2^31, for which the signed loop variable never reaches zero.
- HalfRings.RingBuff.GetHalf: says nothing about the state after a call with `rd + size / 2` beyond a word, where the comparison already fails; `GetAll` and `Put` from several threads are not modelled.
- Loggers.BasicBusinessLogger.CheckRotate: only calls for which the condition of logger.cpp:260 is true; on the other path the source reads variables that were never assigned.
- The gzip branch, the `VECTOR_TEST` variant, failures of `fopen` and `rename` (the pending text would be lost), and the names of files across calls; the time and its stamp are parameters.
- `m_uptimeBak`: it is assigned and never read outside the `VECTOR_TEST` variant.
- ConcurrentLog.RingAndLogConserve: a rotation happens at the event at which its dequeue returns; the writing of its single lines is not interleaved with other threads' steps, which it does not touch.
- CommandLines.CmdLine.CompareHints: a search that finds nothing leaves the list alone here, where the source's `erase` throws; `ListingIsShortened` proves that this does not happen for a main command without NUL and newline. Lists of 2^31 characters or more, whose positions do not fit the source's `int`, are left out.
- CommandLines.CmdLine.ReadKey: entering a command that is not blank with an empty history, for which the source reads in front of the vector; and reads that return no byte.
- CommandLines.CmdLine.ReadEnter: the same case.
- Editors.ScreenAlwaysAgrees: the same case, so a session starts with a history entry.
- Terminal rows that wrap, prompts and commands with characters that are not printable, and the terminal settings made by `init`.
- The file names and failing writes of the history file; a missing file is modelled.
- `addHints`, `setPrompt` and the constructors' file descriptors: easy members.
- `gziphelper`, `pcap.cc`, `file_reader`, `util`, `endian.h`, `clock_time.h`, `rte`, `thread.h` and the test drivers: input, output and easy helpers.
