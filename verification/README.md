# Verification of shineframe's queue, codecs and hashes

This project models the parts of shineframe whose correctness is hardest to see and proves what they are for. It has
two halves.

**The lock-free queue.** Each piece is modelled where its difficulty lies.

- `FreeList`, `DequeueClaims`, `Semaphore`, `BlockingQueue` and `ProducerHash` are state machines. A thread is a
  program counter with its locals, a step is one atomic access, and any number of threads may be interleaved in any
  way. Every theorem is about all reachable states or all runs: an inductive invariant over the state and a history,
  proved step by step, and what follows from it. `FreeListCalls`, `ProducerCalls` and the last parts of `Semaphore` say
  what calls come to: that a thread left alone finishes from any place, and what a call may return when others
  interfere. `Elements` follows the elements of the blocking queue from the events of a run to what calls return.
- `Blocks`, `BlockStorage`, `CountedBlocks`, `BlockRing`, `KeyedIndex`, `ProducerBase`, `ExplicitProducer` and
  `ImplicitProducer` are the storage below: objects with arrays, circular lists and 64-bit index words that wrap. Each
  sub-queue is proved to be a FIFO sequence, and claimed runs may be taken out in any order. Taking out a run, over all
  its blocks, is one step here: a consumer between finding its slot and finishing is not modelled, in either kind of
  sub-queue.
- `ClaimedRuns` ties the two together: every claim that a run of `DequeueClaims` hands out meets what the storage asks
  for, in whatever order claims are taken out, as long as no call asks for zero elements.
- `Circular` and `PowerOfTwo` have the arithmetic of wrapping indices.

**The codecs and hashes.** AES (`Polynomials`, `Gf256`, `AesState`, `Aes`, `AesCipher`, `AesCodec`), SHA-1, MD5,
WebSocket frames, base 64, and splitting and replacing text. The loops over byte arrays are proved equal to functions
written after the standards, and the laws (round trips, independence of how input is split, uniqueness) are proved of
those functions.
`Bytes` has what SHA-1 and MD5 share: number formats, folds over blocks, and padding. What tables and constants mean is
stated apart from them: the field of AES by division of polynomials, the substitution table by inverses in the field,
SHA-1 and MD5 by published digests (`KnownAnswers`), the first bytes of frames and the letters of base 64 by their
standards.

## What was found

- The queue: a bulk dequeue that asks for zero elements is passed on as it is (concurrentqueue.h:1141-1155). It claims
  an empty range at the head, and the index there may be another consumer's by then, or not be published at all
  (`EmptyClaimRun`). A claim has indices of its own for every run if and only if more than zero are asked for
  (`SafeIsPositive`). The implicit block loop runs once all the same (2715-2786): it finds no block (`NoBlockBehind`),
  or one that has just been finished, and then hands it back a second time (`CountTwice`). The comment at line 1529
  says that `set_many_empty` assumes a positive count.
- AES: the constructor sets the last three bytes of the round constant only after it has expanded the key
  (aes.hpp:318-323). The expansion is the standard's exactly if they happened to be zero (`StandardExpansion`).
  Decoding undoes encoding whatever the round keys are.
- MD5: asking for the digest writes the padding into the buffer that holds the rest of the message, and `init` clears
  the flag that would spare the second computation (md5.hpp:117). So a second digest is that of another message, unless
  fewer than 56 bytes are left over or they are what is written over them (`GetDigestTwice`). That condition is exact
  for the message (`KeptSame`, `OnesForgotten`); two messages may of course have one digest.
- MD5: the test of the block loop adds 63 in 32 bits (md5.hpp:137). It is right wherever the loop comes if and only if
  the bytes buffered and the input are fewer than 2^32 together (`LengthGuard`).
- WebSocket: an empty message is not recognised until another byte follows (websocket_parser.hpp:74). A masked frame is
  accepted when up to four of its bytes are missing (109). Payloads of 2^32 bytes or more come back with their length
  modulo 2^32 (60-65). The end of a frame is computed modulo 2^64 (109, 125), so ten bytes are taken for a frame of
  2^64 - 10 that costs nothing (`WrappedFrame`); `FrameInside` says exactly when a payload lies in what was received.
- WebSocket: the first byte of a ping or a pong has a reserved bit set and the final bit clear
  (websocket_parser.hpp:37-38), against sections 5.2 and 5.5 of RFC 6455 (`FirstByte`).
- Text: with an empty pattern `split` stands still for ever, and `replace_all` goes on for ever, putting in one
  replacement after the other (string.hpp:417-433, 526-536; `EmptyNeverEnds`).
- The circular comparison is right up to a gap of half the range of a word and wrong beyond it.

## How to read it

A class states its invariant as `Valid()` and its abstract value as a function (`Contents()`, `Message()`); each method
says how the value changes. Where a method computes something, its postcondition equates the result with a function, and
the lemmas beside it say what that function means. Words of the program are bit vectors where bits matter and natural
numbers with explicit remainders where only arithmetic does; shifts and masks by powers of two on the latter are
written as quotients and remainders. The bytes that a C++ pointer can reach are an array or a sequence, and a
precondition says how much of it must be there.

Two devices keep the solver's work small. Quantified facts are stated through predicates with an index
(`HoldsAt`, `FoldsAt`), and some functions are passed as values (`fold`, `steps`, `take`) to lemmas and methods that
need nothing of their bodies.

## Model

| member | source | states |
|---|---|---|
| `FreeList.StepKeepsInv` | include/concurrent_queue/cameron314/concurrentqueue.h:1375-1454 | each atomic access of `add`, `try_get` and `add_knowing_refcount_is_zero`, by any thread, keeps the invariant: chain, references, phases and ownership fit together |
| `FreeList.OnePlaceForEachNode` | include/concurrent_queue/cameron314/concurrentqueue.h:1389-1426 | in every reachable state a walk from `freeListHead` visits no node twice and ends; a node is with the clients, on the list, or in the hands of one thread, so `try_get` never returns a node that somebody else owns |
| `FreeList.CountIsExact` | include/concurrent_queue/cameron314/concurrentqueue.h:1396-1421 | the low 31 bits of the word of a node are one for the list or for the link about to be made, one for each thread that has pinned it, and two for a thread that is handing it over; on such a node the other bit is clear, which is the assertion at 1409 |
| `FreeList.ChainUnique` | include/concurrent_queue/cameron314/concurrentqueue.h:1442-1452 | there is only one such walk, so being on the list has one meaning |
| `FreeList.BitIsAlwaysAnswered` | include/concurrent_queue/cameron314/concurrentqueue.h:1382-1386 | a node whose should-be-on-list bit is set is never forgotten: a thread that has it pinned will see the count drop to zero, or one is adding it already |
| `FreeList.NothingLostAtRest` | include/concurrent_queue/cameron314/concurrentqueue.h:1416-1422 | with no call in flight every node is on the list with a count of one or with the clients with a count of zero |
| `FreeList.StepIsPushPopOrStutter` | include/concurrent_queue/cameron314/concurrentqueue.h:1446-1450 | seen from the list each access pushes one node, pops the first, or changes nothing: the protocol refines a stack |
| `FreeList.AddAlone` | include/concurrent_queue/cameron314/concurrentqueue.h:1432-1454 | run alone, `add` of a node nobody has pinned puts it first on the list |
| `FreeList.TryGetAlone` | include/concurrent_queue/cameron314/concurrentqueue.h:1389-1415 | run alone, `try_get` returns the first node and leaves the rest, or returns nothing from an empty list |
| `FreeListCalls.NothingOnlyIfEmpty` | include/concurrent_queue/cameron314/concurrentqueue.h:1389-1426 | `try_get` returns without a node only if the list was empty in some state between its call and its return, whatever races it lost |
| `FreeListCalls.CallsEnd` | include/concurrent_queue/cameron314/concurrentqueue.h:1375-1454 | in every reachable state and with all other threads stopped wherever they are, a call ends after at most 43 accesses of its own: no thread can block another |
| `FreeListCalls.TryGetTakesHead` | include/concurrent_queue/cameron314/concurrentqueue.h:1389-1415 | a `try_get` that starts in any reachable state and is left alone takes the first node, or nothing from an empty list |
| `DequeueClaims.StepKeepsInv` | include/concurrent_queue/cameron314/concurrentqueue.h:1886-1983 | each access of one enqueuer and any number of single and bulk dequeuers keeps the ticket invariant |
| `DequeueClaims.ClaimsAreElements` | include/concurrent_queue/cameron314/concurrentqueue.h:1886-1931 | over whole runs the claimed index ranges follow one another without gap or overlap and all lie below `tailIndex` |
| `DequeueClaims.PassedTestIsGood` | include/concurrent_queue/cameron314/concurrentqueue.h:1916-1931 | a consumer that has passed the second test finds its elements published when it moves the head, whatever others do meanwhile; optimistic count = head + overcommit + tickets in flight |
| `DequeueClaims.ClaimsHaveElements` | include/concurrent_queue/cameron314/concurrentqueue.h:1886-1931 | when every call asks for at least one element, each claim is not empty, starts below the tail, and its first index is in no other claim |
| `DequeueClaims.SafeIsPositive` | include/concurrent_queue/cameron314/concurrentqueue.h:2695-2723 | a consumer that asks for `max` elements each time gets indices of its own in every claim of every run, whatever the others do, if and only if `max > 0` |
| `DequeueClaims.EmptyClaimRun` | include/concurrent_queue/cameron314/concurrentqueue.h:2695-2723 | a run in which a call for zero elements claims the empty range at index 32 while head and tail are both 32, behind another consumer's claim of all there is |
| `DequeueClaims.DequeueAtRest` | include/concurrent_queue/cameron314/concurrentqueue.h:2171-2200 | with nothing in flight a dequeue takes min(max, tail - head) elements, so it succeeds exactly when head < tail |
| `DequeueClaims.DequeueBesideOthers` | include/concurrent_queue/cameron314/concurrentqueue.h:2171-2200 | with others in the middle of their calls, a dequeue left alone takes min(max, elements that no ticket is out for) |
| `DequeueClaims.SecondTestAlone` | include/concurrent_queue/cameron314/concurrentqueue.h:2180-2200 | a consumer that drew too many tickets keeps what the second test leaves it and takes the rest back, all of it only if that is nothing |
| `DequeueClaims.SingleTestIsBulkTest` | include/concurrent_queue/cameron314/concurrentqueue.h:1890-1923 | the comparison that `dequeue` writes and the difference that `dequeue_bulk` tests decide alike, on words |
| `DequeueClaims.WordsStep` | include/concurrent_queue/cameron314/concurrentqueue.h:2171-2200 | a step on 64-bit words is the step on unbounded integers seen modulo 2^64, as long as the compared differences fit in half a word |
| `DequeueClaims.WordsRun` | include/concurrent_queue/cameron314/concurrentqueue.h:2171-2200 | the same for whole runs whose tests stay inside that window: the words claimed are the words of the indices the unbounded run claims |
| `DequeueClaims.WordsOfReachable` | include/concurrent_queue/cameron314/concurrentqueue.h:2171-2200 | every run from the start that ends with fewer than 2^63 elements published and at most 2^63 tickets drawn is a run on words, with the words of the same claims |
| `DequeueClaims.FreshInWindow` | include/concurrent_queue/cameron314/concurrentqueue.h:2171-2200 | beyond that, a test decides rightly as long as what the consumer has read is not too old: how far tail, overcommit and tickets may have moved since |
| `ClaimedRuns.ClaimReady` | include/concurrent_queue/cameron314/concurrentqueue.h:1916-1931 | in every run whose calls ask for elements, a claim not taken out yet has elements, lies below head and tail, and none of its indices is taken out, whichever other claims are |
| `ClaimedRuns.AllTaken` | include/concurrent_queue/cameron314/concurrentqueue.h:1886-1931 | once all claims are taken out, exactly the indices below the head are: no element is left behind and none is taken twice |
| `ClaimedRuns.TakeExplicit` | include/concurrent_queue/cameron314/concurrentqueue.h:2202-2253 | so an explicit producer can take out any claim of such a run, in order, whichever others it has taken out already |
| `ClaimedRuns.TakeImplicit` | include/concurrent_queue/cameron314/concurrentqueue.h:2715-2786 | the same for an implicit producer, which hands back the blocks that this finishes and no other |
| `Semaphore.StepKeepsInv` | include/concurrent_queue/cameron314/blockingconcurrentqueue.h:260-405 | each access of any acquiring or signalling call, time-outs included, keeps the invariant |
| `Semaphore.PermitsAreConserved` | include/concurrent_queue/cameron314/blockingconcurrentqueue.h:260-405 | initial + signalled = acquired + max(0, m_count) + kernel count + posts still owed; what was acquired is returned or held by a call, and is never more than initial + signalled |
| `Semaphore.NoWaiterBesideAFreePermit` | include/concurrent_queue/cameron314/blockingconcurrentqueue.h:274-296 | threads that wait = max(0, -m_count) + kernel count + posts still owed; so while the count is not negative a waiter has a post, there or to come, and once none is to come a blocked thread can go on |
| `Semaphore.CallsReturnWhatTheyPromise` | include/concurrent_queue/cameron314/blockingconcurrentqueue.h:379-394 | no call returns more than it asked for, and one that waits for ever returns at least one permit |
| `Semaphore.FewerOnlyIfNone` | include/concurrent_queue/cameron314/blockingconcurrentqueue.h:300-394 | a call returns fewer permits than asked for only if, from any moment of it on, there comes one at which the count is not positive, so also after its first permit on the slow path |
| `Semaphore.NothingOnlyAfterTimeout` | include/concurrent_queue/cameron314/blockingconcurrentqueue.h:260-394 | a call that may wait returns nothing only if its wait timed out or it asked for nothing |
| `Semaphore.SlowPathAlone` | include/concurrent_queue/cameron314/blockingconcurrentqueue.h:316-335 | a thread whose subtraction, wait or late try gets it a permit goes on, alone, to return 1 + min(max - 1, max(0, count)), and lowers the count by the rest |
| `Semaphore.TimeoutAlone` | include/concurrent_queue/cameron314/blockingconcurrentqueue.h:318-331 | a wait that times out puts the count back and returns nothing if it is below zero, and takes its post if it is not |
| `Semaphore.SpinsAlone` | include/concurrent_queue/cameron314/blockingconcurrentqueue.h:304-316 | a call that finds nothing spins 10000 times before it waits |
| `Semaphore.AcquireEnds` | include/concurrent_queue/cameron314/blockingconcurrentqueue.h:260-394 | wherever an acquiring call is, once no signaller owes a post it ends by itself within 20008 accesses or waits with a negative count |
| `Semaphore.AtRest` | include/concurrent_queue/cameron314/blockingconcurrentqueue.h:407-411 | with no call in flight the count alone says how many permits there are, and it is not negative |
| `Semaphore.AcquireAlone` | include/concurrent_queue/cameron314/blockingconcurrentqueue.h:366-377 | run alone, an acquiring call takes min(max, count), and a try on an empty semaphore takes nothing |
| `Semaphore.SignalAlone` | include/concurrent_queue/cameron314/blockingconcurrentqueue.h:396-405 | run alone, `signal(n)` raises the count by n and posts once for each waiter that it frees |
| `BlockingQueue.StepKeepsInv` | include/concurrent_queue/cameron314/blockingconcurrentqueue.h:519-865 | each step of enqueues, dequeues and the semaphore under them keeps the invariant |
| `BlockingQueue.ElementsBehindPermits` | include/concurrent_queue/cameron314/blockingconcurrentqueue.h:690-699 | permits that threads hold and have not dequeued for never exceed the elements in the inner queue, so a retry loop always has an element to find |
| `Elements.ElementsAreConserved` | include/concurrent_queue/cameron314/blockingconcurrentqueue.h:519-731 | over every run: what successful enqueues supplied is, element by element, in the inner queue, returned or held by a dequeue; and what each dequeue returned is what it found in the inner queue since its call, in order, as the events say |
| `BlockingQueue.FailedEnqueue` | include/concurrent_queue/cameron314/blockingconcurrentqueue.h:519-526 | an enqueue that fails changes nothing and signals nothing |
| `BlockingQueue.DrainedExactly` | include/concurrent_queue/cameron314/blockingconcurrentqueue.h:723-731 | a call returns exactly as many elements as the permits it was granted, at most `max`, and at least one if it waits for ever |
| `BlockingQueue.DrainCanFinish` | include/concurrent_queue/cameron314/blockingconcurrentqueue.h:839-847 | in every reachable state an unfinished retry loop has a step that ends it |
| `BlockingQueue.SizeAtRest` | include/concurrent_queue/cameron314/blockingconcurrentqueue.h:519-865 | with no call in flight the semaphore's count is the number of elements |
| `ProducerHash.StepKeepsInv` | include/concurrent_queue/cameron314/concurrentqueue.h:3294-3442 | each access of any number of threads, resizes and lazy copies included, keeps the invariant of the chain of tables |
| `ProducerHash.SameProducerEveryTime` | include/concurrent_queue/cameron314/concurrentqueue.h:3294-3442 | without allocation failure every call of a thread returns the same producer for the whole run, and no two threads get the same one |
| `ProducerCalls.CallsEnd` | include/concurrent_queue/cameron314/concurrentqueue.h:3294-3442 | in every reachable state in which no other thread holds the resize flag, a call ends by itself, on each path, within the slots of all tables, twice those of the newest, and a few accesses |
| `ProducerCalls.CallReturnsItsProducer` | include/concurrent_queue/cameron314/concurrentqueue.h:3294-3442 | a new call then returns what earlier calls of its thread returned, or a producer made for it if there were none, and leaves its id in the newest table |
| `ProducerCalls.BesideResize` | include/concurrent_queue/cameron314/concurrentqueue.h:3396-3438 | while another thread resizes, an insertion goes ahead below three quarters of the table and waits beyond that |
| `ProducerCalls.TablesStaySmall` | include/concurrent_queue/cameron314/concurrentqueue.h:3359-3392 | in every reachable state no table but the first has more than 4 n + 3 slots after n insertions |
| `ProducerHash.ProbesEnd` | include/concurrent_queue/cameron314/concurrentqueue.h:3316-3354 | in every reachable state each table keeps an empty slot and a probing thread has passed fewer slots than there are, so every probe loop ends |
| `ProducerHash.EmptySlot` | include/concurrent_queue/cameron314/concurrentqueue.h:3396-3399 | the three-quarters test leaves room: the keys of a table have different insertion numbers below its limit |
| `Circular.CircularLessIsLess` | include/concurrent_queue/cameron314/concurrentqueue.h:406-417 | on words the circular comparison is the unbounded one for gaps up to half the range, and false both ways at exactly half |
| `Circular.CircularLessTurnsRound` | include/concurrent_queue/cameron314/concurrentqueue.h:406-417 | for larger gaps it is the wrong way round: the bound is exact |
| `Circular.SlotFormula` | include/concurrent_queue/cameron314/concurrentqueue.h:1942-1948 | the slot formula steps back one entry per block although its division is unsigned, for ring sizes that are powers of two and divide the number of blocks in the range of a word |
| `PowerOfTwo.CeilToPow2` | include/concurrent_queue/cameron314/concurrentqueue.h:427-441 | the least power of two at or above x for 1 <= x <= 2^63, and 0 for the other words |
| `BlockRing.Publish` | include/concurrent_queue/cameron314/concurrentqueue.h:1862-1868 | one more entry keeps those of the blocks already indexed, while there is room |
| `BlockRing.Copied` | include/concurrent_queue/cameron314/concurrentqueue.h:2279-2316 | entries copied to the start of a larger index are that index's ring |
| `BlockRing.Lookup` | include/concurrent_queue/cameron314/concurrentqueue.h:1934-1948 | the slot a consumer computes for any index in the ring holds the block that the index lies in |
| `Blocks.Block.IsEmpty` | include/concurrent_queue/cameron314/concurrentqueue.h:1486-1510 | in the explicit context a block is empty exactly when the flag of every slot is set |
| `Blocks.Block.SetEmpty` | include/concurrent_queue/cameron314/concurrentqueue.h:1513-1526 | sets the flag of one slot and no other |
| `Blocks.Block.SetManyEmpty` | include/concurrent_queue/cameron314/concurrentqueue.h:1532-1551 | sets the flags of a run of slots, stored back to front, and no others |
| `Blocks.Block.CountEmpty` | include/concurrent_queue/cameron314/concurrentqueue.h:1545-1550 | in the implicit context true for exactly the call that completes the count, and for calls with a count of zero on a block that is complete |
| `Blocks.Block.CountTwice` | include/concurrent_queue/cameron314/concurrentqueue.h:1545-1550 | when one call completes a block and one for zero slots follows, both are told that they completed it |
| `ProducerBase.ProducerBase.Claim` | include/concurrent_queue/cameron314/concurrentqueue.h:1886-1931 | an element is claimed exactly when there is one that no ticket is out for, and it is the oldest |
| `ProducerBase.ProducerBase.ClaimMany` | include/concurrent_queue/cameron314/concurrentqueue.h:2171-2200 | up to `max` elements are claimed, the oldest, and as many as there are |
| `ProducerBase.ProducerBase.Leeway` | include/concurrent_queue/cameron314/concurrentqueue.h:1807-1813 | the test before a block is added keeps the tail from overtaking the head |
| `ProducerBase.ProducerBase.SizeApprox` | include/concurrent_queue/cameron314/concurrentqueue.h:1666-1671 | with both indices read at once exactly the number of elements |
| `ProducerBase.EndOf` | include/concurrent_queue/cameron314/concurrentqueue.h:2206-2210 | the end of a run in its block, computed on words, is the nearer of the two ends |
| `ExplicitProducer.ExplicitProducer.Enqueue` | include/concurrent_queue/cameron314/concurrentqueue.h:1783-1883 | the element goes to the back, through a reused, a new or the current block; it fails, with the contents unchanged, exactly when a block is needed, the oldest is not finished and no other is to be had |
| `ExplicitProducer.ExplicitProducer.StartBlock` | include/concurrent_queue/cameron314/concurrentqueue.h:1788-1872 | the oldest block is reused exactly when all its slots were dequeued; otherwise one from the pool is linked in behind the tail block and indexed |
| `ExplicitProducer.ExplicitProducer.NewBlockIndex` | include/concurrent_queue/cameron314/concurrentqueue.h:2279-2316 | the index doubles and keeps the entries in use in the order of the circular list; without memory nothing changes |
| `ExplicitProducer.ExplicitProducer.Take` | include/concurrent_queue/cameron314/concurrentqueue.h:1934-1976 | any claimed element is taken out of the block that the index ring leads to, whatever else was claimed or finished meanwhile |
| `ExplicitProducer.ExplicitProducer.TakeRun` | include/concurrent_queue/cameron314/concurrentqueue.h:2202-2253 | a claimed run is taken out in order, block by block, and exactly its indices are marked; a claim of zero elements must have been made inside the ring |
| `ExplicitProducer.ExplicitProducer.Dequeue` | include/concurrent_queue/cameron314/concurrentqueue.h:1886-1983 | the front element whenever there is one; the contents lose exactly that |
| `ExplicitProducer.ExplicitProducer.DequeueMany` | include/concurrent_queue/cameron314/concurrentqueue.h:2171-2261 | min(max, size) elements from the front, in order |
| `CountedBlocks.CountFinished` | include/concurrent_queue/cameron314/concurrentqueue.h:1545-1550 | finishing a run of slots raises the count by its length |
| `CountedBlocks.TakeCounted` | include/concurrent_queue/cameron314/concurrentqueue.h:2507-2527 | takes a run of elements out; true exactly if the block is finished then, which it was not before a run that is not empty |
| `KeyedIndex.KeyedIndex.Find` | include/concurrent_queue/cameron314/concurrentqueue.h:2858-2874 | for every index in the window the computed slot holds the entry keyed for its block |
| `KeyedIndex.KeyedIndex.Insert` | include/concurrent_queue/cameron314/concurrentqueue.h:2816-2843 | an entry for the next block is keyed exactly when the index exists and the next entry is free or the index can be doubled; no entry in use is overwritten |
| `KeyedIndex.KeyedIndex.Grow` | include/concurrent_queue/cameron314/concurrentqueue.h:2876-2918 | doubling keeps every entry of the window, in order, and adds free ones |
| `KeyedIndex.KeyedIndex.Abandon` | include/concurrent_queue/cameron314/concurrentqueue.h:2845-2849 | without a block the tail of the index goes back and the entry is free |
| `KeyedIndex.LaidOut` | include/concurrent_queue/cameron314/concurrentqueue.h:2885-2905 | the pointers laid out afresh are the same window |
| `ImplicitProducer.HandBack` | include/concurrent_queue/cameron314/concurrentqueue.h:2522-2528 | the account of blocks handed back: each finished one once, and no other |
| `ImplicitProducer.ImplicitProducer.Enqueue` | include/concurrent_queue/cameron314/concurrentqueue.h:2410-2471 | the element goes to the back; it fails, with the contents unchanged, exactly when a block is needed and cannot be had |
| `ImplicitProducer.ImplicitProducer.Release` | include/concurrent_queue/cameron314/concurrentqueue.h:2522-2528 | an emptied block leaves the index and is handed to the free list |
| `ImplicitProducer.ImplicitProducer.Take` | include/concurrent_queue/cameron314/concurrentqueue.h:2484-2531 | any claimed element is taken out of the block its entry holds, which is not null; that block is handed back, with its number, exactly if it is finished then |
| `ImplicitProducer.ImplicitProducer.TakeRun` | include/concurrent_queue/cameron314/concurrentqueue.h:2715-2786 | a claimed run is taken out in order; what is handed back is grown by exactly the live blocks of the run that are finished then, in order, with their numbers; a claim of zero elements must have been made in a live block |
| `ImplicitProducer.ImplicitProducer.NoBlockBehind` | include/concurrent_queue/cameron314/concurrentqueue.h:2720-2731 | behind the last element of a full block no block is live, so a claim of zero elements there has none to look at |
| `ImplicitProducer.ImplicitProducer.Dequeue` | include/concurrent_queue/cameron314/concurrentqueue.h:2474-2542 | the front element whenever there is one; its block is handed back exactly if that finishes it |
| `ImplicitProducer.ImplicitProducer.DequeueMany` | include/concurrent_queue/cameron314/concurrentqueue.h:2695-2790 | min(max, size) elements from the front, in order; exactly the blocks that this finishes are handed back |
| `Gf256.Multiplication` | include/util/aes.hpp:265 | the product that `gmult` looks up is additive in both factors, and a power of x as a factor is repeated doubling |
| `Gf256.ProductIsRemainder` | include/util/aes.hpp:265 | it is the remainder, and the only one, of the product without carries by x^8 + x^4 + x^3 + x + 1, defined without it |
| `Gf256.SBoxIsInverse` | include/util/aes.hpp:267-283 | the substitution table is the affine map of section 5.1.1 of FIPS 197 of the inverse in the field: undoing the map gives y with x y = 1, and only that y gives the entry of x; 0 has that of 0 |
| `Gf256.MixInverse` | include/util/aes.hpp:387-421 | the coefficients of `inv_mix_columns` undo those of `mix_columns`, on every column |
| `Gf256.SBoxInverse` | include/util/aes.hpp:464-491 | `inv_s_box` undoes `s_box` on all 256 bytes |
| `AesState.ShiftRowsAt` | include/util/aes.hpp:423-461 | row i turns left by i places, and back |
| `AesState.MixColumnsInverse` | include/util/aes.hpp:387-421 | `inv_mix_columns` undoes `mix_columns` on every state |
| `AesState.CipherInverse` | include/util/aes.hpp:575-638 | the inverse cipher undoes the cipher on every block, for any number of rounds and any round keys |
| `Aes.ShiftRowsOf` | include/util/aes.hpp:423-442 | the loops in place turn the rows as the standard says |
| `Aes.InvShiftRowsOf` | include/util/aes.hpp:444-461 | the same for turning back |
| `Aes.MixColumnsOf` | include/util/aes.hpp:387-403 | the loops in place multiply each column by the standard's polynomial |
| `AesCipher.AesImpl.Rcon` | include/util/aes.hpp:358-373 | the first byte is x^(i-1), independent of earlier calls; the other three stay as they are |
| `AesCipher.AesImpl.ExpandKey` | include/util/aes.hpp:517-554 | exactly 4 (Nr + 1) words are written, each by the recurrence of section 5.2 of FIPS 197, with the last three bytes of the round constant as the object has them |
| `AesCipher.Sizes` | include/util/aes.hpp:560-570 | key words and rounds for the three modes are those of figure 4 of FIPS 197 |
| `AesCipher.StandardExpansion` | include/util/aes.hpp:315-325 | the words are the standard's if and only if those three bytes are zero already when the key is expanded, which the constructor sees to only afterwards |
| `AesCodec.CipherBlock` | include/util/aes.hpp:575-604 | `aes_cipher` in memory is the standard's cipher of section 5.1, rounds and all, and writes nothing else |
| `AesCodec.InvCipherBlock` | include/util/aes.hpp:609-638 | `aes_inv_cipher` in memory is the inverse cipher of section 5.3 |
| `AesCodec.DecodeEncode` | include/util/aes.hpp:648-694 | `decode(encode(d)) == d` for every text, empty ones too, and any round keys; what `encode` returns is never refused |
| `AesCodec.AesCodec.Encode` | include/util/aes.hpp:648-673 | the blocks are enciphered in turn behind zero padding, and the last byte says how much |
| `AesCodec.AesCodec.Decode` | include/util/aes.hpp:675-694 | the inverse, and the empty text for lengths and last bytes that `encode` cannot produce |
| `Bytes.GapIsLeast` | include/util/sha1.hpp:565-595 | the padding is the shortest that leaves eight bytes at the end of a block |
| `Bytes.FoldTail` | include/util/sha1.hpp:565-610 | folding the padded message takes one block more when at most 55 bytes are left over, and two when more are |
| `Sha1.Choices` | include/util/sha1.hpp:494-530 | the object's logical functions are those of section 4.1.1 of FIPS 180-4 |
| `Sha1.PaddedDistinct` | include/util/sha1.hpp:565-610 | different messages below 2^64 bits are padded differently |
| `Sha1.ScheduleOf` | include/util/sha1.hpp:473-486 | the 80 words are the message schedule of section 6.1.2 of FIPS 180-4 |
| `Sha1.Sha1.ProcessMessageBlock` | include/util/sha1.hpp:455-542 | the four loops compute the standard's compression of the block |
| `Sha1.Sha1.Input` | include/util/sha1.hpp:219-256 | however the message is split, H is the fold over its whole blocks and the buffer has the rest; 2^64 bits or input behind a result corrupt the object |
| `Sha1.Sha1.PadMessage` | include/util/sha1.hpp:565-610 | in both padding cases H becomes the digest of the whole message |
| `Sha1.Sha1.Result` | include/util/sha1.hpp:178-199 | the digest of all that was fed in, the same at each call, or false |
| `KnownAnswers.Sha1OfAbc` | include/util/sha1.hpp:455-542 | what the digest function makes of "abc" is the published digest, so its constants, rotations, schedule and byte order are the standard's |
| `Md5.FFFour` | include/util/md5.hpp:182-203 | four macro lines are four steps of section 3.4 of RFC 1321 |
| `Md5.Transformed` | include/util/md5.hpp:152-281 | the 64 macro lines are the 64 steps of the standard, with its shifts, places and sine constants |
| `Md5.LengthGuard` | include/util/md5.hpp:137-139 | the loop's test, whose left side wraps at 2^32, is right at every place the loop comes to if and only if the buffered bytes and the input are fewer than 2^32 together |
| `Md5.Md5.Init` | include/util/md5.hpp:112-149 | the message grows by the input: block fold, rest in the buffer, bit count with its carry |
| `Md5.Md5.GetDigest` | include/util/md5.hpp:72-106 | the digest of sections 3.1 to 3.5 of RFC 1321; afterwards the object stands for the message with its rest as the padding left it |
| `Md5.Md5.GetDigestTwice` | include/util/md5.hpp:72-106 | a second call gives the digest of the message that the first has left, with other bytes in the place of the rest; the same digest if the rest had fewer than 56 bytes or is what overwrites it |
| `Md5.KeptSame` | include/util/md5.hpp:72-106 | that is the same message if and only if fewer than 56 bytes are left over or they are what overwrites them |
| `Md5.OnesForgotten` | include/util/md5.hpp:86-106 | 56 bytes of one, for example, have become zeros |
| `KnownAnswers.Md5OfAbc` | include/util/md5.hpp:152-281 | the same for MD5 |
| `WebSocket.TypeBack` | include/websocket/websocket_parser.hpp:27-38 | the type survives encoding and decoding for exactly six of the ten types |
| `WebSocket.FirstByte` | include/websocket/websocket_parser.hpp:27-38 | the first byte is the standard's, by opcode and final bit, for texts and binaries; pings and pongs have the opcode, but not the final bit, and a reserved bit |
| `WebSocket.FirstByteRead` | include/websocket/websocket_parser.hpp:76-133 | a first byte is read by opcode and final bit whatever its reserved bits; further pieces count as texts, other opcodes as errors |
| `WebSocket.Encode` | include/websocket/websocket_parser.hpp:43-69 | the frame of section 5.2 of RFC 6455, but for lengths of 2^32 or more, of which the low 32 bits are written |
| `WebSocket.Decode` | include/websocket/websocket_parser.hpp:71-134 | the outcome, positions and in-place unmasking as functions of the memory, wrapping arithmetic included |
| `WebSocket.FrameRead` | include/websocket/websocket_parser.hpp:71-134 | a frame in front of any other bytes is read with its type, and its length modulo 2^32 |
| `WebSocket.PayloadBack` | include/websocket/websocket_parser.hpp:108-126 | the payload, also a masked one, is then in its place in clear, and no other byte has changed |
| `WebSocket.FrameRefused` | include/websocket/websocket_parser.hpp:108-110 | less than that is incomplete, whatever the memory behind it holds |
| `WebSocket.XorIs` | include/websocket/websocket_parser.hpp:112-121 | masking takes the bits that one of the two bytes has and the other has not, as section 5.3 of RFC 6455 says |
| `WebSocket.Recognised` | include/websocket/websocket_parser.hpp:74-110 | a frame is recognised if and only if three bytes are there and no more than the four mask bytes, which the count forgets, are missing |
| `WebSocket.FrameInside` | include/websocket/websocket_parser.hpp:108-125 | the payload of a returned frame lies in the bytes received if and only if its length and header do not wrap at 2^64 and no mask bytes are missing; then the cost is where it ends, and positive |
| `WebSocket.WrappedFrame` | include/websocket/websocket_parser.hpp:96-125 | any ten bytes that announce a length of 2^64 - 10 are a frame of that length and cost zero |
| `WebSocket.ReceivedIsSent` | include/websocket/websocket_parser.hpp:43-134 | repeated decoding of any concatenation of frames, with a strict prefix of another behind it, gives the messages back; only an empty one at the very end waits for more |
| `Base64.GroupBack` | include/util/string.hpp:761-767 | three bytes come back from their four letters |
| `Base64.LettersAre` | include/util/string.hpp:19-21 | the letters are those of table 1 of RFC 4648, and the padding is '=' |
| `Base64.Examples` | include/util/string.hpp:751-795 | the examples of section 10 of RFC 4648 come out, one for each kind of ending |
| `Base64.DecodedEncoded` | include/util/string.hpp:751-841 | decoding an encoded text with anything behind it gives the text, and reads on only if there was no padding |
| `Base64.RoundTrip` | include/util/string.hpp:751-841 | `decode_base64(encode_base64(d)) == d` for every byte string, of length 4 * ceil(n / 3) |
| `Base64.Encode` | include/util/string.hpp:751-795 | the loop with its two small buffers is the encoding of section 4 of RFC 4648 |
| `Base64.CompletedIs` | include/util/string.hpp:826-838 | the 255 found for a missing letter never reaches the output |
| `Base64.Decode` | include/util/string.hpp:802-841 | the loop decodes whole groups up to the first other character, and of the last what its letters complete |
| `Text.JoinSplit` | include/util/string.hpp:417-433 | joining what `split` gives with the separator gives the text back |
| `Text.SplitUnique` | include/util/string.hpp:417-433 | `split` gives the one list that joins to the text and has each separator as far left as can be |
| `Text.SplitAt` | include/util/string.hpp:417-433 | the loop computes that list |
| `Text.Buffer.ReplaceAll` | include/util/string.hpp:526-536 | replacing in place ends, and gives the pieces joined with the replacement, also when that holds the pattern |
| `Text.ReplacedSame` | include/util/string.hpp:526-536 | a pattern replaced by itself, or one that does not occur, changes nothing |
| `Text.EmptyFound` | include/util/string.hpp:526-536 | an empty pattern is found where the search starts |
| `Text.EmptyNeverEnds` | include/util/string.hpp:526-536 | so with an empty pattern each round of `split` leaves its place, and each round of `replace_all` the number of characters behind it, as they were, and finds the pattern again: neither loop ends |

## Left out

- Memory orders and fences: every atomic access is one sequentially consistent step.
- Real time and spinning: time-outs and spurious failures of a CAS may or may not happen, at any step that allows them.
- Exceptions thrown by element types, debug code, statistics, thread-exit listeners (disabled at concurrentqueue.h:201),
  tokens and the rotation of consumers over producers, moving, swapping and destroying a queue.
- `enqueue_bulk` of both producers and its roll-back.
- Limits on the size of a sub-queue: `MAX_SUBQUEUE_SIZE` has its default, which is no limit.
- The block pool and the queue's shared free list are parameters of the producers (`spare`, `released`); how the list
  itself works is in `FreeList`. A pool block is one that no sub-queue uses.
- `ExplicitProducer.ExplicitProducer.Take`: finding the slot and taking the element out are one step, on the newest
  index; a consumer that still holds an older, smaller index from before a doubling is not modelled.
- `ExplicitProducer.ExplicitProducer.TakeRun`: one step, over all blocks of the run.
- `ImplicitProducer.ImplicitProducer.Take`: finding the slot and taking the element out are one step.
- `ImplicitProducer.ImplicitProducer.TakeRun`: one step, over all blocks of the run. A claim of zero elements outside a
  live block is not covered, as for `ExplicitProducer.ExplicitProducer.TakeRun` outside the ring: the code then reads an
  entry that is not that block's. Which claims these are is in `DequeueClaims.SafeIsPositive`.
- `ExplicitProducer.ExplicitProducer.Dequeue`: with no other consumer under way; with others it is a claim of
  `DequeueClaims` and then `Take`.
- `ExplicitProducer.ExplicitProducer.DequeueMany`: the same, with `TakeRun`.
- `ImplicitProducer.ImplicitProducer.Dequeue`: with no other consumer under way, as above.
- `ImplicitProducer.ImplicitProducer.DequeueMany`: the same.
- `ProducerBase.ProducerBase.Claim`: claims in one step; the interleavings of its accesses are in `DequeueClaims`.
- `ProducerBase.ProducerBase.ClaimMany`: the same.
- `ProducerBase.ProducerBase.SizeApprox`: reads both indices at once; between the two loads of the program others may
  move either.
- Indices of blocks beyond what a 64-bit address space can hold: an index of 2^58 entries or more counts as one the
  allocator has no memory for.
- `ProducerCalls.CallsEnd`: while another thread holds the resize flag, one whose number is beyond three quarters of the
  table waits for it, so its call can end only after that thread goes on.
- `ProducerHash.SameProducerEveryTime`: runs in which no allocation fails and no producer is recycled; the mask of a
  capacity, a power of two, is written as a remainder.
- `FreeList.CountIsExact`: for fewer than 2^31 - 2 threads, beyond which the 31 bits overflow.
- Overflow of the semaphore's signed count.
- `Gf256.Multiplication`: `gmult` is the product itself; the table of 65536 entries is not copied.
- `AesCipher.StandardExpansion`: the three bytes of the round constant that no call has set yet are a parameter.
- `Md5.Md5.Init`: for fewer than 2^32 bytes buffered and given together, the bound of `LengthGuard`; the constructor for
  texts of fewer than 2^32 bytes. Beyond that the test goes wrong at a place the loop comes to.
- `WebSocket.Decode`: for memory that holds what the code reads, also past the bytes received; reads beyond it are
  undefined.
- `Base64.Decode`: for texts below 2^31 bytes, which its 32-bit index can reach; letters are those of the C locale.
- `Text.SplitAt`: for non-empty patterns; with an empty one neither loop ends (`EmptyNeverEnds`).
- The hexadecimal strings of an MD5 digest, the stream operators of SHA-1 and the wrapper classes: easy members.
- Sockets and engines, TLS, HTTP, Redis, databases, RPC, logging and files: input and output or foreign calls.
