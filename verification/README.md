# k-FIFO queues: a single-threaded Dafny model

This project models the queues of the `kylemart.multicore.project` Java
repository as immutable state and pure step functions. It proves what each
step does to that state. Five classes are modelled, one Dafny module each, with `KQueue` split into three.
`Wrappers` supplies `Option`, with `None` standing for Java's `null`.

- **`KQueue`** (modules `KQueueSegment`, `KQueue`, `KQueueProperties`).
  - The queue is a ring of `segmentCount` segments of `k` slots, with a head
    cursor and a tail cursor that name segments.
  - The run is single-threaded: every compare-and-set succeeds and every
    re-read of a cursor returns the snapshot.
  - The `enqueue` and `dequeue` retry loops become recursive functions. Each
    carries an explicit termination measure: how far tail can still move before
    reaching head, and how far head lags behind tail.
  - Over reachable states, `KQueueProperties` proves:
    - a ring invariant: segments past tail are empty, and segments strictly
      between head and tail are full;
    - a multiset account of the stored elements;
    - the capacity and emptiness conditions.
- **`BoundedKQueue`** (module `BoundedKQueue`).
  - A flat array of `k * numSegments` cells. Each cell refers to an item made
    of an element and a Java-int version.
  - Cursors are absolute slot indices that advance in steps of `k`.
  - The random scan offsets are parameters.
  - The class is unfinished, and the model follows it as written:
    - `isCommitted` always answers false, so `enqueue` never answers true.
    - `enqueue` adds `oldTail` to an index that is already absolute. The claim
      lands on the slot it found only while tail is 0. Otherwise it fails, or
      it throws `IndexOutOfBoundsException`, which the last of two or more
      segments always does.
    - `dequeue` probes the TAIL segment. It removes something only when head
      and tail coincide and the probe lands on the first cell. Otherwise it
      can report null while elements are stored.
    - `isSegmentNotEmpty` tests the cell reference, not the element, so it
      always holds. The `advanceHead` branch of `enqueue` is therefore dead.
    - `oldTail + k == oldHead` has no modulo.

    Each of these is stated as a contract or a lemma.
- **`StmBoundedQueue`** (module `StmBoundedQueue`).
  - A ring buffer whose `atomic` blocks are single transitions.
  - A block that calls `retry()` is the outcome `Retry`.
  - Its contents are abstracted to a sequence, and the operations are proved
    FIFO against it.
- **`SequentialUnboundedQueue` and `SequentialBoundedQueue`** (modules of the
  same names).
  - `dequeue` calls `getFirst`, so it never removes anything. This contradicts
    the "removes an element" wording of the `Queue` interface
    (`Queue.java:17-22`).
  - As a result, the bounded wrapper refuses every `enqueue` once it has been
    full.

### How `committed` classifies a claim

The code applies two range tests to the current head, the current tail and
the segment the claim was made in (`KQueue.Classify`).

When tail has wrapped below head:
- a claim at or before tail, or past head, commits;
- a claim in the head segment is rolled back;
- a claim between tail and head goes to the head re-check.

When it has not wrapped:
- only a claim beyond tail commits outright;
- everything else goes to the head re-check;
- nothing is ever rolled back.

The re-check's compare-and-set expects head to still hold the value read at
the start of `committed`. In a single-threaded run head has not moved since
it was read, so that compare-and-set succeeds and the claim commits.

## Model

All source paths are under `src/main/java/kylemart/multicore/project/`, written out in full below.

| member | source | states |
|---|---|---|
| KQueueSegment.EmptySlotFrom | src/main/java/kylemart/multicore/project/KQueue.java:188-195 | From a given index, the scan finds the lowest null slot at or after it, and fails iff every slot from there on is non-null |
| KQueueSegment.GetEmptySlot | src/main/java/kylemart/multicore/project/KQueue.java:187-196 | Succeeds with the lowest index holding null; fails iff every slot is non-null (the segment is full) |
| KQueueSegment.FirstElementFrom | src/main/java/kylemart/multicore/project/KQueue.java:204-211 | From a given index, finds the lowest non-null slot at or after it together with its element, and fails iff all slots from there on are null |
| KQueueSegment.GetFirstElement | src/main/java/kylemart/multicore/project/KQueue.java:203-212 | Returns the lowest-index non-null element and its index; fails iff all slots are null |
| KQueueSegment.OccupiedFrom | src/main/java/kylemart/multicore/project/KQueue.java:219-225 | True iff some slot at or after the index is non-null |
| KQueueSegment.IsOccupied | src/main/java/kylemart/multicore/project/KQueue.java:218-226 | True iff the segment is not all null, which is exactly when getFirstElement succeeds |
| KQueue.Create | src/main/java/kylemart/multicore/project/KQueue.java:29-34 | segmentCount segments of k null slots with both cursors at 0; the result is a well-formed ring iff segmentCount is at least 1 |
| KQueue.NextSegmentIndex | src/main/java/kylemart/multicore/project/KQueue.java:143-145 | The result lies in [0, segmentCount): the next segment, wrapping from the last segment to 0 |
| KQueue.AdvanceHead | src/main/java/kylemart/multicore/project/KQueue.java:151-153 | Head moves exactly one segment on if it still equals the snapshot, and otherwise nothing changes; slots and tail are untouched, and the ring stays well formed |
| KQueue.AdvanceTail | src/main/java/kylemart/multicore/project/KQueue.java:159-161 | Tail moves exactly one segment on if it still equals the snapshot, and otherwise nothing changes; slots and head are untouched, and the ring stays well formed |
| KQueue.Classify | src/main/java/kylemart/multicore/project/KQueue.java:122-135 | Gives the effective disposition of the two range tests, for both the wrapped and the unwrapped case; a claim in the segment tail still names is never rolled back |
| KQueue.Committed | src/main/java/kylemart/multicore/project/KQueue.java:114-136 | Returns false with no effect if the slot no longer holds the element. Otherwise it returns true iff the classification is not a rollback, and a rollback clears exactly that slot |
| KQueue.Enqueue | src/main/java/kylemart/multicore/project/KQueue.java:42-77 | Success: exactly the lowest null slot of the final tail segment now holds the element, and no other slot changed (the cursors may have moved on). Failure: no slot changed, the final tail segment is full, it is the segment just behind head, and the head segment is occupied. Which segment tail ends on is stated by KQueueProperties.EnqueueFillsFirstNonFull |
| KQueue.Dequeue | src/main/java/kylemart/multicore/project/KQueue.java:84-112 | Null: no slot changed, head has caught up with the original tail, and that segment is empty. Element: tail moves on first if it equals the final head, then the lowest occupied slot of the head segment is cleared and its element returned. Which segment head ends on is stated by KQueueProperties.DequeueTakesFirstOccupied |
| KQueueProperties.FreshQueue | src/main/java/kylemart/multicore/project/KQueue.java:29-34 | A new queue satisfies the ring invariant, and dequeue on it returns null without changing it |
| KQueueProperties.InvAfterTailWrite | src/main/java/kylemart/multicore/project/KQueue.java:57 | Writing into the tail segment keeps the ring invariant |
| KQueueProperties.InvAfterTailAdvance | src/main/java/kylemart/multicore/project/KQueue.java:74 | Moving tail past a full segment that is not just behind head keeps the ring invariant |
| KQueueProperties.InvAfterWrap | src/main/java/kylemart/multicore/project/KQueue.java:64-74 | When the segment after a full tail is an empty head segment, advancing head and then tail keeps the ring invariant |
| KQueueProperties.InvAfterHeadAdvance | src/main/java/kylemart/multicore/project/KQueue.java:109 | Moving head past an empty segment that is not tail keeps the ring invariant |
| KQueueProperties.InvAfterRemoval | src/main/java/kylemart/multicore/project/KQueue.java:97-103 | Advancing tail when it equals head, then clearing a slot of the head segment, keeps the ring invariant |
| KQueueProperties.EnqueuePreservesInv | src/main/java/kylemart/multicore/project/KQueue.java:42-77 | Enqueue keeps the ring invariant |
| KQueueProperties.DequeuePreservesInv | src/main/java/kylemart/multicore/project/KQueue.java:84-112 | Dequeue keeps the ring invariant |
| KQueueProperties.EnqueueFillsFirstNonFull | src/main/java/kylemart/multicore/project/KQueue.java:56-74 | Tail moves on only past full segments: every segment walked past from the original tail is full, so the element goes into the first segment at or after tail that is not full. Tail never walks past the original head segment unless it started there |
| KQueueProperties.DequeueTakesFirstOccupied | src/main/java/kylemart/multicore/project/KQueue.java:97-109 | Head moves on only past vacant segments and never past the original tail, so the element comes from the first occupied segment at or after head |
| KQueueProperties.EnqueueRejectsOnlyWhenFull | src/main/java/kylemart/multicore/project/KQueue.java:63-69 | A refused enqueue changes nothing at all, neither slots nor cursors; every segment except head is full and the head segment is occupied; with k = 1, every slot of the ring is full |
| KQueueProperties.DequeueEmptyIffNoElements | src/main/java/kylemart/multicore/project/KQueue.java:105-108 | Dequeue returns null iff the ring stores no element at all |
| KQueueProperties.ElementsEmptyIffVacant | src/main/java/kylemart/multicore/project/KQueue.java:203-212 | The ring stores no element iff every segment is all null |
| KQueueProperties.EnqueueAddsElement | src/main/java/kylemart/multicore/project/KQueue.java:56-67 | The stored multiset grows by exactly the element on success, and is unchanged on failure |
| KQueueProperties.DequeueRemovesElement | src/main/java/kylemart/multicore/project/KQueue.java:97-108 | The stored multiset loses exactly the returned element, and is unchanged when null is returned |
| BoundedKQueue.Create | src/main/java/kylemart/multicore/project/concurrent/BoundedKQueue.java:24-30 | k*numSegments cells, each an item with a null element and version 0, with both cursors at 0; the queue is well formed when both counts are positive |
| BoundedKQueue.NextVersion | src/main/java/kylemart/multicore/project/concurrent/BoundedKQueue.java:44 | The version + 1 as a Java int: it is strictly larger except at Integer.MAX_VALUE, where it wraps to Integer.MIN_VALUE |
| BoundedKQueue.AdvanceTail | src/main/java/kylemart/multicore/project/concurrent/BoundedKQueue.java:130-132 | Tail moves k slots on modulo the array length, wrapping to 0 after the last segment, and stays a segment start; if it no longer equals the snapshot, nothing changes |
| BoundedKQueue.AdvanceHead | src/main/java/kylemart/multicore/project/concurrent/BoundedKQueue.java:134-136 | Head moves k slots on modulo the array length, wrapping to 0 after the last segment, and stays a segment start; if it no longer equals the snapshot, nothing changes |
| BoundedKQueue.NextSegmentStart | src/main/java/kylemart/multicore/project/concurrent/BoundedKQueue.java:131 | Adding k to a segment start, modulo the length, gives the next segment start or 0 |
| BoundedKQueue.ScanStep | src/main/java/kylemart/multicore/project/concurrent/BoundedKQueue.java:119 | When from is a multiple of k, the step stays inside the segment and moves to the next slot, wrapping from the last slot to the first |
| BoundedKQueue.ScanCycle | src/main/java/kylemart/multicore/project/concurrent/BoundedKQueue.java:110-120 | After j steps the scan is at the j-th slot in circular order from the start; it stays inside the segment and is back at the start exactly after 0 or k steps |
| BoundedKQueue.ScanCovers | src/main/java/kylemart/multicore/project/concurrent/BoundedKQueue.java:112-120 | Every slot of the segment is visited within the first k steps |
| BoundedKQueue.TryFindLoop | src/main/java/kylemart/multicore/project/concurrent/BoundedKQueue.java:112-122 | Looking for empty, it returns the first null-element item in circular order together with the slot it came from, or the start item if there is none; looking for non-empty, it always returns the start item and leaves indexOut at 0 |
| BoundedKQueue.TryFind | src/main/java/kylemart/multicore/project/concurrent/BoundedKQueue.java:109-123 | Looking for empty, it returns a null-element item iff the segment has one, with its absolute index in indexOut; otherwise, and always when looking for non-empty, it returns the item at the start and leaves indexOut at 0 |
| BoundedKQueue.NotEmptyLoop | src/main/java/kylemart/multicore/project/concurrent/BoundedKQueue.java:98-104 | True iff some not-yet-visited cell holds a non-null reference |
| BoundedKQueue.IsSegmentNotEmpty | src/main/java/kylemart/multicore/project/concurrent/BoundedKQueue.java:95-107 | True iff some cell of the segment holds a non-null item reference |
| BoundedKQueue.SegmentNeverEmpty | src/main/java/kylemart/multicore/project/concurrent/BoundedKQueue.java:100-101 | On a well-formed queue, isSegmentNotEmpty holds for every segment, including one whose elements are all null |
| BoundedKQueue.Write | src/main/java/kylemart/multicore/project/concurrent/BoundedKQueue.java:44-45 | Replacing one cell with a new item one version on keeps the queue well formed and changes no other cell |
| BoundedKQueue.WriteBumpsVersion | src/main/java/kylemart/multicore/project/concurrent/BoundedKQueue.java:81-82 | After a slot write, every changed cell carries the previous version + 1 |
| BoundedKQueue.EnqueueIteration | src/main/java/kylemart/multicore/project/concurrent/BoundedKQueue.java:35-62 | One loop pass never returns true. It returns false iff the tail segment has no null element and tail + k == head, and then nothing changes. With no null element and tail + k != head, tail moves one segment on. With a null element, from segment 0 it writes the element, one version on, into exactly the slot `tryFind` found from the drawn offset. From any later tail segment it throws exactly when tail plus that already absolute index leaves the array, and otherwise changes nothing; from the last of two or more segments it always throws |
| BoundedKQueue.DequeueIteration | src/main/java/kylemart/multicore/project/concurrent/BoundedKQueue.java:68-91 | One loop pass never throws and always loops when head differs from tail. With head equal to tail: a null probed cell returns null with no change, whatever the other cells hold; an element at offset 0 is returned, its cell cleared one version on and tail advanced; these are the only returns. An element probed at any other offset changes no cell and advances tail when it equals head; a null probe with head apart from tail advances head |
| BoundedKQueue.ProbeMeetsHead | src/main/java/kylemart/multicore/project/concurrent/BoundedKQueue.java:82 | The dequeue compare-and-set on head + 0 succeeds against an item read at tail + offset only when the offset is 0 |
| BoundedKQueue.Enqueue | src/main/java/kylemart/multicore/project/concurrent/BoundedKQueue.java:32-64 | The loop over any number of passes never returns true. If it returns false, the final tail segment has no null element and lies just behind head |
| BoundedKQueue.Dequeue | src/main/java/kylemart/multicore/project/concurrent/BoundedKQueue.java:66-93 | The loop over any number of passes never throws; if it returns null, head equals tail |
| BoundedKQueue.EnqueueStuckPastFirstSegment | src/main/java/kylemart/multicore/project/concurrent/BoundedKQueue.java:39-49 | With a null slot in a tail segment other than the first, enqueue leaves the queue unchanged or throws, whatever the random draws |
| BoundedKQueue.FreshDequeueIsNull | src/main/java/kylemart/multicore/project/concurrent/BoundedKQueue.java:86-88 | On a new queue, dequeue returns null at once and changes nothing |
| BoundedKQueue.DequeueMissesStoredElement | src/main/java/kylemart/multicore/project/concurrent/BoundedKQueue.java:73-88 | With k = 2 and an element in slot 1, a probe of slot 0 reports null and the element stays stored |
| StmBoundedQueue.Slot | src/main/java/kylemart/multicore/project/STMQueue.java:64 | Ring positions stay below the capacity, and within one lap only offset 0 is the head |
| StmBoundedQueue.Contents | src/main/java/kylemart/multicore/project/STMQueue.java:29-31 | The abstract sequence has availableItems elements |
| StmBoundedQueue.Create | src/main/java/kylemart/multicore/project/STMQueue.java:33-41 | The new queue satisfies the ring invariant (no items, capacity spaces, both cursors 0) with every cell null; its contents are empty |
| StmBoundedQueue.IsEmpty | src/main/java/kylemart/multicore/project/STMQueue.java:49-51 | True iff the contents are empty |
| StmBoundedQueue.IsFull | src/main/java/kylemart/multicore/project/STMQueue.java:53-55 | True iff the contents fill the capacity |
| StmBoundedQueue.Append | src/main/java/kylemart/multicore/project/STMQueue.java:62-65 | Storing at tail and moving tail on keeps the ring invariant, including the count sum and tail == (head + items) % capacity, and appends the item to the contents |
| StmBoundedQueue.Put | src/main/java/kylemart/multicore/project/STMQueue.java:57-68 | Retries with no change iff full; otherwise it commits the contents with the item appended, and the invariant holds |
| StmBoundedQueue.Enqueue | src/main/java/kylemart/multicore/project/STMQueue.java:70-86 | Retries with no change iff full; otherwise it answers true with the item appended. It never answers false |
| StmBoundedQueue.Dequeue | src/main/java/kylemart/multicore/project/STMQueue.java:88-102 | Never retries. When empty it returns null with no change; otherwise it returns the first element of the contents and removes it, and the invariant holds |
| StmBoundedQueue.Fill | src/main/java/kylemart/multicore/project/STMQueue.java:79-82 | Appending a sequence (what successful enqueues do) appends exactly that sequence to the contents |
| StmBoundedQueue.DrainTakesContents | src/main/java/kylemart/multicore/project/STMQueue.java:94-99 | Dequeueing until empty returns exactly the contents, oldest first |
| StmBoundedQueue.FifoOrder | src/main/java/kylemart/multicore/project/STMQueue.java:70-102 | Items enqueued into an empty queue are dequeued in the same order |
| SequentialUnboundedQueue.First | src/main/java/kylemart/multicore/project/sequential/SequentialUnboundedQueue.java:25 | Null for an empty list, otherwise its first element |
| SequentialUnboundedQueue.Create | src/main/java/kylemart/multicore/project/sequential/SequentialUnboundedQueue.java:15 | A new queue has size 0 and dequeues null |
| SequentialUnboundedQueue.Enqueue | src/main/java/kylemart/multicore/project/sequential/SequentialUnboundedQueue.java:17-21 | Always answers true; the size grows by one, the old values are kept in order, and the value is last |
| SequentialUnboundedQueue.Dequeue | src/main/java/kylemart/multicore/project/sequential/SequentialUnboundedQueue.java:23-26 | Null on an empty queue, otherwise the first element. The queue is left unchanged, contrary to the interface's "removes" wording |
| SequentialUnboundedQueue.Size | src/main/java/kylemart/multicore/project/sequential/SequentialUnboundedQueue.java:28-31 | The number of values in the list, null ones included, which is 0 iff the list is empty; SizeCountsEnqueues ties it to the enqueue calls |
| SequentialUnboundedQueue.DequeueIdempotent | src/main/java/kylemart/multicore/project/sequential/SequentialUnboundedQueue.java:25 | Dequeueing again gives the same answer and the same queue |
| SequentialUnboundedQueue.RunKeepsEverything | src/main/java/kylemart/multicore/project/sequential/SequentialUnboundedQueue.java:17-26 | After any sequence of calls, the list is the initial list followed by every enqueued value, in order |
| SequentialUnboundedQueue.RunAnswers | src/main/java/kylemart/multicore/project/sequential/SequentialUnboundedQueue.java:17-26 | In any sequence of calls, every enqueue answers true. Every dequeue answers the first element the queue ever held (null if none), not the first one still unread |
| SequentialUnboundedQueue.SizeCountsEnqueues | src/main/java/kylemart/multicore/project/sequential/SequentialUnboundedQueue.java:28-31 | size() equals the initial size plus the number of enqueue calls |
| SequentialBoundedQueue.Create | src/main/java/kylemart/multicore/project/sequential/SequentialBoundedQueue.java:25-27 | Starts empty with the given capacity |
| SequentialBoundedQueue.Enqueue | src/main/java/kylemart/multicore/project/sequential/SequentialBoundedQueue.java:37-40 | Answers true iff size < capacity, and then appends the value. Otherwise it answers false and leaves the queue unchanged, because the inner call is short-circuited |
| SequentialBoundedQueue.Dequeue | src/main/java/kylemart/multicore/project/sequential/SequentialBoundedQueue.java:42-45 | Delegates: the first element or null, and the queue unchanged |
| SequentialBoundedQueue.Size | src/main/java/kylemart/multicore/project/sequential/SequentialBoundedQueue.java:47-50 | Delegated: the length of the inner list, which RunStaysWithinCapacity keeps within the capacity |
| SequentialBoundedQueue.RunStaysWithinCapacity | src/main/java/kylemart/multicore/project/sequential/SequentialBoundedQueue.java:39 | From a size within capacity, no sequence of calls takes the size past the capacity |
| SequentialBoundedQueue.FullStaysFull | src/main/java/kylemart/multicore/project/sequential/SequentialBoundedQueue.java:38-45 | Once size reaches capacity, no sequence of calls changes the queue again and every enqueue answers false; with capacity 0 or less, this holds from construction |
| SequentialBoundedQueue.AgreesBelowCapacity | src/main/java/kylemart/multicore/project/sequential/SequentialBoundedQueue.java:39 | Below capacity, enqueue answers and stores exactly as the inner unbounded queue does |

## Left out

- Concurrency: interleavings, linearizability, lock-freedom and ABA reasoning. Every loop is modelled single-threaded: a compare-and-set succeeds exactly when the cell or cursor still holds the expected value or object, nothing else changes a cell between its read and the compare-and-set, and every cursor re-read returns the snapshot.
- `java.util.Random`: the start offsets of `tryFind` and `isSegmentNotEmpty` are parameters in [0, k).
- `BoundedKQueue.IsCommitted`: it is modelled as the literal `false` of the stub. A constant has no contract worth stating; its consequence is stated on `EnqueueIteration` and `Enqueue`.
- `KQueue.Enqueue`: requires k >= 1, because with k = 0 the source loops forever (every segment is both full and empty).
- `KQueue.Committed`: the source compares elements by reference; the model uses value equality.
- `BoundedKQueue.Create`: `k * numSegments` must fit in a Java int. The source computes the product with wrap-around and throws only when the wrapped result is negative; otherwise it silently builds an array of the wrapped length.
- `KQueue.Create` and `BoundedKQueue.Create`: negative sizes, for which the source throws, are not modelled.
- `KQueue.Enqueue`: a null element is not modelled (the parameter is a non-null `E`). The source accepts one: its claim replaces null with null, `committed` finds the slot as expected, and the call answers true having stored nothing.
- `KQueue.Valid`: a queue with no segments is excluded. The source constructs one, and its first `enqueue` or `dequeue` throws when it indexes the empty segment array.
- `BoundedKQueue.Valid`: k = 0 and numSegments = 0 are excluded. The source constructs such a queue, and its first `enqueue` or `dequeue` throws: `random.nextInt(0)` for k = 0, and an out-of-range cell read for numSegments = 0.
- `BoundedKQueue.Enqueue` and `BoundedKQueue.Dequeue`: the loops run for a given number of passes. An unbounded run, which can spin forever, is not modelled.
- `StmBoundedQueue`: Multiverse transactions, `TxnRef` and `TxnInteger` are reduced to one state transition per `atomic` block. `retry()` is modelled as a `Retry` outcome with no change; blocking is not modelled. A negative capacity is not modelled.
- `StmBoundedQueue.main` and the benchmark class: thread demonstration, timing and printing, with no queue logic.
- `Queue`, `ConcurrentQueue` and `SequentialQueue`: these are interfaces with signatures only. Their `@return` documentation describes a boolean for the element-typed `dequeue`.
- `SequentialUnboundedQueue.SizeCountsEnqueues`: the int width of `size()` is not modelled; `LinkedList` keeps an int counter that wraps past Integer.MAX_VALUE.
