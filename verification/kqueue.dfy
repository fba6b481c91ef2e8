/** `KQueue`: a ring of `segmentCount` segments of `k` slots with a head and a
    tail cursor naming segments. Modelled for a single-threaded run: every
    compare-and-set succeeds and every re-read of a cursor returns the value
    just read, so each retry loop becomes a terminating recursive function. */
module KQueue {
  import opened Wrappers
  import opened KQueueSegment

  /** The queue: `k` is the segment length given to the constructor. */
  datatype Queue<E> = Queue(k: nat, segments: seq<Slots<E>>, head: nat, tail: nat)

  /** What `enqueue` returns, with the state it leaves behind. */
  datatype Enqueued<E> = Enqueued(ok: bool, queue: Queue<E>)

  /** What `dequeue` returns (`None` is null), with the state it leaves behind. */
  datatype Dequeued<E> = Dequeued(element: Option<E>, queue: Queue<E>)

  /** The outcome of the range test in `committed`. */
  datatype Disposition = Commit | RollBack | RecheckHead

  /** At least one segment, every segment `k` slots long, cursors inside the ring. */
  predicate Valid<E>(q: Queue<E>) {
    && |q.segments| >= 1
    && q.head < |q.segments|
    && q.tail < |q.segments|
    && forall s :: 0 <= s < |q.segments| ==> |q.segments[s]| == q.k
  }

  /** The constructor: `segmentCount` segments of `k` null slots, both cursors 0. */
  function Create<E>(k: nat, segmentCount: nat): (q: Queue<E>)
    ensures |q.segments| == segmentCount && q.head == 0 && q.tail == 0 && q.k == k
    ensures forall s :: 0 <= s < segmentCount ==> |q.segments[s]| == k && Vacant(q.segments[s])
    ensures segmentCount >= 1 <==> Valid(q)
  {
    Queue(k, seq(segmentCount, _ => seq(k, _ => None)), 0, 0)
  }

  /** `nextSegmentIndex`: the following segment of the ring, wrapping to 0. */
  function NextSegmentIndex(segmentCount: nat, i: nat): (r: nat)
    requires segmentCount >= 1
    ensures r < segmentCount
    ensures i < segmentCount ==> r == if i + 1 == segmentCount then 0 else i + 1
  {
    (i + 1) % segmentCount
  }

  /** `advanceHeadIndex`: moves head one segment on if it still equals the
      snapshot `oldHead`; otherwise nothing changes. */
  function AdvanceHead<E>(q: Queue<E>, oldHead: nat): (r: Queue<E>)
    requires Valid(q)
    ensures Valid(r) && r.segments == q.segments && r.tail == q.tail && r.k == q.k
    ensures q.head == oldHead ==> r.head == NextSegmentIndex(|q.segments|, oldHead)
    ensures q.head != oldHead ==> r == q
  {
    if q.head == oldHead then q.(head := NextSegmentIndex(|q.segments|, oldHead)) else q
  }

  /** `advanceTailIndex`: moves tail one segment on if it still equals the
      snapshot `oldTail`; otherwise nothing changes. */
  function AdvanceTail<E>(q: Queue<E>, oldTail: nat): (r: Queue<E>)
    requires Valid(q)
    ensures Valid(r) && r.segments == q.segments && r.head == q.head && r.k == q.k
    ensures q.tail == oldTail ==> r.tail == NextSegmentIndex(|q.segments|, oldTail)
    ensures q.tail != oldTail ==> r == q
  {
    if q.tail == oldTail then q.(tail := NextSegmentIndex(|q.segments|, oldTail)) else q
  }

  /** The two range tests of `committed`, in the order the source applies them,
      on the current head and tail and the segment the claim was made in. */
  function Classify(currentHead: nat, currentTail: nat, oldTail: nat): (r: Disposition)
    // When the active range wraps, the claim commits unless it sits in the
    // head segment (roll back) or strictly between tail and head (re-check).
    ensures currentTail < currentHead ==>
      (r == Commit <==> oldTail <= currentTail || currentHead < oldTail)
      && (r == RollBack <==> oldTail == currentHead)
    // When it does not wrap, only a segment beyond the tail commits outright;
    // every other segment goes to the head re-check and none is rolled back.
    ensures currentHead <= currentTail ==>
      (r == Commit <==> currentTail < oldTail) && r != RollBack
    // A claim in the segment tail still names is never rolled back.
    ensures oldTail == currentTail ==> r != RollBack
  {
    if || (currentTail < currentHead && (oldTail <= currentTail || currentHead < oldTail))
       || (currentHead <= currentTail && (currentHead < oldTail && currentTail < oldTail))
    then Commit
    else if || (currentTail < currentHead && (oldTail <= currentTail || currentHead <= oldTail))
            || (currentHead <= currentTail && (currentHead <= oldTail && currentTail < oldTail))
    then RollBack
    else RecheckHead
  }

  /** `committed`: decides whether the element just stored in slot `slotIndex` of
      segment `oldTail` stays. The head compare-and-set of the re-check branch
      compares head with the value just read, so it succeeds; the roll-back
      compare-and-set finds the element it just checked, so it succeeds too. */
  function Committed<E(==)>(q: Queue<E>, oldTail: nat, slotIndex: nat, expected: E): (r: (bool, Queue<E>))
    requires Valid(q) && oldTail < |q.segments| && slotIndex < q.k
    ensures q.segments[oldTail][slotIndex] != Some(expected) ==> r == (false, q)
    ensures r.0 <==> q.segments[oldTail][slotIndex] == Some(expected)
                     && Classify(q.head, q.tail, oldTail) != RollBack
    ensures r.0 ==> r.1 == q
    ensures !r.0 && q.segments[oldTail][slotIndex] == Some(expected) ==>
      r.1 == q.(segments := q.segments[oldTail := q.segments[oldTail][slotIndex := None]])
    ensures Valid(r.1)
  {
    if q.segments[oldTail][slotIndex] != Some(expected) then (false, q)
    else
      match Classify(q.head, q.tail, oldTail)
      case Commit => (true, q)
      case RollBack => (false, q.(segments := q.segments[oldTail := q.segments[oldTail][slotIndex := None]]))
      case RecheckHead => (true, q)
  }

  /** How many more times tail can move on before it reaches the segment just
      behind head. */
  function TailRoom(segmentCount: nat, head: nat, tail: nat): nat
    requires head < segmentCount && tail < segmentCount
  {
    if tail < head then head - tail - 1 else head + segmentCount - tail - 1
  }

  /** How many segments head is behind tail. */
  function HeadLag(segmentCount: nat, head: nat, tail: nat): nat
    requires head < segmentCount && tail < segmentCount
  {
    if head <= tail then tail - head else tail + segmentCount - head
  }

  /** `enqueue`. Each call of the loop takes a snapshot of both cursors; if the
      tail segment has a null slot it claims the lowest one and commits;
      otherwise, when the tail segment is the one just behind head, it reports
      a full queue if the head segment is occupied and moves head on if not;
      then it moves tail on and loops. `k >= 1`: with `k == 0` the source loops
      forever. */
  function Enqueue<E(==)>(q: Queue<E>, e: E): (r: Enqueued<E>)
    requires Valid(q) && q.k >= 1
    decreases TailRoom(|q.segments|, q.head, q.tail), if Full(q.segments[q.tail]) then 1 else 0
    ensures Valid(r.queue) && r.queue.k == q.k && |r.queue.segments| == |q.segments|
    ensures r.ok ==>
      var t := r.queue.tail;
      var slot := GetEmptySlot(q.segments[t]);
      slot.Some? && r.queue.segments == q.segments[t := q.segments[t][slot.value := Some(e)]]
    ensures !r.ok ==>
      && r.queue.segments == q.segments
      && Full(q.segments[r.queue.tail])
      && NextSegmentIndex(|q.segments|, r.queue.tail) == r.queue.head
      && !Vacant(q.segments[r.queue.head])
  {
    var oldTail := q.tail;
    var oldHead := q.head;
    match GetEmptySlot(q.segments[oldTail])
    case Some(i) =>
      // The claim: the slot still holds the null just found.
      var claimed := q.(segments := q.segments[oldTail := q.segments[oldTail][i := Some(e)]]);
      var (ok, after) := Committed(claimed, oldTail, i, e);
      // Tail has not moved since the claim, so the claim commits and the
      // source's retry is dead code in a single-threaded run.
      if ok then Enqueued(true, after) else assert false; Enqueued(false, after)
    case None =>
      if NextSegmentIndex(|q.segments|, oldTail) == oldHead then
        // Head re-read equals the snapshot, so an occupied head segment
        // means the queue is full.
        if IsOccupied(q.segments[oldHead]) then Enqueued(false, q)
        else
          var q' := AdvanceTail(AdvanceHead(q, oldHead), oldTail);
          assert q'.segments[q'.tail][0].None?;
          Enqueue(q', e)
      else
        Enqueue(AdvanceTail(q, oldTail), e)
  }

  /** `dequeue`. Each call of the loop takes a snapshot of both cursors; if the
      head segment holds an element it first moves tail on when head and tail
      name the same segment, then clears the lowest occupied slot and returns its
      element; otherwise it reports an empty queue when head and tail coincide,
      and moves head on and loops when they do not. */
  function Dequeue<E>(q: Queue<E>): (r: Dequeued<E>)
    requires Valid(q)
    decreases HeadLag(|q.segments|, q.head, q.tail)
    ensures Valid(r.queue) && r.queue.k == q.k && |r.queue.segments| == |q.segments|
    ensures r.element.None? ==>
      && r.queue.segments == q.segments
      && r.queue.head == r.queue.tail == q.tail
      && Vacant(q.segments[r.queue.head])
    ensures r.element.Some? ==>
      var h := r.queue.head;
      var found := GetFirstElement(q.segments[h]);
      && found.Some?
      && r.element.value == found.value.element
      && r.queue.segments == q.segments[h := q.segments[h][found.value.index := None]]
      && r.queue.tail == if h == q.tail then NextSegmentIndex(|q.segments|, q.tail) else q.tail
  {
    var oldTail := q.tail;
    var oldHead := q.head;
    match GetFirstElement(q.segments[oldHead])
    case Some(found) =>
      var q' := if oldTail == oldHead then AdvanceTail(q, oldTail) else q;
      // The removal: the slot still holds the element just found.
      Dequeued(Some(found.element),
               q'.(segments := q'.segments[oldHead := q'.segments[oldHead][found.index := None]]))
    case None =>
      // Tail re-read equals the snapshot.
      if oldTail == oldHead then Dequeued(None, q)
      else Dequeue(AdvanceHead(q, oldHead))
  }
}
