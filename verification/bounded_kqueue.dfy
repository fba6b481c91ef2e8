/** `BoundedKQueue`: a flat array of `k * numSegments` versioned slots with head
    and tail cursors holding absolute slot indices that step by `k`. The source
    is unfinished; the model follows it as written, one pass of each retry loop
    at a time, in a single-threaded run (compare-and-set succeeds exactly when
    the cell still holds the expected object, and every re-read of a cursor
    returns the snapshot). The random scan offset is a parameter. */
module BoundedKQueue {
  import opened Wrappers

  const MaxInt: int := 0x7fff_ffff
  const MinInt: int := -0x8000_0000

  /** Java's 32-bit `int` range. */
  predicate IsInt(x: int) {
    MinInt <= x <= MaxInt
  }

  /** `KQueueItem`: an element (or null) tagged with a version. */
  datatype Item<E> = Item(value: Option<E>, version: int)

  /** A cell of the slot array: a reference to an item, or null. */
  datatype Cell<E> = Null | Ref(item: Item<E>)

  datatype Queue<E> = Queue(k: nat, slots: seq<Cell<E>>, head: nat, tail: nat)

  /** Which slot `tryFind` is looking for. */
  datatype SlotType = NonEmpty | Empty

  /** What `tryFind` hands back: the item it returns, the cell that reference
      was read from (standing for the object's identity, since no item object
      is ever stored in two cells), and what it leaves in `indexOut[0]`. */
  datatype Found<E> = Found(item: Item<E>, readFrom: nat, indexOut: nat)

  /** One pass of a retry loop: it returns, goes round again, or throws
      `IndexOutOfBoundsException`. */
  datatype Step<R, E> = Return(result: R, queue: Queue<E>) | Again(queue: Queue<E>) | OutOfBounds

  /** A cursor value: the first slot of a segment. */
  predicate SegmentStart(x: nat, k: nat, length: nat) {
    k >= 1 && x % k == 0 && x + k <= length
  }

  /** Every cell holds an item with a Java-int version; cursors are segment starts. */
  predicate Valid<E>(q: Queue<E>) {
    && q.k >= 1
    && |q.slots| % q.k == 0
    && |q.slots| <= MaxInt
    && SegmentStart(q.head, q.k, |q.slots|)
    && SegmentStart(q.tail, q.k, |q.slots|)
    && forall i :: 0 <= i < |q.slots| ==> q.slots[i].Ref? && IsInt(q.slots[i].item.version)
  }

  // ---------------------------------------------------------------------------
  // Arithmetic facts about Euclidean remainder.

  lemma MulAtLeast(a: int, m: int)
    requires a >= 1 && m >= 1
    ensures a * m >= m
  {
  }

  lemma MulMonotone(a: int, b: int, m: int)
    requires a <= b && m >= 0
    ensures a * m <= b * m
  {
    assert (b - a) * m >= 0;
    assert (b - a) * m == b * m - a * m;
  }

  /** The remainder is determined by any decomposition `x == q * m + r`. */
  lemma ModUnique(x: int, m: int, q: int, r: int)
    requires m >= 1 && x == q * m + r && 0 <= r < m
    ensures x % m == r
  {
    var q', r' := x / m, x % m;
    assert (q - q') * m == r' - r;
    if q > q' {
      MulAtLeast(q - q', m);
    } else if q < q' {
      MulAtLeast(q' - q, m);
    }
  }

  /** Segment starts are multiples of `k` below a multiple of `k`. */
  lemma SegmentFits(x: nat, k: nat, length: nat)
    requires k >= 1 && x % k == 0 && length % k == 0 && x < length
    ensures x + k <= length
  {
    var a, b := x / k, length / k;
    assert x == a * k && length == b * k;
    if b <= a {
      MulMonotone(b, a, k);
    }
    MulMonotone(a + 1, b, k);
    assert (a + 1) * k == a * k + k;
  }

  /** A segment start that is not the last one is followed by another. */
  lemma NextSegmentStart(x: nat, k: nat, length: nat)
    requires SegmentStart(x, k, length) && length % k == 0
    ensures x + k < length ==> SegmentStart(x + k, k, length)
    ensures (x + k) % length == if x + k == length then 0 else x + k
    ensures SegmentStart((x + k) % length, k, length)
  {
    var a := x / k;
    assert x == a * k;
    assert x + k == (a + 1) * k;
    ModUnique(x + k, k, a + 1, 0);
    if x + k == length {
      ModUnique(x + k, length, 1, 0);
    } else {
      ModUnique(x + k, length, 0, x + k);
      SegmentFits(x + k, k, length);
    }
  }

  // ---------------------------------------------------------------------------
  // Construction, version bumps and cursors.

  /** The constructor: `k * numSegments` cells, each a null element at version 0.
      A product beyond Java's int range is not modelled. */
  function Create<E>(k: nat, numSegments: nat): (q: Queue<E>)
    requires k * numSegments <= MaxInt
    ensures |q.slots| == k * numSegments && q.k == k
    ensures forall i :: 0 <= i < |q.slots| ==> q.slots[i] == Ref(Item(None, 0))
    ensures q.head == 0 && q.tail == 0
    ensures k >= 1 && numSegments >= 1 ==> Valid(q)
  {
    if k >= 1 && numSegments >= 1 then
      assert k * numSegments >= k by { MulAtLeast(numSegments, k); }
      ModUnique(k * numSegments, k, numSegments, 0);
      Queue(k, seq(k * numSegments, _ => Ref(Item(None, 0))), 0, 0)
    else
      Queue(k, seq(k * numSegments, _ => Ref(Item(None, 0))), 0, 0)
  }

  /** `oldItem.version + 1` on a Java int: larger, except at the one wrap-around. */
  function NextVersion(v: int): (r: int)
    requires IsInt(v)
    ensures IsInt(r)
    ensures r > v <==> v < MaxInt
    ensures v == MaxInt ==> r == MinInt
  {
    if v == MaxInt then MinInt else v + 1
  }

  /** `advanceTail(oldTail, k)`: if tail still equals the snapshot it moves one
      segment on, modulo the array length; otherwise nothing changes. */
  function AdvanceTail<E>(q: Queue<E>, oldTail: nat): (r: Queue<E>)
    requires Valid(q)
    ensures Valid(r) && r.slots == q.slots && r.head == q.head && r.k == q.k
    ensures q.tail == oldTail ==> r.tail == if oldTail + q.k == |q.slots| then 0 else oldTail + q.k
    ensures q.tail != oldTail ==> r == q
  {
    if q.tail == oldTail then
      var next := (oldTail + q.k) % |q.slots|;
      NextSegmentStart(oldTail, q.k, |q.slots|);
      q.(tail := next)
    else q
  }

  /** `advanceHead(oldHead, k)`: if head still equals the snapshot it moves one
      segment on, modulo the array length; otherwise nothing changes. */
  function AdvanceHead<E>(q: Queue<E>, oldHead: nat): (r: Queue<E>)
    requires Valid(q)
    ensures Valid(r) && r.slots == q.slots && r.tail == q.tail && r.k == q.k
    ensures q.head == oldHead ==> r.head == if oldHead + q.k == |q.slots| then 0 else oldHead + q.k
    ensures q.head != oldHead ==> r == q
  {
    if q.head == oldHead then
      var next := (oldHead + q.k) % |q.slots|;
      NextSegmentStart(oldHead, q.k, |q.slots|);
      q.(head := next)
    else q
  }

  // ---------------------------------------------------------------------------
  // The circular in-segment scan.

  /** The scans' step `(index + 1) % to + from`: inside a segment that starts at
      a multiple of `to`, it moves to the next slot, wrapping to the first. */
  function ScanStep(index: nat, from: nat, to: nat): (r: nat)
    requires to >= 1
    ensures from % to == 0 && from <= index < from + to ==>
      from <= r < from + to && r == if index + 1 == from + to then from else index + 1
  {
    if from % to == 0 && from <= index < from + to then
      var c := from / to;
      assert from == c * to;
      if index + 1 == from + to then
        ModUnique(index + 1, to, c + 1, 0);
        (index + 1) % to + from
      else
        ModUnique(index + 1, to, c, index + 1 - from);
        (index + 1) % to + from
    else
      (index + 1) % to + from
  }

  /** The slot `j` steps into a circular scan of the segment at `from` of length
      `to` that started `offset` slots in. */
  function CircularAt(from: nat, to: nat, offset: nat, j: nat): nat
    requires offset < to && j <= to
  {
    from + (if offset + j < to then offset + j else offset + j - to)
  }

  /** `j` applications of the scan step, starting at `start`. */
  function ScanIterate(start: nat, from: nat, to: nat, j: nat): nat
    requires to >= 1
  {
    if j == 0 then start else ScanStep(ScanIterate(start, from, to, j - 1), from, to)
  }

  /** Started at `from + offset` in a segment that starts at a multiple of `to`,
      the scan stays in the segment, visits its slots in circular order, and is
      back at the start after exactly `to` steps and at no step before. */
  lemma {:induction false} ScanCycle(from: nat, to: nat, offset: nat, j: nat)
    requires to >= 1 && from % to == 0 && offset < to && j <= to
    ensures ScanIterate(from + offset, from, to, j) == CircularAt(from, to, offset, j)
    ensures from <= ScanIterate(from + offset, from, to, j) < from + to
    ensures ScanIterate(from + offset, from, to, j) == from + offset <==> j == 0 || j == to
  {
    if j > 0 {
      ScanCycle(from, to, offset, j - 1);
    }
  }

  /** Every slot of the segment is reached within the first `to` steps. */
  lemma ScanCovers(from: nat, to: nat, offset: nat, i: nat)
    requires offset < to && from <= i < from + to
    ensures var j := if i - from >= offset then i - from - offset else i - from - offset + to;
      j < to && CircularAt(from, to, offset, j) == i
  {
  }

  /** Frame of one scan: `k` cells from a segment start, probe offset in range. */
  predicate ScanFrame<E>(q: Queue<E>, from: nat, offset: nat) {
    q.k >= 1 && from % q.k == 0 && from + q.k <= |q.slots| && offset < q.k
  }

  /** The do-while loop of `tryFind`, at its `steps`-th visit. */
  function TryFindLoop<E>(q: Queue<E>, slotType: SlotType, from: nat, offset: nat, index: nat, steps: nat): (r: Found<E>)
    requires ScanFrame(q, from, offset) && steps < q.k
    requires forall i :: from <= i < from + q.k ==> q.slots[i].Ref?
    requires index == CircularAt(from, q.k, offset, steps)
    requires slotType == Empty ==>
      forall j :: 0 <= j < steps ==> q.slots[CircularAt(from, q.k, offset, j)].item.value.Some?
    decreases q.k - steps
    ensures slotType == NonEmpty ==> r == Found(q.slots[from + offset].item, from + offset, 0)
    ensures slotType == Empty ==>
      (r.item.value.None? <==>
         exists j :: steps <= j < q.k && q.slots[CircularAt(from, q.k, offset, j)].item.value.None?)
    ensures slotType == Empty && r.item.value.None? ==>
      && r.readFrom == r.indexOut
      && from <= r.indexOut < from + q.k
      && q.slots[r.indexOut].item == r.item
      && exists j :: steps <= j < q.k && r.indexOut == CircularAt(from, q.k, offset, j)
           && forall j' :: steps <= j' < j ==> q.slots[CircularAt(from, q.k, offset, j')].item.value.Some?
    ensures slotType == Empty && r.item.value.Some? ==> r == Found(q.slots[from + offset].item, from + offset, 0)
  {
    var start := from + offset;
    var item := q.slots[index].item;
    if slotType == Empty && item.value.None? then
      Found(item, index, index)
    else
      var next := ScanStep(index, from, q.k);
      if next == start then
        // Back at the start: this was the last of the `k` visits, and the
        // first visit was to the start itself.
        assert steps + 1 == q.k && CircularAt(from, q.k, offset, 0) == start;
        assert slotType == Empty ==> q.slots[start].item.value.Some?;
        Found(q.slots[start].item, start, 0)
      else
        TryFindLoop(q, slotType, from, offset, next, steps + 1)
  }

  /** Some slot of the segment at `from` holds a null element. */
  predicate HasEmpty<E>(q: Queue<E>, from: nat)
    requires Valid(q) && SegmentStart(from, q.k, |q.slots|)
  {
    exists i :: from <= i < from + q.k && q.slots[i].item.value.None?
  }

  /** A null element anywhere in the segment is met within the first `k` visits. */
  lemma ScanFindsEveryEmpty<E>(q: Queue<E>, from: nat, offset: nat)
    requires Valid(q) && SegmentStart(from, q.k, |q.slots|) && offset < q.k
    ensures HasEmpty(q, from) <==>
      exists j :: 0 <= j < q.k && q.slots[CircularAt(from, q.k, offset, j)].item.value.None?
  {
    if HasEmpty(q, from) {
      var i :| from <= i < from + q.k && q.slots[i].item.value.None?;
      ScanCovers(from, q.k, offset, i);
    }
  }

  /** `tryFind(slotType, from, k, indexOut)` with the random offset given. Looking
      for an empty slot it returns an item with a null element exactly when the
      segment has one, and then sets `indexOut[0]` to that slot's ABSOLUTE index;
      otherwise, and always when looking for a non-empty slot (the loop never
      tests for that), it returns the item at the start and leaves `indexOut[0]`
      at 0. */
  function TryFind<E>(q: Queue<E>, slotType: SlotType, from: nat, offset: nat): (r: Found<E>)
    requires Valid(q) && SegmentStart(from, q.k, |q.slots|) && offset < q.k
    ensures slotType == NonEmpty ==> r == Found(q.slots[from + offset].item, from + offset, 0)
    ensures slotType == Empty ==> (r.item.value.None? <==> HasEmpty(q, from))
    ensures slotType == Empty && r.item.value.None? ==>
      && r.readFrom == r.indexOut
      && from <= r.indexOut < from + q.k
      && q.slots[r.indexOut].item == r.item
    ensures slotType == Empty && r.item.value.Some? ==> r == Found(q.slots[from + offset].item, from + offset, 0)
  {
    ScanFindsEveryEmpty(q, from, offset);
    TryFindLoop(q, slotType, from, offset, from + offset, 0)
  }

  /** The do-while loop of `isSegmentNotEmpty`, at its `steps`-th visit: it tests
      the cell reference, not the element, for null. */
  function NotEmptyLoop<E>(q: Queue<E>, from: nat, offset: nat, index: nat, steps: nat): (r: bool)
    requires ScanFrame(q, from, offset) && steps < q.k
    requires index == CircularAt(from, q.k, offset, steps)
    decreases q.k - steps
    ensures r <==> exists j :: steps <= j < q.k && q.slots[CircularAt(from, q.k, offset, j)].Ref?
  {
    if q.slots[index].Ref? then true
    else
      var next := ScanStep(index, from, q.k);
      if next == from + offset then
        assert steps + 1 == q.k;
        false
      else
        NotEmptyLoop(q, from, offset, next, steps + 1)
  }

  /** `isSegmentNotEmpty(from, k)` with the random offset given: true exactly
      when some cell of the segment holds a (non-null) item reference. */
  function IsSegmentNotEmpty<E>(q: Queue<E>, from: nat, offset: nat): (r: bool)
    requires ScanFrame(q, from, offset)
    ensures r <==> exists i :: from <= i < from + q.k && q.slots[i].Ref?
  {
    ScanFindsEveryItem(q, from, offset);
    NotEmptyLoop(q, from, offset, from + offset, 0)
  }

  /** An item anywhere in the segment is met within the first `k` visits. */
  lemma ScanFindsEveryItem<E>(q: Queue<E>, from: nat, offset: nat)
    requires ScanFrame(q, from, offset)
    ensures (exists i :: from <= i < from + q.k && q.slots[i].Ref?) <==>
      exists j :: 0 <= j < q.k && q.slots[CircularAt(from, q.k, offset, j)].Ref?
  {
    if exists i :: from <= i < from + q.k && q.slots[i].Ref? {
      var i :| from <= i < from + q.k && q.slots[i].Ref?;
      ScanCovers(from, q.k, offset, i);
    }
  }

  /** Once constructed, every cell holds an item, so `isSegmentNotEmpty` holds
      of every segment whatever its elements. */
  lemma SegmentNeverEmpty<E>(q: Queue<E>, from: nat, offset: nat)
    requires Valid(q) && SegmentStart(from, q.k, |q.slots|) && offset < q.k
    ensures IsSegmentNotEmpty(q, from, offset)
  {
    assert q.slots[from].Ref?;
  }

  /** `isCommitted`: not implemented in the source; it always answers false. */
  function IsCommitted<E>(q: Queue<E>, oldTail: nat, item: Item<E>, index: nat): bool
  {
    false
  }

  /** Every cell that changed holds an item whose version is one more (as a Java
      int) than the item it replaced. */
  ghost predicate VersionsBumped<E>(before: Queue<E>, after: Queue<E>)
    requires Valid(before)
  {
    && |after.slots| == |before.slots|
    && forall i :: 0 <= i < |before.slots| && after.slots[i] != before.slots[i] ==>
         after.slots[i].Ref? && after.slots[i].item.version == NextVersion(before.slots[i].item.version)
  }

  /** `after` is `before` with one null slot of the first segment given the
      element `e` in a fresh item one version on. */
  ghost predicate ClaimsEmptySlot<E>(before: Queue<E>, after: Queue<E>, e: E)
    requires Valid(before)
  {
    exists i :: 0 <= i < before.k && before.slots[i].item.value.None? && after == Write(before, i, Some(e))
  }

  /** The cell at `i` replaced by a fresh item holding `value`, one version on. */
  function Write<E>(q: Queue<E>, i: nat, value: Option<E>): (r: Queue<E>)
    requires Valid(q) && i < |q.slots|
    ensures Valid(r) && r.k == q.k && r.head == q.head && r.tail == q.tail && |r.slots| == |q.slots|
    ensures r.slots[i] == Ref(Item(value, NextVersion(q.slots[i].item.version)))
    ensures forall j :: 0 <= j < |q.slots| && j != i ==> r.slots[j] == q.slots[j]
  {
    q.(slots := q.slots[i := Ref(Item(value, NextVersion(q.slots[i].item.version)))])
  }

  lemma WriteBumpsVersion<E>(q: Queue<E>, i: nat, value: Option<E>)
    requires Valid(q) && i < |q.slots|
    ensures VersionsBumped(q, Write(q, i, value))
  {
  }

  lemma SameCellsBumpNothing<E>(q: Queue<E>, q': Queue<E>)
    requires Valid(q) && q'.slots == q.slots
    ensures VersionsBumped(q, q')
  {
  }

  /** One pass of the `enqueue` loop, as written. `findOffset` and `probeOffset`
      are the random offsets drawn by `tryFind` and `isSegmentNotEmpty`. */
  function EnqueueIteration<E>(q: Queue<E>, e: E, findOffset: nat, probeOffset: nat): (r: Step<bool, E>)
    requires Valid(q) && findOffset < q.k && probeOffset < q.k
    // `isCommitted` never holds, so no pass returns true.
    ensures !(r.Return? && r.result)
    // A pass returns (false) exactly when the tail segment is full and the
    // head is one segment ahead of tail without wrapping.
    ensures r.Return? <==> !HasEmpty(q, q.tail) && q.tail + q.k == q.head
    ensures r.Return? ==> r.queue == q
    // The claim goes to `oldTail + index` with `index` already absolute: from
    // any segment but the first it writes nothing or throws...
    ensures q.tail > 0 && HasEmpty(q, q.tail) ==> r.OutOfBounds? || r == Again(q)
    // ...and from the last of two or more segments it always throws.
    ensures q.tail > 0 && q.tail + q.k == |q.slots| && HasEmpty(q, q.tail) ==> r.OutOfBounds?
    ensures r.OutOfBounds? ==> q.tail > 0 && HasEmpty(q, q.tail)
    // A full tail segment that is not just behind head: tail moves on.
    ensures !HasEmpty(q, q.tail) && q.tail + q.k != q.head ==> r == Again(AdvanceTail(q, q.tail))
    // From the first segment the claim writes a null slot of it, one version on.
    ensures q.tail == 0 && HasEmpty(q, q.tail) ==> r.Again? && ClaimsEmptySlot(q, r.queue, e)
    // ...namely the slot `tryFind` found, starting from `findOffset`.
    ensures q.tail == 0 && HasEmpty(q, q.tail) ==>
      r == Again(Write(q, TryFind(q, Empty, q.tail, findOffset).indexOut, Some(e)))
    // From a later segment it throws exactly when the doubled index leaves the array.
    ensures q.tail > 0 && HasEmpty(q, q.tail) ==>
      (r.OutOfBounds? <==> q.tail + TryFind(q, Empty, q.tail, findOffset).indexOut >= |q.slots|)
    ensures !r.OutOfBounds? ==> Valid(r.queue) && VersionsBumped(q, r.queue)
  {
    var oldTail := q.tail;
    var oldHead := q.head;
    LaterSegmentStart(oldTail, q.k);
    var found := TryFind(q, Empty, oldTail, findOffset);
    var index := found.indexOut;
    // The tail re-read returns the snapshot.
    if found.item.value.None? then
      var target := oldTail + index;
      if target >= |q.slots| then OutOfBounds
      // The compare-and-set compares references: it succeeds only on the cell
      // the item was read from.
      else if target != found.readFrom then
        SameCellsBumpNothing(q, q);
        Again(q)
      else
        var claimed := Write(q, target, Some(e));
        WriteBumpsVersion(q, target, Some(e));
        if IsCommitted(claimed, oldTail, claimed.slots[target].item, index) then Return(true, claimed)
        else Again(claimed)
    else if oldTail + q.k == oldHead then
      // The head re-read returns the snapshot. Every cell holds an item, so
      // `isSegmentNotEmpty` holds and the `advanceHead` branch is dead.
      SegmentNeverEmpty(q, oldHead, probeOffset);
      SameCellsBumpNothing(q, q);
      if IsSegmentNotEmpty(q, oldHead, probeOffset) then Return(false, q)
      else assert false; Again(q)
    else
      SameCellsBumpNothing(q, AdvanceTail(q, oldTail));
      Again(AdvanceTail(q, oldTail))
  }

  /** One pass of the `dequeue` loop, as written: `tryFind` scans the TAIL
      segment looking for nothing, so it returns the item at the random start
      of the tail segment, and the removal goes to the head segment's first
      cell. `offset` is the random offset drawn by `tryFind`. */
  function DequeueIteration<E>(q: Queue<E>, offset: nat): (r: Step<Option<E>, E>)
    requires Valid(q) && offset < q.k
    ensures !r.OutOfBounds?
    // Nothing is ever returned while head and tail name different segments.
    ensures q.head != q.tail ==> r.Again?
    // An element comes back only when the probe lands on the first cell of the
    // one segment head and tail name; that cell is emptied one version on and
    // tail moves on.
    ensures r.Return? && r.result.Some? ==>
      && q.head == q.tail && offset == 0
      && r.result == q.slots[q.head].item.value
      && r.queue == Write(AdvanceTail(q, q.tail), q.head, None)
    // Empty is reported from the probed cell alone, whatever the other cells hold.
    ensures r.Return? && r.result.None? ==>
      q.head == q.tail && q.slots[q.tail + offset].item.value.None? && r.queue == q
    // Conversely: a null probe with head and tail together returns null...
    ensures q.head == q.tail && q.slots[q.tail + offset].item.value.None? ==> r == Return(None, q)
    // ...a probe of the first cell of that segment returns its element...
    ensures q.head == q.tail && offset == 0 && q.slots[q.head].item.value.Some? ==>
      r == Return(q.slots[q.head].item.value, Write(AdvanceTail(q, q.tail), q.head, None))
    // ...an element probed anywhere else changes no cell, and tail moves on
    // when it named head's segment...
    ensures q.slots[q.tail + offset].item.value.Some? && !(q.head == q.tail && offset == 0) ==>
      r == Again(if q.head == q.tail then AdvanceTail(q, q.tail) else q)
    // ...and a null probe with head and tail apart moves head on.
    ensures q.head != q.tail && q.slots[q.tail + offset].item.value.None? ==> r == Again(AdvanceHead(q, q.head))
    ensures Valid(r.queue) && VersionsBumped(q, r.queue)
  {
    var oldTail := q.tail;
    var oldHead := q.head;
    var found := TryFind(q, NonEmpty, oldTail, offset);
    var index := found.indexOut;
    // The head re-read returns the snapshot.
    if found.item.value.Some? then
      var advanced := if oldHead == oldTail then AdvanceTail(q, oldTail) else q;
      var target := oldHead + index;
      // The compare-and-set compares references: it succeeds only on the cell
      // the item was read from.
      if target != found.readFrom then
        SameCellsBumpNothing(q, advanced);
        Again(advanced)
      else
        ProbeMeetsHead(q, offset);
        WriteBumpsVersion(advanced, target, None);
        Return(found.item.value, Write(advanced, target, None))
    else if oldHead == oldTail then
      // The tail re-read returns the snapshot.
      SameCellsBumpNothing(q, q);
      Return(None, q)
    else
      SameCellsBumpNothing(q, AdvanceHead(q, oldHead));
      Again(AdvanceHead(q, oldHead))
  }

  /** A multiple of `k` other than 0 is at least `k`. */
  lemma LaterSegmentStart(x: nat, k: nat)
    requires k >= 1 && x % k == 0
    ensures x > 0 ==> x >= k
  {
    if x < k {
      ModUnique(x, k, 0, x);
    }
  }

  /** The probe at `tail + offset` is the head's first cell only when head and
      tail name the same segment and the offset is 0. */
  lemma ProbeMeetsHead<E>(q: Queue<E>, offset: nat)
    requires Valid(q) && offset < q.k && q.head == q.tail + offset
    ensures offset == 0
  {
    ModUnique(q.head, q.k, q.tail / q.k, offset);
  }

  /** The random offsets of one `enqueue` pass: `tryFind`'s, then `isSegmentNotEmpty`'s. */
  datatype Draw = Draw(find: nat, probe: nat)

  predicate DrawsFit(k: nat, draws: seq<Draw>) {
    forall i :: 0 <= i < |draws| ==> draws[i].find < k && draws[i].probe < k
  }

  /** The `enqueue` loop run for as many passes as there are draws; `Again`
      means it is still looping once they are used up. */
  function Enqueue<E>(q: Queue<E>, e: E, draws: seq<Draw>): (r: Step<bool, E>)
    requires Valid(q) && DrawsFit(q.k, draws)
    decreases |draws|
    ensures !(r.Return? && r.result)
    ensures !r.OutOfBounds? ==> Valid(r.queue) && r.queue.k == q.k && |r.queue.slots| == |q.slots|
    ensures r.Return? ==> !HasEmpty(r.queue, r.queue.tail) && r.queue.tail + r.queue.k == r.queue.head
  {
    if |draws| == 0 then Again(q)
    else
      var step := EnqueueIteration(q, e, draws[0].find, draws[0].probe);
      if step.Again? then Enqueue(step.queue, e, draws[1..]) else step
  }

  /** The `dequeue` loop run for as many passes as there are offsets. */
  function Dequeue<E>(q: Queue<E>, offsets: seq<nat>): (r: Step<Option<E>, E>)
    requires Valid(q) && forall i :: 0 <= i < |offsets| ==> offsets[i] < q.k
    decreases |offsets|
    ensures !r.OutOfBounds?
    ensures r.Return? && r.result.None? ==> r.queue.head == r.queue.tail
    ensures Valid(r.queue) && r.queue.k == q.k && |r.queue.slots| == |q.slots|
  {
    if |offsets| == 0 then Again(q)
    else
      var step := DequeueIteration(q, offsets[0]);
      if step.Again? then Dequeue(step.queue, offsets[1..]) else step
  }

  /** With a null slot in any segment but the first, the tail never moves and
      `enqueue` spins or throws, whatever the random draws. */
  lemma {:induction false} EnqueueStuckPastFirstSegment<E>(q: Queue<E>, e: E, draws: seq<Draw>)
    requires Valid(q) && DrawsFit(q.k, draws) && q.tail > 0 && HasEmpty(q, q.tail)
    decreases |draws|
    ensures Enqueue(q, e, draws) == Again(q) || Enqueue(q, e, draws).OutOfBounds?
  {
    if |draws| > 0 {
      var step := EnqueueIteration(q, e, draws[0].find, draws[0].probe);
      if step.Again? {
        assert DrawsFit(q.k, draws[1..]);
        EnqueueStuckPastFirstSegment(q, e, draws[1..]);
      }
    }
  }

  /** A fresh queue dequeues null at once, whatever the offset. */
  lemma FreshDequeueIsNull<E>(k: nat, numSegments: nat, offset: nat)
    requires k >= 1 && numSegments >= 1 && k * numSegments <= MaxInt && offset < k
    ensures DequeueIteration(Create<E>(k, numSegments), offset) == Return(None, Create(k, numSegments))
  {
  }

  /** An element stored off the probed cell of the head segment is not seen:
      with `k = 2`, an element in slot 1 and the probe on slot 0, `dequeue`
      reports null and leaves the element in place. */
  lemma DequeueMissesStoredElement(e: int)
    ensures var q := Write(Create<int>(2, 1), 1, Some(e));
      DequeueIteration(q, 0) == Return(None, q) && q.slots[1].item.value == Some(e)
  {
    var q := Write(Create<int>(2, 1), 1, Some(e));
    assert q.slots[0].item.value.None?;
  }
}
