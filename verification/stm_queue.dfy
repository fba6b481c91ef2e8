/** `StmBoundedQueue`: a ring buffer of `capacity` transactional cells with
    transactional counters of items and free spaces and head/tail indices. Each
    `atomic` block is one transition of the queue state; a block that calls
    `retry()` commits nothing and is reported as `Retry` (Multiverse blocks it
    until a variable it read changes). Elements may be null, so a cell holds an
    `Option`. */
module StmBoundedQueue {
  import opened Wrappers

  datatype Queue<T> = Queue(
    availableItems: int,
    availableSpaces: int,
    items: seq<Option<T>>,
    head: nat,
    tail: nat)

  /** The outcome of one atomic block. */
  datatype Txn<R, T> = Retry | Commit(result: R, queue: Queue<T>)

  /** The cell `i` places after `head` in a ring of `capacity` cells (`i` may be
      the full capacity, which comes back to `head`). */
  function Slot(capacity: nat, head: nat, i: nat): (r: nat)
    requires head < capacity && i <= capacity
    ensures r < capacity
    ensures i < capacity ==> (r == head <==> i == 0)
  {
    if head + i < capacity then head + i else head + i - capacity
  }

  /** The ring holds `availableItems` elements from `head` to just before
      `tail`; the counts add up to the capacity and every other cell is null. */
  predicate Inv<T>(q: Queue<T>) {
    var capacity := |q.items|;
    && 0 <= q.availableItems
    && 0 <= q.availableSpaces
    && q.availableItems + q.availableSpaces == capacity
    && (capacity == 0 ==> q.head == 0 && q.tail == 0)
    && (capacity > 0 ==>
          && q.head < capacity
          && q.tail == Slot(capacity, q.head, q.availableItems)
          && forall i :: q.availableItems <= i < capacity ==> q.items[Slot(capacity, q.head, i)].None?)
  }

  /** The queued elements, oldest first. */
  function Contents<T>(q: Queue<T>): (r: seq<Option<T>>)
    requires Inv(q)
    ensures |r| == q.availableItems
  {
    seq(q.availableItems, i requires 0 <= i < q.availableItems => q.items[Slot(|q.items|, q.head, i)])
  }

  /** `(x + 1) % capacity` for a cell index `x`. */
  lemma NextIndex(x: nat, capacity: nat)
    requires x < capacity
    ensures (x + 1) % capacity == if x + 1 == capacity then 0 else x + 1
  {
  }

  /** The constructor: empty, with `capacity` null cells. A negative capacity
      makes the source throw and is not modelled. */
  function Create<T>(capacity: nat): (q: Queue<T>)
    ensures Inv(q) && |q.items| == capacity && Contents(q) == []
    ensures forall i :: 0 <= i < capacity ==> q.items[i].None?
  {
    Queue(0, capacity, seq(capacity, _ => None), 0, 0)
  }

  /** `isEmpty`: no items are available. */
  function IsEmpty<T>(q: Queue<T>): (r: bool)
    requires Inv(q)
    ensures r <==> Contents(q) == []
  {
    q.availableItems == 0
  }

  /** `isFull`: no spaces are available. */
  function IsFull<T>(q: Queue<T>): (r: bool)
    requires Inv(q)
    ensures r <==> |Contents(q)| == |q.items|
  {
    q.availableSpaces == 0
  }

  /** The body shared by `put` and `enqueue`: store at `tail`, move `tail` on. */
  function Append<T>(q: Queue<T>, item: Option<T>): (r: Queue<T>)
    requires Inv(q) && q.availableSpaces != 0
    ensures Inv(r) && |r.items| == |q.items| && r.head == q.head
    ensures Contents(r) == Contents(q) + [item]
  {
    var capacity := |q.items|;
    NextIndex(q.tail, capacity);
    var r := Queue(q.availableItems + 1, q.availableSpaces - 1, q.items[q.tail := item], q.head, (q.tail + 1) % capacity);
    assert forall i :: 0 <= i < q.availableItems ==> Slot(capacity, q.head, i) != q.tail;
    assert Contents(r) == Contents(q) + [item];
    r
  }

  /** `put(item)`: retries while full, otherwise appends at the tail. */
  function Put<T>(q: Queue<T>, item: Option<T>): (r: Txn<(), T>)
    requires Inv(q)
    ensures r.Retry? <==> |Contents(q)| == |q.items|
    ensures r.Commit? ==> Inv(r.queue) && |r.queue.items| == |q.items| && Contents(r.queue) == Contents(q) + [item]
  {
    if q.availableSpaces == 0 then Retry
    else Commit((), Append(q, item))
  }

  /** `enqueue(item)`: as `put`, answering true; the `return true` after
      `retry()` is never reached, so false is never answered. */
  function Enqueue<T>(q: Queue<T>, item: Option<T>): (r: Txn<bool, T>)
    requires Inv(q)
    ensures r.Retry? <==> |Contents(q)| == |q.items|
    ensures r.Commit? ==> r.result
    ensures r.Commit? ==> Inv(r.queue) && |r.queue.items| == |q.items| && Contents(r.queue) == Contents(q) + [item]
  {
    if q.availableSpaces == 0 then Retry
    else Commit(true, Append(q, item))
  }

  /** `dequeue()`: null with no change when empty (it never retries);
      otherwise the oldest element, whose cell is cleared. */
  function Dequeue<T>(q: Queue<T>): (r: Txn<Option<T>, T>)
    requires Inv(q)
    ensures r.Commit? && Inv(r.queue) && |r.queue.items| == |q.items|
    ensures Contents(q) == [] ==> r.result.None? && r.queue == q
    ensures Contents(q) != [] ==> r.result == Contents(q)[0] && Contents(r.queue) == Contents(q)[1..]
  {
    if q.availableItems == 0 then Commit(None, q)
    else
      var capacity := |q.items|;
      var item := q.items[q.head];
      NextIndex(q.head, capacity);
      var r := Queue(q.availableItems - 1, q.availableSpaces + 1, q.items[q.head := None], (q.head + 1) % capacity, q.tail);
      assert forall i :: 0 <= i < capacity ==>
        Slot(capacity, r.head, i) == Slot(capacity, q.head, i + 1) by {
        forall i | 0 <= i < capacity
          ensures Slot(capacity, r.head, i) == Slot(capacity, q.head, i + 1)
        {
        }
      }
      assert Inv(r);
      assert Contents(r) == Contents(q)[1..];
      Commit(item, r)
  }

  /** `q` after enqueueing each of `items` in turn. */
  function Fill<T>(q: Queue<T>, items: seq<Option<T>>): (r: Queue<T>)
    requires Inv(q) && |Contents(q)| + |items| <= |q.items|
    decreases |items|
    ensures Inv(r) && |r.items| == |q.items| && Contents(r) == Contents(q) + items
  {
    if |items| == 0 then q
    else
      var r := Append(Fill(q, items[..|items| - 1]), items[|items| - 1]);
      assert items == items[..|items| - 1] + [items[|items| - 1]];
      r
  }

  /** What repeated `dequeue` calls return until the queue is empty. */
  function Drain<T>(q: Queue<T>): (r: seq<Option<T>>)
    requires Inv(q)
    decreases q.availableItems
  {
    if q.availableItems == 0 then []
    else
      var step := Dequeue(q);
      [step.result] + Drain(step.queue)
  }

  /** Draining returns exactly the contents, oldest first. */
  lemma {:induction false} DrainTakesContents<T>(q: Queue<T>)
    requires Inv(q)
    decreases q.availableItems
    ensures Drain(q) == Contents(q)
  {
    if q.availableItems > 0 {
      DrainTakesContents(Dequeue(q).queue);
    }
  }

  /** First in, first out: enqueueing `items` into an empty queue and then
      dequeueing until empty gives `items` back in order. */
  lemma FifoOrder<T>(q: Queue<T>, items: seq<Option<T>>)
    requires Inv(q) && Contents(q) == [] && |items| <= |q.items|
    ensures Drain(Fill(q, items)) == items
  {
    DrainTakesContents(Fill(q, items));
  }
}
