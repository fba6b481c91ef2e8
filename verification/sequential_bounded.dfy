/** `SequentialBoundedQueue`: an unbounded sequential queue behind a capacity
    check on `enqueue`. Since the inner `dequeue` removes nothing, a queue that
    reaches its capacity refuses every later `enqueue`. */
module SequentialBoundedQueue {
  import opened Wrappers
  import Inner = SequentialUnboundedQueue

  /** The wrapped queue and the capacity (a Java int, possibly negative). */
  datatype Queue<T> = Queue(values: Inner.Queue<T>, capacity: int)

  /** The constructor: an empty inner queue. */
  function Create<T>(capacity: int): (q: Queue<T>)
    ensures Size(q) == 0 && q.capacity == capacity
  {
    Queue(Inner.Create(), capacity)
  }

  /** `size()`: delegated to the inner queue, so it counts every value the
      wrapper has accepted. */
  function Size<T>(q: Queue<T>): (r: nat)
    ensures r == |q.values.values|
  {
    Inner.Size(q.values)
  }

  /** `enqueue(value)`: `size() < capacity && values.enqueue(value)`; the inner
      call is made only below capacity. */
  function Enqueue<T>(q: Queue<T>, value: Option<T>): (r: (bool, Queue<T>))
    ensures r.0 <==> Size(q) < q.capacity
    ensures r.0 ==> r.1.values.values == q.values.values + [value] && r.1.capacity == q.capacity
    ensures !r.0 ==> r.1 == q
  {
    if Inner.Size(q.values) < q.capacity then
      var e := Inner.Enqueue(q.values, value);
      (e.0, q.(values := e.1))
    else (false, q)
  }

  /** `dequeue()`: delegated; the first element, which stays, or null. */
  function Dequeue<T>(q: Queue<T>): (r: (Option<T>, Queue<T>))
    ensures r.1 == q
    ensures r.0 == Inner.First(q.values.values)
  {
    var d := Inner.Dequeue(q.values);
    (d.0, q.(values := d.1))
  }

  /** One call applied to the queue; `Inner.Run` runs a sequence of them. */
  function Apply<T>(q: Queue<T>, op: Inner.Op<T>): (r: (Inner.Answer<T>, Queue<T>))
  {
    match op
    case Enq(v) => var e := Enqueue(q, v); (Inner.Accepted(e.0), e.1)
    case Deq => var d := Dequeue(q); (Inner.Took(d.0), d.1)
  }

  /** The size never goes past the capacity, and no call changes the capacity. */
  lemma {:induction false} RunStaysWithinCapacity<T>(q: Queue<T>, ops: seq<Inner.Op<T>>)
    requires Size(q) <= q.capacity
    decreases |ops|
    ensures Size(Inner.Run(Apply, q, ops).1) <= q.capacity && Inner.Run(Apply, q, ops).1.capacity == q.capacity
  {
    if |ops| > 0 {
      RunStaysWithinCapacity(Apply(q, ops[0]).1, ops[1..]);
    }
  }

  /** Once full (or from the start, for a capacity of 0 or less) the queue never
      changes again, and every `enqueue` answers false. */
  lemma {:induction false} FullStaysFull<T>(q: Queue<T>, ops: seq<Inner.Op<T>>)
    requires Size(q) >= q.capacity
    decreases |ops|
    ensures Inner.Run(Apply, q, ops).1 == q
    ensures forall i :: 0 <= i < |ops| && ops[i].Enq? ==> Inner.Run(Apply, q, ops).0[i] == Inner.Accepted(false)
  {
    if |ops| > 0 {
      FullStaysFull(Apply(q, ops[0]).1, ops[1..]);
      forall i | 0 <= i < |ops| && ops[i].Enq?
        ensures Inner.Run(Apply, q, ops).0[i] == Inner.Accepted(false)
      {
        if i > 0 {
          assert Inner.Run(Apply, q, ops).0[i] == Inner.Run(Apply, q, ops[1..]).0[i - 1];
          assert ops[1..][i - 1] == ops[i];
        }
      }
    }
  }

  /** Below capacity the wrapper answers exactly as the unbounded queue does. */
  lemma AgreesBelowCapacity<T>(q: Queue<T>, value: Option<T>)
    requires Size(q) < q.capacity
    ensures Enqueue(q, value).0 == Inner.Enqueue(q.values, value).0
    ensures Enqueue(q, value).1.values == Inner.Enqueue(q.values, value).1
  {
  }
}
