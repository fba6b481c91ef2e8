/** `SequentialUnboundedQueue`: a queue over a linked list. `dequeue` reads the
    first element without removing it, so the list only ever grows. Elements
    may be null, so the list holds `Option`s. */
module SequentialUnboundedQueue {
  import opened Wrappers

  datatype Queue<T> = Queue(values: seq<Option<T>>)

  /** One call on a queue, and what it answers. */
  datatype Op<T> = Enq(value: Option<T>) | Deq
  datatype Answer<T> = Accepted(ok: bool) | Took(element: Option<T>)

  /** The head of a list, or null when it is empty. */
  function First<T>(s: seq<Option<T>>): (r: Option<T>)
    ensures s == [] ==> r.None?
    ensures s != [] ==> r == s[0]
  {
    if s == [] then None else s[0]
  }

  /** A new queue over an empty list. */
  function Create<T>(): (q: Queue<T>)
    ensures Size(q) == 0 && First(q.values).None?
  {
    Queue([])
  }

  /** `enqueue(value)`: `addLast`, always answering true. */
  function Enqueue<T>(q: Queue<T>, value: Option<T>): (r: (bool, Queue<T>))
    ensures r.0
    ensures Size(r.1) == Size(q) + 1
    ensures r.1.values[..Size(q)] == q.values && r.1.values[Size(q)] == value
  {
    (true, Queue(q.values + [value]))
  }

  /** `dequeue()`: null when empty, otherwise the first element, which stays. */
  function Dequeue<T>(q: Queue<T>): (r: (Option<T>, Queue<T>))
    ensures r.1 == q
    ensures Size(q) == 0 ==> r.0.None?
    ensures Size(q) > 0 ==> r.0 == q.values[0]
  {
    (if |q.values| == 0 then None else q.values[0], q)
  }

  /** `size()`: the number of values in the list, null ones included. */
  function Size<T>(q: Queue<T>): (r: nat)
    ensures r == 0 <==> q.values == []
    ensures r == |q.values|
  {
    |q.values|
  }

  /** Dequeueing twice answers the same as dequeueing once. */
  lemma DequeueIdempotent<T>(q: Queue<T>)
    ensures Dequeue(Dequeue(q).1) == Dequeue(q)
  {
  }

  /** One call applied to the queue. */
  function Apply<T>(q: Queue<T>, op: Op<T>): (r: (Answer<T>, Queue<T>))
  {
    match op
    case Enq(v) => var e := Enqueue(q, v); (Accepted(e.0), e.1)
    case Deq => var d := Dequeue(q); (Took(d.0), d.1)
  }

  /** The answers to `ops` applied in order by `apply`, and the final state;
      both queue classes run their call sequences through it. */
  function Run<S, T>(apply: (S, Op<T>) -> (Answer<T>, S), q: S, ops: seq<Op<T>>): (r: (seq<Answer<T>>, S))
    decreases |ops|
    ensures |r.0| == |ops|
  {
    if |ops| == 0 then ([], q)
    else
      var step := apply(q, ops[0]);
      var rest := Run(apply, step.1, ops[1..]);
      ([step.0] + rest.0, rest.1)
  }

  /** The values of the enqueue calls in `ops`, in order. */
  function Enqueued<T>(ops: seq<Op<T>>): seq<Option<T>>
    decreases |ops|
  {
    if |ops| == 0 then []
    else (if ops[0].Enq? then [ops[0].value] else []) + Enqueued(ops[1..])
  }

  /** The list ends up as everything enqueued, in order: nothing is removed. */
  lemma {:induction false} RunKeepsEverything<T>(q: Queue<T>, ops: seq<Op<T>>)
    decreases |ops|
    ensures Run(Apply, q, ops).1.values == q.values + Enqueued(ops)
  {
    if |ops| > 0 {
      var step := Apply(q, ops[0]);
      RunKeepsEverything(step.1, ops[1..]);
    }
  }

  /** Every enqueue answers true, and every dequeue answers the first element
      the queue ever held: what it started with, else the first value enqueued
      before that call (null when there is none). */
  lemma {:induction false} RunAnswers<T>(q: Queue<T>, ops: seq<Op<T>>, i: nat)
    requires i < |ops|
    decreases |ops|
    ensures ops[i].Enq? ==> Run(Apply, q, ops).0[i] == Accepted(true)
    ensures ops[i].Deq? ==> Run(Apply, q, ops).0[i] == Took(First(q.values + Enqueued(ops[..i])))
  {
    var step := Apply(q, ops[0]);
    if i > 0 {
      RunAnswers(step.1, ops[1..], i - 1);
      assert ops[1..][..i - 1] == ops[..i][1..];
      assert ops[..i][0] == ops[0];
      assert step.1.values + Enqueued(ops[1..][..i - 1]) == q.values + Enqueued(ops[..i]);
      if q.values != [] {
        assert (q.values + Enqueued(ops[..i]))[0] == q.values[0];
      }
    } else {
      assert ops[..i] == [];
    }
  }

  /** `size()` counts every value ever enqueued. */
  lemma SizeCountsEnqueues<T>(q: Queue<T>, ops: seq<Op<T>>)
    ensures Size(Run(Apply, q, ops).1) == Size(q) + |Enqueued(ops)|
  {
    RunKeepsEverything(q, ops);
  }
}
