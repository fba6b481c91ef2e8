/** Properties of single-threaded `KQueue` runs: the shape every reachable state
    keeps, what a rejected enqueue and an empty dequeue say about the contents,
    and that no element is lost or duplicated. */
module KQueueProperties {
  import opened Wrappers
  import opened KQueueSegment
  import opened KQueue

  /** Walking forward round the ring, how far segment `s` is from segment `from`. */
  function Offset(segmentCount: nat, from: nat, s: nat): (r: nat)
    requires from < segmentCount && s < segmentCount
    ensures r < segmentCount
  {
    if from <= s then s - from else s + segmentCount - from
  }

  /** Segment `s` lies past tail, walking forward from head. */
  predicate Beyond<E>(q: Queue<E>, s: nat)
    requires Valid(q) && s < |q.segments|
  {
    Offset(|q.segments|, q.head, s) > Offset(|q.segments|, q.head, q.tail)
  }

  /** Segment `s` lies strictly between head and tail, walking forward from head. */
  predicate Interior<E>(q: Queue<E>, s: nat)
    requires Valid(q) && s < |q.segments|
  {
    0 < Offset(|q.segments|, q.head, s) < Offset(|q.segments|, q.head, q.tail)
  }

  /** The shape of every reachable state: segments past tail hold nothing and
      segments strictly between head and tail are full; only the head and tail
      segments may be partly filled. */
  predicate Inv<E>(q: Queue<E>) {
    && Valid(q)
    && (forall s :: 0 <= s < |q.segments| && Beyond(q, s) ==> Vacant(q.segments[s]))
    && (forall s :: 0 <= s < |q.segments| && Interior(q, s) ==> Full(q.segments[s]))
  }

  /** The elements held in one segment. */
  function SlotElements<E>(slots: Slots<E>): multiset<E>
  {
    if |slots| == 0 then multiset{}
    else SlotElements(slots[..|slots| - 1]) + ElementOf(slots[|slots| - 1])
  }

  /** The element in a slot, as a multiset of zero or one. */
  function ElementOf<E>(slot: Option<E>): multiset<E> {
    if slot.Some? then multiset{slot.value} else multiset{}
  }

  /** The elements held in the whole ring. */
  function Elements<E>(segments: seq<Slots<E>>): multiset<E>
  {
    if |segments| == 0 then multiset{}
    else Elements(segments[..|segments| - 1]) + SlotElements(segments[|segments| - 1])
  }

  /** A trade that balances still balances once both sides gain `more`. */
  lemma Extend<E>(after: multiset<E>, before: multiset<E>, out: multiset<E>, into: multiset<E>, more: multiset<E>)
    requires after + out == before + into
    ensures after + more + out == before + more + into
  {
    forall x
      ensures (after + more + out)[x] == (before + more + into)[x]
    {
      assert (after + out)[x] == (before + into)[x];
    }
  }

  /** The order in which two parts are added does not matter. */
  lemma Swap<E>(a: multiset<E>, b: multiset<E>, c: multiset<E>)
    ensures a + b + c == a + c + b
  {
    forall x
      ensures (a + b + c)[x] == (a + c + b)[x]
    {
    }
  }

  /** Replacing one slot trades its element for the new one. */
  lemma {:induction false} SlotElementsUpdate<E>(slots: Slots<E>, i: nat, v: Option<E>)
    requires i < |slots|
    ensures SlotElements(slots[i := v]) + ElementOf(slots[i]) == SlotElements(slots) + ElementOf(v)
    decreases |slots|
  {
    var n := |slots| - 1;
    var u := slots[i := v];
    assert SlotElements(slots) == SlotElements(slots[..n]) + ElementOf(slots[n]);
    if i == n {
      assert SlotElements(u) == SlotElements(slots[..n]) + ElementOf(v) by {
        assert u[..n] == slots[..n];
      }
      Swap(SlotElements(slots[..n]), ElementOf(v), ElementOf(slots[n]));
    } else {
      var front := slots[..n];
      assert SlotElements(u) == SlotElements(front[i := v]) + ElementOf(slots[n]) by {
        assert u[..n] == front[i := v];
        assert u[n] == slots[n];
      }
      assert SlotElements(front[i := v]) + ElementOf(slots[i]) == SlotElements(front) + ElementOf(v) by {
        assert front[i] == slots[i];
        SlotElementsUpdate(front, i, v);
      }
      Extend(SlotElements(front[i := v]), SlotElements(front), ElementOf(slots[i]), ElementOf(v), ElementOf(slots[n]));
    }
  }

  /** Replacing one segment trades its elements for the new segment's. */
  lemma {:induction false} ElementsUpdate<E>(segments: seq<Slots<E>>, s: nat, slots: Slots<E>)
    requires s < |segments|
    ensures Elements(segments[s := slots]) + SlotElements(segments[s])
            == Elements(segments) + SlotElements(slots)
    decreases |segments|
  {
    var n := |segments| - 1;
    var u := segments[s := slots];
    assert Elements(segments) == Elements(segments[..n]) + SlotElements(segments[n]);
    if s == n {
      assert Elements(u) == Elements(segments[..n]) + SlotElements(slots) by {
        assert u[..n] == segments[..n];
      }
      Swap(Elements(segments[..n]), SlotElements(slots), SlotElements(segments[n]));
    } else {
      var front := segments[..n];
      assert Elements(u) == Elements(front[s := slots]) + SlotElements(segments[n]) by {
        assert u[..n] == front[s := slots];
        assert u[n] == segments[n];
      }
      assert Elements(front[s := slots]) + SlotElements(segments[s]) == Elements(front) + SlotElements(slots) by {
        assert front[s] == segments[s];
        ElementsUpdate(front, s, slots);
      }
      Extend(Elements(front[s := slots]), Elements(front), SlotElements(segments[s]), SlotElements(slots), SlotElements(segments[n]));
    }
  }

  lemma {:induction false} VacantHasNoElements<E>(slots: Slots<E>)
    requires Vacant(slots)
    ensures SlotElements(slots) == multiset{}
    decreases |slots|
  {
    if |slots| > 0 {
      var n := |slots| - 1;
      assert Vacant(slots[..n]);
      VacantHasNoElements(slots[..n]);
    }
  }

  lemma {:induction false} OccupiedHasElements<E>(slots: Slots<E>, i: nat)
    requires i < |slots| && slots[i].Some?
    ensures slots[i].value in SlotElements(slots)
    decreases |slots|
  {
    var n := |slots| - 1;
    if i < n {
      assert slots[..n][i] == slots[i];
      OccupiedHasElements(slots[..n], i);
    }
  }

  lemma {:induction false} AllVacantHasNoElements<E>(segments: seq<Slots<E>>)
    requires forall s :: 0 <= s < |segments| ==> Vacant(segments[s])
    ensures Elements(segments) == multiset{}
    decreases |segments|
  {
    if |segments| > 0 {
      var n := |segments| - 1;
      assert forall s :: 0 <= s < n ==> segments[..n][s] == segments[s];
      AllVacantHasNoElements(segments[..n]);
      VacantHasNoElements(segments[n]);
    }
  }

  lemma {:induction false} OccupiedRingHasElements<E>(segments: seq<Slots<E>>, s: nat, i: nat)
    requires s < |segments| && i < |segments[s]| && segments[s][i].Some?
    ensures segments[s][i].value in Elements(segments)
    decreases |segments|
  {
    var n := |segments| - 1;
    assert Elements(segments) == Elements(segments[..n]) + SlotElements(segments[n]);
    if s < n {
      assert segments[..n][s] == segments[s];
      OccupiedRingHasElements(segments[..n], s, i);
    } else {
      OccupiedHasElements(segments[s], i);
    }
  }

  /** The ring holds no element exactly when every segment is vacant. */
  lemma ElementsEmptyIffVacant<E>(segments: seq<Slots<E>>)
    ensures Elements(segments) == multiset{} <==>
            forall s :: 0 <= s < |segments| ==> Vacant(segments[s])
  {
    if forall s :: 0 <= s < |segments| ==> Vacant(segments[s]) {
      AllVacantHasNoElements(segments);
    } else {
      var s :| 0 <= s < |segments| && !Vacant(segments[s]);
      var i :| 0 <= i < |segments[s]| && segments[s][i].Some?;
      OccupiedRingHasElements(segments, s, i);
    }
  }

  /** A fresh queue has the reachable shape and its dequeue reports empty. */
  lemma FreshQueue<E>(k: nat, segmentCount: nat)
    requires segmentCount >= 1
    ensures Inv(Create<E>(k, segmentCount))
    ensures Dequeue(Create<E>(k, segmentCount)) == Dequeued(None, Create<E>(k, segmentCount))
  {
  }

  /** Overwriting the tail segment keeps the shape: the invariant says nothing
      about it. */
  lemma InvAfterTailWrite<E>(q: Queue<E>, slots: Slots<E>)
    requires Inv(q) && |slots| == q.k
    ensures Inv(q.(segments := q.segments[q.tail := slots]))
  {
    var q' := q.(segments := q.segments[q.tail := slots]);
    forall s | 0 <= s < |q.segments| && s != q.tail
      ensures q'.segments[s] == q.segments[s]
    {
    }
  }

  /** Moving tail past a full tail segment that is not just behind head keeps
      the shape. */
  lemma InvAfterTailAdvance<E>(q: Queue<E>)
    requires Inv(q) && Full(q.segments[q.tail])
    requires NextSegmentIndex(|q.segments|, q.tail) != q.head
    ensures Inv(AdvanceTail(q, q.tail))
  {
    var n := |q.segments|;
    var q' := AdvanceTail(q, q.tail);
    assert Offset(n, q.head, q'.tail) == Offset(n, q.head, q.tail) + 1;
    forall s | 0 <= s < n && Interior(q', s)
      ensures Full(q'.segments[s])
    {
      if s != q.tail {
        assert Interior(q, s);
      }
    }
    forall s | 0 <= s < n && Beyond(q', s)
      ensures Vacant(q'.segments[s])
    {
      assert Beyond(q, s);
    }
  }

  /** When the tail segment is full and just behind a vacant head segment, moving
      head and then tail on keeps the shape. */
  lemma InvAfterWrap<E>(q: Queue<E>)
    requires Inv(q) && Full(q.segments[q.tail]) && Vacant(q.segments[q.head])
    requires NextSegmentIndex(|q.segments|, q.tail) == q.head
    ensures Inv(AdvanceTail(AdvanceHead(q, q.head), q.tail))
  {
    var n := |q.segments|;
    var q' := AdvanceTail(AdvanceHead(q, q.head), q.tail);
    assert Offset(n, q'.head, q'.tail) == n - 1;
    assert Offset(n, q.head, q.tail) == n - 1;
    forall s | 0 <= s < n && Interior(q', s)
      ensures Full(q'.segments[s])
    {
      if s != q.tail {
        assert Interior(q, s);
      }
    }
  }

  /** Moving head past a vacant head segment that is not the tail segment keeps
      the shape. */
  lemma InvAfterHeadAdvance<E>(q: Queue<E>)
    requires Inv(q) && Vacant(q.segments[q.head]) && q.head != q.tail
    ensures Inv(AdvanceHead(q, q.head))
  {
    var n := |q.segments|;
    var q' := AdvanceHead(q, q.head);
    assert Offset(n, q'.head, q'.tail) + 1 == Offset(n, q.head, q.tail);
    forall s | 0 <= s < n && s != q.head
      ensures Offset(n, q'.head, s) + 1 == Offset(n, q.head, s)
    {
    }
    forall s | 0 <= s < n && Interior(q', s)
      ensures Full(q'.segments[s])
    {
      assert Interior(q, s);
    }
    forall s | 0 <= s < n && Beyond(q', s)
      ensures Vacant(q'.segments[s])
    {
      if s != q.head {
        assert Beyond(q, s);
      }
    }
  }

  /** Clearing a slot of the head segment, after moving tail on when it named
      the head segment, keeps the shape. */
  lemma InvAfterRemoval<E>(q: Queue<E>, i: nat)
    requires Inv(q) && i < q.k
    ensures var q' := if q.tail == q.head then AdvanceTail(q, q.tail) else q;
      Inv(q'.(segments := q'.segments[q.head := q'.segments[q.head][i := None]]))
  {
    var n := |q.segments|;
    var q' := if q.tail == q.head then AdvanceTail(q, q.tail) else q;
    var q'' := q'.(segments := q'.segments[q.head := q'.segments[q.head][i := None]]);
    forall s | 0 <= s < n && s != q.head
      ensures q''.segments[s] == q.segments[s]
    {
    }
    if q.tail == q.head {
      forall s | 0 <= s < n && Beyond(q'', s)
        ensures Vacant(q''.segments[s])
      {
        assert Beyond(q, s);
      }
    }
  }

  /** Every enqueue keeps the reachable shape. */
  lemma {:induction false} EnqueuePreservesInv<E>(q: Queue<E>, e: E)
    requires Inv(q) && q.k >= 1
    ensures Inv(Enqueue(q, e).queue)
    decreases TailRoom(|q.segments|, q.head, q.tail), if Full(q.segments[q.tail]) then 1 else 0
  {
    var n := |q.segments|;
    match GetEmptySlot(q.segments[q.tail])
    case Some(i) =>
      InvAfterTailWrite(q, q.segments[q.tail][i := Some(e)]);
    case None =>
      if NextSegmentIndex(n, q.tail) == q.head {
        if !IsOccupied(q.segments[q.head]) {
          var q' := AdvanceTail(AdvanceHead(q, q.head), q.tail);
          InvAfterWrap(q);
          assert q'.segments[q'.tail][0].None?;
          EnqueuePreservesInv(q', e);
        }
      } else {
        InvAfterTailAdvance(q);
        EnqueuePreservesInv(AdvanceTail(q, q.tail), e);
      }
  }

  /** Every dequeue keeps the reachable shape. */
  lemma {:induction false} DequeuePreservesInv<E>(q: Queue<E>)
    requires Inv(q)
    ensures Inv(Dequeue(q).queue)
    decreases HeadLag(|q.segments|, q.head, q.tail)
  {
    match GetFirstElement(q.segments[q.head])
    case Some(found) =>
      InvAfterRemoval(q, found.index);
    case None =>
      if q.tail != q.head {
        InvAfterHeadAdvance(q);
        DequeuePreservesInv(AdvanceHead(q, q.head));
      }
  }

  /** Stepping the starting point one segment on brings every other segment
      one step closer. */
  lemma OffsetStep(segmentCount: nat, from: nat, s: nat)
    requires segmentCount >= 1 && from < segmentCount && s < segmentCount && s != from
    ensures Offset(segmentCount, NextSegmentIndex(segmentCount, from), s) + 1 == Offset(segmentCount, from, s)
  {
  }

  /** A full tail segment just behind a vacant head segment: head and tail both
      move on, and the element goes into the old head segment. */
  lemma EnqueueAfterWrap<E>(q: Queue<E>, e: E)
    requires Valid(q) && q.k >= 1 && GetEmptySlot(q.segments[q.tail]).None?
    requires NextSegmentIndex(|q.segments|, q.tail) == q.head && !IsOccupied(q.segments[q.head])
    ensures Enqueue(q, e).queue.tail == q.head
  {
    var q' := AdvanceTail(AdvanceHead(q, q.head), q.tail);
    assert q'.segments[q'.tail][0].None?;
    assert GetEmptySlot(q'.segments[q'.tail]).Some?;
  }

  /** Enqueue stores into the first segment at or after tail that is not full:
      tail moves on only past full segments, and never past the original head
      segment unless it started there. */
  lemma {:induction false} EnqueueFillsFirstNonFull<E>(q: Queue<E>, e: E)
    requires Valid(q) && q.k >= 1
    decreases TailRoom(|q.segments|, q.head, q.tail), if Full(q.segments[q.tail]) then 1 else 0
    ensures var r := Enqueue(q, e); var n := |q.segments|;
      && (q.head != q.tail ==> Offset(n, q.tail, r.queue.tail) <= Offset(n, q.tail, q.head))
      && forall s :: 0 <= s < n && Offset(n, q.tail, s) < Offset(n, q.tail, r.queue.tail) ==>
           Full(q.segments[s])
  {
    var n := |q.segments|;
    if GetEmptySlot(q.segments[q.tail]).None? {
      if NextSegmentIndex(n, q.tail) == q.head {
        if !IsOccupied(q.segments[q.head]) {
          EnqueueAfterWrap(q, e);
        }
      } else {
        var q' := AdvanceTail(q, q.tail);
        EnqueueFillsFirstNonFull(q', e);
        var rt := Enqueue(q', e).queue.tail;
        assert Enqueue(q, e).queue.tail == rt;
        // If tail ended where it started, no segment lies before it and there
        // is nothing to show.
        if rt != q.tail {
          OffsetStep(n, q.tail, rt);
          if q.head != q.tail {
            OffsetStep(n, q.tail, q.head);
          }
          forall s | 0 <= s < n && s != q.tail
            ensures Offset(n, q'.tail, s) + 1 == Offset(n, q.tail, s)
          {
            OffsetStep(n, q.tail, s);
          }
        }
      }
    }
  }

  /** Dequeue takes from the first occupied segment at or after head: head moves
      on only past vacant segments, and never past the original tail. */
  lemma {:induction false} DequeueTakesFirstOccupied<E>(q: Queue<E>)
    requires Valid(q)
    decreases HeadLag(|q.segments|, q.head, q.tail)
    ensures var r := Dequeue(q); var n := |q.segments|;
      && Offset(n, q.head, r.queue.head) <= Offset(n, q.head, q.tail)
      && forall s :: 0 <= s < n && Offset(n, q.head, s) < Offset(n, q.head, r.queue.head) ==>
           Vacant(q.segments[s])
  {
    var n := |q.segments|;
    if GetFirstElement(q.segments[q.head]).None? && q.head != q.tail {
      var q' := AdvanceHead(q, q.head);
      DequeueTakesFirstOccupied(q');
      var rh := Dequeue(q').queue.head;
      OffsetStep(n, q.head, q.tail);
      assert Offset(n, q'.head, q.head) == n - 1;
      OffsetStep(n, q.head, rh);
      forall s | 0 <= s < n && s != q.head
        ensures Offset(n, q'.head, s) + 1 == Offset(n, q.head, s)
      {
        OffsetStep(n, q.head, s);
      }
    }
  }

  /** An enqueue that returns false leaves every segment but the head segment
      full and the head segment occupied; with one slot per segment that is
      every slot of the ring. */
  lemma EnqueueRejectsOnlyWhenFull<E>(q: Queue<E>, e: E)
    requires Inv(q) && q.k >= 1
    ensures var r := Enqueue(q, e);
      !r.ok ==>
        && r.queue == q
        && !Vacant(q.segments[r.queue.head])
        && (forall s :: 0 <= s < |q.segments| && s != r.queue.head ==> Full(q.segments[s]))
        && (q.k == 1 ==> forall s :: 0 <= s < |q.segments| ==> Full(q.segments[s]))
  {
    var r := Enqueue(q, e);
    EnqueuePreservesInv(q, e);
    var n := |q.segments|;
    var h, t := r.queue.head, r.queue.tail;
    if !r.ok {
      assert Offset(n, h, t) == n - 1;
      forall s | 0 <= s < n && s != h
        ensures Full(q.segments[s])
      {
        if s != t {
          assert 0 < Offset(n, h, s) < Offset(n, h, t);
        }
      }
      if q.k == 1 {
        assert q.segments[h][0].Some?;
      }
    }
  }

  /** Dequeue reports empty exactly when the ring holds no element. */
  lemma DequeueEmptyIffNoElements<E>(q: Queue<E>)
    requires Inv(q)
    ensures Dequeue(q).element.None? <==> Elements(q.segments) == multiset{}
  {
    var n := |q.segments|;
    ElementsEmptyIffVacant(q.segments);
    DequeuePreservesInv(q);
    var r := Dequeue(q);
    if r.element.None? {
      var h := r.queue.head;
      forall s | 0 <= s < n
        ensures Vacant(q.segments[s])
      {
        if s != h {
          assert Offset(n, h, s) > Offset(n, h, r.queue.tail);
        }
      }
    } else {
      var found := GetFirstElement(q.segments[r.queue.head]);
      assert q.segments[r.queue.head][found.value.index].Some?;
    }
  }

  /** Replacing one slot of the ring trades its element for the new one. */
  lemma RingSlotUpdate<E>(segments: seq<Slots<E>>, t: nat, i: nat, v: Option<E>)
    requires t < |segments| && i < |segments[t]|
    ensures Elements(segments[t := segments[t][i := v]]) + ElementOf(segments[t][i])
            == Elements(segments) + ElementOf(v)
  {
    var slots := segments[t][i := v];
    SlotElementsUpdate(segments[t], i, v);
    ElementsUpdate(segments, t, slots);
    Exchange(Elements(segments[t := slots]), Elements(segments), SlotElements(segments[t]),
             SlotElements(slots), ElementOf(segments[t][i]), ElementOf(v));
  }

  /** Multiset bookkeeping for replacing a part `mid` by `part`. */
  lemma Exchange<E>(after: multiset<E>, before: multiset<E>, mid: multiset<E>,
                    part: multiset<E>, gone: multiset<E>, added: multiset<E>)
    requires after + mid == before + part
    requires part + gone == mid + added
    ensures after + gone == before + added
  {
    forall x
      ensures (after + gone)[x] == (before + added)[x]
    {
      assert (after + mid)[x] == (before + part)[x];
      assert (part + gone)[x] == (mid + added)[x];
    }
  }

  /** A successful enqueue adds exactly its element; a rejected one changes no
      element. */
  lemma EnqueueAddsElement<E>(q: Queue<E>, e: E)
    requires Valid(q) && q.k >= 1
    ensures var r := Enqueue(q, e);
      Elements(r.queue.segments) == if r.ok then Elements(q.segments) + multiset{e}
                                   else Elements(q.segments)
  {
    var r := Enqueue(q, e);
    if r.ok {
      var t := r.queue.tail;
      var i := GetEmptySlot(q.segments[t]).value;
      RingSlotUpdate(q.segments, t, i, Some(e));
    }
  }

  /** A successful dequeue removes exactly the element it returns; an empty one
      changes no element. */
  lemma DequeueRemovesElement<E>(q: Queue<E>)
    requires Valid(q)
    ensures var r := Dequeue(q);
      match r.element
      case Some(x) => Elements(q.segments) == Elements(r.queue.segments) + multiset{x}
      case None => Elements(r.queue.segments) == Elements(q.segments)
  {
    var r := Dequeue(q);
    if r.element.Some? {
      var h := r.queue.head;
      var found := GetFirstElement(q.segments[h]).value;
      RingSlotUpdate(q.segments, h, found.index, None);
    }
  }
}
