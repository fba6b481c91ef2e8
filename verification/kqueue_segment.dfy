/** The `Segment` helper class of KQueue: one segment is an array of `k` slots,
    each holding an element or null, and three linear scans over it. */
module KQueueSegment {
  import opened Wrappers

  /** The slots of one segment; `None` is an empty (null) slot. */
  type Slots<E> = seq<Option<E>>

  /** Every slot of the segment holds an element. */
  predicate Full<E>(slots: Slots<E>) {
    forall i :: 0 <= i < |slots| ==> slots[i].Some?
  }

  /** No slot of the segment holds an element. */
  predicate Vacant<E>(slots: Slots<E>) {
    forall i :: 0 <= i < |slots| ==> slots[i].None?
  }

  /** What `getFirstElement` writes into its `FindResult`. */
  datatype Found<E> = Found(element: E, index: nat)

  /** The loop of `getEmptySlot`, from slot `index` on. */
  function EmptySlotFrom<E>(slots: Slots<E>, index: nat): (r: Option<nat>)
    requires index <= |slots|
    decreases |slots| - index
    ensures r.Some? ==> index <= r.value < |slots| && slots[r.value].None?
    ensures r.Some? ==> forall j :: index <= j < r.value ==> slots[j].Some?
    ensures r.None? <==> forall j :: index <= j < |slots| ==> slots[j].Some?
  {
    if index == |slots| then None
    else if slots[index].None? then Some(index)
    else EmptySlotFrom(slots, index + 1)
  }

  /** `getEmptySlot`: the lowest-index null slot, or failure exactly when the
      segment is full. */
  function GetEmptySlot<E>(slots: Slots<E>): (r: Option<nat>)
    ensures r.Some? ==> r.value < |slots| && slots[r.value].None?
    ensures r.Some? ==> forall j :: 0 <= j < r.value ==> slots[j].Some?
    ensures r.None? <==> Full(slots)
  {
    EmptySlotFrom(slots, 0)
  }

  /** The loop of `getFirstElement`, from slot `index` on. */
  function FirstElementFrom<E>(slots: Slots<E>, index: nat): (r: Option<Found<E>>)
    requires index <= |slots|
    decreases |slots| - index
    ensures r.Some? ==> index <= r.value.index < |slots|
    ensures r.Some? ==> slots[r.value.index] == Some(r.value.element)
    ensures r.Some? ==> forall j :: index <= j < r.value.index ==> slots[j].None?
    ensures r.None? <==> forall j :: index <= j < |slots| ==> slots[j].None?
  {
    if index == |slots| then None
    else if slots[index].Some? then Some(Found(slots[index].value, index))
    else FirstElementFrom(slots, index + 1)
  }

  /** `getFirstElement`: the lowest-index element and its slot, or failure
      exactly when every slot is null. */
  function GetFirstElement<E>(slots: Slots<E>): (r: Option<Found<E>>)
    ensures r.Some? ==> r.value.index < |slots| && slots[r.value.index] == Some(r.value.element)
    ensures r.Some? ==> forall j :: 0 <= j < r.value.index ==> slots[j].None?
    ensures r.None? <==> Vacant(slots)
  {
    FirstElementFrom(slots, 0)
  }

  /** The loop of `isOccupied`, from slot `index` on. */
  function OccupiedFrom<E>(slots: Slots<E>, index: nat): (r: bool)
    requires index <= |slots|
    decreases |slots| - index
    ensures r <==> exists j :: index <= j < |slots| && slots[j].Some?
  {
    if index == |slots| then false
    else if slots[index].Some? then true
    else OccupiedFrom(slots, index + 1)
  }

  /** `isOccupied`: some slot holds an element; its own scan agrees with
      `getFirstElement`. */
  function IsOccupied<E>(slots: Slots<E>): (r: bool)
    ensures r <==> !Vacant(slots)
    ensures r <==> GetFirstElement(slots).Some?
  {
    OccupiedFrom(slots, 0)
  }
}
