/**
  `InplaceVector<T, CAPACITY>` (util/inplace_vector.hpp): a fixed-capacity
  array that never allocates.  The constructed elements are `items`; the
  raw storage beyond them is not modelled.  A failed `ASSERT` is a
  precondition.
 */
module InplaceVectors {

  datatype InplaceVector<T> = InplaceVector(items: seq<T>, capacity: nat)
  {
    /** `count` never exceeds `CAPACITY`. */
    predicate Valid()
    {
      |items| <= capacity
    }
  }

  /** `InplaceVector()`: count 0. */
  function Empty<T>(capacity: nat): (v: InplaceVector<T>)
    ensures v.Valid() && GetCount(v) == 0 && GetCapacity(v) == capacity
  {
    InplaceVector([], capacity)
  }

  /**
    `push_back(value)`: when `count == CAPACITY` nothing changes and the
    result is false; otherwise the value is appended and the result is true.
   */
  function PushBack<T>(v: InplaceVector<T>, x: T): (r: (InplaceVector<T>, bool))
    requires v.Valid()
    ensures r.0.Valid() && r.0.capacity == v.capacity
    ensures r.1 <==> GetCount(v) < GetCapacity(v)
    ensures r.1 ==> r.0.items == v.items + [x]
    ensures !r.1 ==> r.0 == v
  {
    if |v.items| == v.capacity then (v, false)
    else (InplaceVector(v.items + [x], v.capacity), true)
  }

  /** `operator[](index)`: `ASSERT(index < count)`, then the element. */
  function Get<T>(v: InplaceVector<T>, index: nat): (x: T)
    requires index < GetCount(v)
    ensures x in v.items && x == v.items[index]
  {
    v.items[index]
  }

  /** `get_count()`. */
  function GetCount<T>(v: InplaceVector<T>): nat
  {
    |v.items|
  }

  /** `get_capacity()`. */
  function GetCapacity<T>(v: InplaceVector<T>): nat
  {
    v.capacity
  }

  /** `push_back` applied to each element of `xs` in turn; the results are collected. */
  function PushAll<T>(v: InplaceVector<T>, xs: seq<T>): (r: (InplaceVector<T>, seq<bool>))
    requires v.Valid()
    ensures r.0.Valid() && |r.1| == |xs|
    decreases |xs|
  {
    if |xs| == 0 then (v, [])
    else
      var (v1, ok) := PushBack(v, xs[0]);
      var (v2, oks) := PushAll(v1, xs[1..]);
      (v2, [ok] + oks)
  }

  /**
    Pushing a sequence keeps exactly the elements that fit, in order; the
    first pushes succeed and, once the vector is full, every later one fails.
   */
  lemma {:induction false} PushAllKeepsPrefix<T>(v: InplaceVector<T>, xs: seq<T>)
    requires v.Valid()
    ensures var room := v.capacity - |v.items|;
            var kept := if |xs| <= room then |xs| else room;
            var r := PushAll(v, xs);
            r.0.capacity == v.capacity &&
            r.0.items == v.items + xs[..kept] &&
            forall i :: 0 <= i < |xs| ==> (r.1[i] <==> i < room)
    decreases |xs|
  {
    if |xs| > 0 {
      var (v1, ok) := PushBack(v, xs[0]);
      PushAllKeepsPrefix(v1, xs[1..]);
      var room := v.capacity - |v.items|;
      var r := PushAll(v, xs);
      var r1 := PushAll(v1, xs[1..]);
      assert r.1 == [ok] + r1.1;
      if ok {
        var kept := if |xs| <= room then |xs| else room;
        assert xs[1..][..kept - 1] == xs[1..kept];
        assert [xs[0]] + xs[1..kept] == xs[..kept];
      }
    }
  }
}
