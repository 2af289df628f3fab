/**
  `Vector<T>` (util/vector.hpp): a growable array on the kernel heap.

  The constructed elements are `items` and the size of the allocation (in
  elements) is `capacity`; which heap block holds them is not modelled, so
  `kmalloc`, `krealloc` and `delete[]` leave no trace here.  A failed
  `ASSERT` is a precondition.
 */
module Vectors {
  import opened KMath

  datatype Vector<T> = Vector(items: seq<T>, capacity: nat)
  {
    /** `count` never exceeds `capacity`. */
    predicate Valid()
    {
      |items| <= capacity
    }
  }

  /** `Vector(initial_capacity)`: no elements, room for `initial_capacity`. */
  function WithCapacity<T>(initialCapacity: nat): (v: Vector<T>)
    ensures v.Valid() && GetSize(v) == 0 && v.capacity == initialCapacity
  {
    Vector([], initialCapacity)
  }

  /** `Vector()`: `Vector(0)`. */
  function Empty<T>(): (v: Vector<T>)
    ensures v.Valid() && GetSize(v) == 0 && v.capacity == 0
  {
    WithCapacity(0)
  }

  /**
    `Vector(span)`: a copy of the span, in an allocation of exactly the
    span's size, or of 8 elements when the span is smaller.
   */
  function FromSpan<T>(data: seq<T>): (v: Vector<T>)
    ensures v.Valid() && v.items == data
    ensures v.capacity >= 8 && v.capacity >= |data|
    ensures v.capacity == 8 || v.capacity == |data|
  {
    Vector(data, Max(|data|, 8))
  }

  /**
    Copy construction and copy assignment: a fresh allocation of the same
    capacity holding copies of the same elements.
   */
  function Copy<T>(other: Vector<T>): (v: Vector<T>)
    ensures v.items == other.items && v.capacity == other.capacity
  {
    Vector(other.items, other.capacity)
  }

  /**
    Move construction and move assignment: the target takes over the
    source's buffer, and the source is left with no buffer, count 0 and
    capacity 0.  Returns (target afterwards, source afterwards).
   */
  function Move<T>(other: Vector<T>): (r: (Vector<T>, Vector<T>))
    ensures r.0.items == other.items && r.0.capacity == other.capacity
    ensures GetSize(r.1) == 0 && r.1.capacity == 0
  {
    (other, Vector([], 0))
  }

  /** `grow()`: the capacity doubles, or becomes 8 when doubling gives less. */
  function Grown(capacity: nat): (c: nat)
    ensures c >= 8 && c >= 2 * capacity
    ensures c == 8 || c == 2 * capacity
  {
    Max(8, capacity * 2)
  }

  /**
    `push_back(value)` (copying or moving): grows when full, then appends.
    The elements already present are kept.
   */
  function PushBack<T>(v: Vector<T>, x: T): (r: Vector<T>)
    requires v.Valid()
    ensures r.Valid() && r.items == v.items + [x]
    ensures GetSize(v) < v.capacity ==> r.capacity == v.capacity
    ensures GetSize(v) == v.capacity ==> r.capacity == Grown(v.capacity)
  {
    var capacity := if |v.items| == v.capacity then Grown(v.capacity) else v.capacity;
    Vector(v.items + [x], capacity)
  }

  /** `operator[](index)`: `ASSERT(index < count)`, then the element. */
  function Get<T>(v: Vector<T>, index: nat): (x: T)
    requires index < GetSize(v)
    ensures x == v.items[index]
  {
    v.items[index]
  }

  /** `get_size()`. */
  function GetSize<T>(v: Vector<T>): nat
  {
    |v.items|
  }

  /** `push_back` applied to each element of `xs` in turn. */
  function PushAll<T>(v: Vector<T>, xs: seq<T>): (r: Vector<T>)
    requires v.Valid()
    ensures r.Valid()
    decreases |xs|
  {
    if |xs| == 0 then v else PushAll(PushBack(v, xs[0]), xs[1..])
  }

  /**
    Doubling keeps the allocation proportionate: a vector whose capacity is
    at most `max(8, 2 * count)` keeps that bound however many elements are
    pushed, and ends up holding the old elements followed by the new ones.
   */
  lemma {:induction false} PushAllStaysProportionate<T>(v: Vector<T>, xs: seq<T>)
    requires v.Valid() && v.capacity <= Max(8, 2 * |v.items|)
    ensures PushAll(v, xs).items == v.items + xs
    ensures PushAll(v, xs).capacity <= Max(8, 2 * |PushAll(v, xs).items|)
    ensures PushAll(v, xs).capacity >= v.capacity
    decreases |xs|
  {
    if |xs| > 0 {
      var v1 := PushBack(v, xs[0]);
      PushAllStaysProportionate(v1, xs[1..]);
      assert v.items + [xs[0]] + xs[1..] == v.items + xs;
    }
  }
}
