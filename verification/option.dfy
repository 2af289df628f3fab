/**
  The kernel's two `Option` templates.

  util/option.hpp is the checked one: a presence flag beside a value slot,
  with copy and move operations, and accessors that `ASSERT` presence.  Its
  specialisations for `T&` and `T*` hold a single pointer and are present
  exactly when that pointer is non-null.  util/option.h is the older
  unchecked one: its accessors read the slot whatever the flag says.

  Addresses are naturals, 0 being `nullptr`.  A failed `ASSERT` is a
  precondition.
 */
module Options {

  /** `Option<T>` of util/option.hpp: either empty or holding a value. */
  datatype Option<T> = None | Some(value: T)
  {
    /** `has_value()`. */
    predicate HasValue()
    {
      Some?
    }
  }

  /** `Option()`: the default constructor leaves the option empty. */
  function Empty<T>(): (o: Option<T>)
    ensures !o.HasValue()
  {
    None
  }

  /** `Option(value)` (copying or moving the value in): present, holding it. */
  function Wrap<T>(v: T): (o: Option<T>)
    ensures o.HasValue() && GetValue(o) == v
  {
    Some(v)
  }

  /**
    `operator=(value)`: stores the value and sets the flag, whatever the
    option held before.
   */
  function AssignValue<T>(o: Option<T>, v: T): (r: Option<T>)
    ensures r.HasValue() && GetValue(r) == v
  {
    Some(v)
  }

  /**
    Copy construction and copy assignment: the copy has the source's flag,
    and when present the source's value; the source is untouched.
   */
  function Copy<T>(src: Option<T>): (r: (Option<T>, Option<T>))
    ensures r.0.HasValue() == src.HasValue()
    ensures src.HasValue() ==> GetValue(r.0) == GetValue(src)
    ensures r.1 == src
  {
    (src, src)
  }

  /**
    Move construction: the new option takes the source's flag and value, and
    a present source is left empty.  An empty source stays empty, so in both
    cases the source ends up empty.  Returns (new option, source afterwards).
   */
  function Move<T>(src: Option<T>): (r: (Option<T>, Option<T>))
    ensures r.0.HasValue() == src.HasValue()
    ensures src.HasValue() ==> GetValue(r.0) == GetValue(src)
    ensures !r.1.HasValue()
  {
    (src, None)
  }

  /**
    Move assignment: the target's old content is discarded; it takes the
    source's flag and value, and the source is left empty.  Returns
    (target afterwards, source afterwards).
   */
  function MoveAssign<T>(dest: Option<T>, src: Option<T>): (r: (Option<T>, Option<T>))
    ensures r.0.HasValue() == src.HasValue()
    ensures src.HasValue() ==> GetValue(r.0) == GetValue(src)
    ensures !r.1.HasValue()
  {
    (src, None)
  }

  /** `get_value()` and `operator->`: `ASSERT(has_value())`, then the value. */
  function GetValue<T>(o: Option<T>): (r: T)
    requires o.HasValue()
    ensures o == Some(r)
  {
    o.value
  }

  /** Moving twice out of the same option yields an empty option the second time. */
  lemma {:induction false} MoveLeavesNothingBehind<T>(src: Option<T>)
    ensures !Move(Move(src).1).0.HasValue()
    ensures Move(src).0 == src
  {
  }

  // ---------------------------------------------------------------------
  // Option<T&> and Option<T*>: a single pointer, present when non-null.

  /** `Option<T&>` / `Option<T*>`: the stored address, 0 for `nullptr`. */
  datatype OptionPtr = OptionPtr(ptr: nat)
  {
    /** `has_value()`: `ptr != nullptr`. */
    predicate HasValue()
    {
      ptr != 0
    }
  }

  /** The default constructor stores `nullptr`. */
  function PtrEmpty(): (o: OptionPtr)
    ensures !o.HasValue()
  {
    OptionPtr(0)
  }

  /**
    `Option<T&>(value)` and `operator=(T&)`: stores the referenced object's
    address.  A C++ reference always names an object, so the address is
    non-null and the option is present.
   */
  function FromRef(addr: nat): (o: OptionPtr)
    requires addr != 0
    ensures o.HasValue() && GetPtr(o) == addr
  {
    OptionPtr(addr)
  }

  /**
    `Option<T*>(value)` and `operator=(T*)`: stores the pointer as given, so
    wrapping a null pointer gives an EMPTY option.
   */
  function FromPointer(p: nat): (o: OptionPtr)
    ensures o.HasValue() <==> p != 0
    ensures o.HasValue() ==> o.ptr == p
  {
    OptionPtr(p)
  }

  /** `get_value()` / `operator->`: `ASSERT(has_value())`, then the pointer. */
  function GetPtr(o: OptionPtr): (r: nat)
    requires o.HasValue()
    ensures r != 0 && o == OptionPtr(r)
  {
    o.ptr
  }

  /** The pointer option read as an ordinary option of addresses. */
  function PtrAsOption(o: OptionPtr): Option<nat>
  {
    if o.ptr == 0 then None else Some(o.ptr)
  }

  /**
    Wrapping a pointer agrees with the ordinary option: present with that
    address exactly when the address is not null.
   */
  lemma {:induction false} FromPointerAgrees(p: nat)
    ensures PtrAsOption(FromPointer(p)) == (if p == 0 then Empty() else Wrap(p))
    ensures PtrAsOption(FromPointer(p)).HasValue() == FromPointer(p).HasValue()
  {
  }

  // ---------------------------------------------------------------------
  // util/option.h: the unchecked option.

  /**
    `Option<T>` of util/option.h: a value slot and a flag.  The default
    constructor does not initialise the slot, so whatever `stored` holds
    for an empty option is indeterminate.
   */
  datatype RawOption<T> = RawOption(stored: T, present: bool)

  /** The default constructor: flag cleared, slot left as it was (`garbage`). */
  function RawEmpty<T>(garbage: T): (o: RawOption<T>)
    ensures !RawHasValue(o)
  {
    RawOption(garbage, false)
  }

  /** `Option(value)`. */
  function RawWrap<T>(v: T): (o: RawOption<T>)
    ensures RawHasValue(o) && RawGetValue(o) == v
  {
    RawOption(v, true)
  }

  /** `has_value()`. */
  predicate RawHasValue<T>(o: RawOption<T>)
  {
    o.present
  }

  /**
    `get_value()`: reads the slot without looking at the flag.  On an empty
    option the caller gets whatever the slot holds.
   */
  function RawGetValue<T>(o: RawOption<T>): (r: T)
    ensures RawHasValue(o) ==> RawAsOption(o) == Some(r)
  {
    o.stored
  }

  /** What an unchecked option means, as a checked one. */
  function RawAsOption<T>(o: RawOption<T>): Option<T>
  {
    if o.present then Some(o.stored) else None
  }

  /**
    The unchecked accessor is only meaningful under `has_value()`: there it
    agrees with the checked one, and on an empty option it returns the
    indeterminate slot contents.
   */
  lemma {:induction false} RawGetValueAgrees<T>(o: RawOption<T>, garbage: T)
    ensures RawHasValue(o) ==> RawGetValue(o) == GetValue(RawAsOption(o))
    ensures RawGetValue(RawEmpty(garbage)) == garbage
    ensures RawAsOption(RawEmpty(garbage)) == Empty()
  {
  }
}
