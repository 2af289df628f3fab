/**
  `ENUM_FLAGS(Enum)` (util/enum_flags.hpp): `&`, `|`, `^` and their
  compound assignments on a flag enumeration, computed on the underlying
  unsigned type of width `w`, and `has_flag`.

  The compound assignments (`&=`, `|=`, `^=`) store the same value the
  binary operator returns, so one function models both.  The macro's
  `has_flag` is written for `FileAttr` whatever `Enum` is; it is modelled
  on the underlying values, which is what it computes for `FileAttr`.
 */
module EnumFlags {
  import opened Bits

  /** `a & b` and `a &= b`. */
  function FlagAnd(a: nat, b: nat, w: nat): (r: nat)
    requires a < Pow2(w) && b < Pow2(w)
    ensures r < Pow2(w)
    ensures forall i: nat :: Bit(r, i) == (Bit(a, i) && Bit(b, i))
  {
    BitwiseBounded(a, b, w);
    assert forall i: nat :: Bit(And(a, b), i) == (Bit(a, i) && Bit(b, i)) by {
      forall i: nat
        ensures Bit(And(a, b), i) == (Bit(a, i) && Bit(b, i))
      {
        AndBit(a, b, i);
      }
    }
    And(a, b)
  }

  /** `a | b` and `a |= b`. */
  function FlagOr(a: nat, b: nat, w: nat): (r: nat)
    requires a < Pow2(w) && b < Pow2(w)
    ensures r < Pow2(w)
    ensures forall i: nat :: Bit(r, i) == (Bit(a, i) || Bit(b, i))
  {
    BitwiseBounded(a, b, w);
    assert forall i: nat :: Bit(Or(a, b), i) == (Bit(a, i) || Bit(b, i)) by {
      forall i: nat
        ensures Bit(Or(a, b), i) == (Bit(a, i) || Bit(b, i))
      {
        OrBit(a, b, i);
      }
    }
    Or(a, b)
  }

  /** `a ^ b` and `a ^= b`. */
  function FlagXor(a: nat, b: nat, w: nat): (r: nat)
    requires a < Pow2(w) && b < Pow2(w)
    ensures r < Pow2(w)
    ensures forall i: nat :: Bit(r, i) == (Bit(a, i) != Bit(b, i))
  {
    BitwiseBounded(a, b, w);
    assert forall i: nat :: Bit(Xor(a, b), i) == (Bit(a, i) != Bit(b, i)) by {
      forall i: nat
        ensures Bit(Xor(a, b), i) == (Bit(a, i) != Bit(b, i))
      {
        XorBit(a, b, i);
      }
    }
    Xor(a, b)
  }

  /** `has_flag(value, mask)`: `(value & mask) == mask`. */
  predicate HasFlag(value: nat, mask: nat, w: nat)
    requires value < Pow2(w) && mask < Pow2(w)
  {
    FlagAnd(value, mask, w) == mask
  }

  /** `has_flag` holds exactly when every bit of the mask is set in the value. */
  lemma {:induction false} HasFlagIffBits(value: nat, mask: nat, w: nat)
    requires value < Pow2(w) && mask < Pow2(w)
    ensures HasFlag(value, mask, w) <==> forall i: nat :: Bit(mask, i) ==> Bit(value, i)
  {
    var r := FlagAnd(value, mask, w);
    if forall i: nat :: Bit(mask, i) ==> Bit(value, i) {
      forall i: nat
        ensures Bit(r, i) == Bit(mask, i)
      {
      }
      BitsEqual(r, mask);
      assert HasFlag(value, mask, w);
    } else {
      var i: nat :| !(Bit(mask, i) ==> Bit(value, i));
      assert Bit(r, i) != Bit(mask, i);
    }
  }

  /** After `value |= mask`, the value has the flag. */
  lemma {:induction false} OrSetsFlag(value: nat, mask: nat, w: nat)
    requires value < Pow2(w) && mask < Pow2(w)
    ensures HasFlag(FlagOr(value, mask, w), mask, w)
  {
    HasFlagIffBits(FlagOr(value, mask, w), mask, w);
  }

  /** Every value has the empty flag set. */
  lemma {:induction false} HasEmptyFlag(value: nat, w: nat)
    requires value < Pow2(w)
    ensures HasFlag(value, 0, w)
  {
    forall i: nat
      ensures Bit(0, i) ==> Bit(value, i)
    {
      BitOfZero(i);
    }
    HasFlagIffBits(value, 0, w);
  }

  /** Toggling the same flags twice restores the value. */
  lemma {:induction false} XorTwiceRestores(value: nat, mask: nat, w: nat)
    requires value < Pow2(w) && mask < Pow2(w)
    ensures FlagXor(FlagXor(value, mask, w), mask, w) == value
  {
    var once := FlagXor(value, mask, w);
    var twice := FlagXor(once, mask, w);
    forall i: nat
      ensures Bit(twice, i) == Bit(value, i)
    {
    }
    BitsEqual(twice, value);
  }

  /** The intersection of two flag sets has a flag exactly when both have it. */
  lemma {:induction false} AndKeepsCommonFlag(a: nat, b: nat, mask: nat, w: nat)
    requires a < Pow2(w) && b < Pow2(w) && mask < Pow2(w)
    ensures HasFlag(FlagAnd(a, b, w), mask, w) <==> HasFlag(a, mask, w) && HasFlag(b, mask, w)
  {
    HasFlagIffBits(FlagAnd(a, b, w), mask, w);
    HasFlagIffBits(a, mask, w);
    HasFlagIffBits(b, mask, w);
  }
}
