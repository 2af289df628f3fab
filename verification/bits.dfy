/**
  Fixed-width unsigned integers (stdint.h) and the bit helpers of
  util/bits.h.

  C++ `&`, `|` and `^` on unsigned values are modelled by the recursive
  functions `And`, `Or` and `Xor` on naturals; `Bit(x, i)` names bit `i` of
  `x`, and `BitsEqual` lets a fact about every bit become a fact about the
  number.  A width `w` stands for the template type `T`: 8, 16, 32 or 64.
 */
module Bits {
  import opened KMath

  type u8 = x: int | 0 <= x < 0x100
  type u16 = x: int | 0 <= x < 0x1_0000
  type u32 = x: int | 0 <= x < 0x1_0000_0000
  type u64 = x: int | 0 <= x < 0x1_0000_0000_0000_0000

  function Pow2(n: nat): (r: nat)
    ensures r >= 1
  {
    if n == 0 then 1 else 2 * Pow2(n - 1)
  }

  lemma {:induction false} Pow2Values()
    ensures Pow2(1) == 2 && Pow2(2) == 4 && Pow2(3) == 8 && Pow2(4) == 16
    ensures Pow2(8) == 0x100 && Pow2(11) == 0x800 && Pow2(12) == 0x1000
    ensures Pow2(16) == 0x1_0000 && Pow2(20) == 0x10_0000 && Pow2(24) == 0x100_0000
    ensures Pow2(31) == 0x8000_0000 && Pow2(32) == 0x1_0000_0000
  {
  }

  /** The powers the byte, 16-bit and 32-bit fields use. */
  lemma {:induction false} Pow2Widths()
    ensures Pow2(8) == 0x100 && Pow2(16) == 0x1_0000 && Pow2(32) == 0x1_0000_0000
  {
    Pow2Values();
  }

  lemma {:induction false} Pow2WideValues()
    ensures Pow2(48) == 0x1_0000_0000_0000 && Pow2(64) == 0x1_0000_0000_0000_0000
  {
    Pow2Values();
    Pow2Add(32, 16);
    Pow2Add(32, 32);
  }

  lemma {:induction false} Pow2Add(a: nat, b: nat)
    ensures Pow2(a + b) == Pow2(a) * Pow2(b)
    decreases a
  {
    if a > 0 {
      Pow2Add(a - 1, b);
      assert Pow2(a + b) == 2 * Pow2(a - 1 + b);
    }
  }

  lemma {:induction false} Pow2Monotone(a: nat, b: nat)
    requires a <= b
    ensures Pow2(a) <= Pow2(b)
    decreases b
  {
    if a < b {
      Pow2Monotone(a, b - 1);
    }
  }

  // ---------------------------------------------------------------------
  // Euclidean division facts used throughout.

  lemma MulNonnegative(a: nat, b: nat)
    ensures a * b >= 0
  {
  }

  /** A positive product with a nonnegative factor has a positive other factor. */
  lemma {:induction false} MulPositiveFactor(d: nat, k: int)
    requires d * k > 0
    ensures k > 0
  {
    if k <= 0 {
      MulNonnegative(d, -k);
    }
  }

  /** Dividing a natural number by a positive one gives a natural number. */
  lemma {:induction false} DivNonneg(x: nat, d: nat)
    requires d > 0
    ensures x / d >= 0
  {
    var q := x / d;
    assert d * (q + 1) == x - x % d + d;
    MulPositiveFactor(d, q + 1);
  }

  /** Dividing a natural number never makes it larger. */
  lemma {:induction false} DivAtMost(x: nat, d: nat)
    requires d > 0
    ensures 0 <= x / d <= x
  {
    DivNonneg(x, d);
    DivMod(x, d);
    MulMonotone(x / d, 1, d);
  }

  /** Euclidean division: the quotient times the divisor plus the remainder. */
  lemma {:induction false} DivMod(x: nat, d: nat)
    requires d > 0
    ensures (x / d) * d == x - x % d
  {
  }

  lemma {:induction false} DivUnique(x: int, d: int, q: int, r: int)
    requires d > 0 && 0 <= r < d && x == d * q + r
    ensures x / d == q && x % d == r
  {
    var k := q - x / d;
    assert d * k == x % d - r;
    assert k >= 1 ==> d * k >= d;
    assert k <= -1 ==> d * k <= -d;
  }

  /** A value below `d b` has a quotient by `d` below `b`, and is its own remainder modulo `b` after dividing. */
  lemma {:induction false} DivBelow(x: nat, d: nat, b: nat)
    requires d > 0 && x < d * b
    ensures x / d < b && (x / d) % b == x / d
  {
    DivNonneg(x, d);
    DivMod(x, d);
    if x / d >= b {
      MulMonotone(d, b, x / d);
      assert false;
    }
    DivUnique(x / d, b, 0, x / d);
  }

  /** `p (q b + r2) + r1` regrouped, with the new remainder below `p q`. */
  lemma {:induction false} MulRegroup(p: nat, q: nat, b: nat, r2: nat, r1: nat)
    requires r2 < q && r1 < p
    ensures p * (q * b + r2) + r1 == (p * q) * b + (p * r2 + r1)
    ensures p * r2 + r1 < p * q
  {
    assert p * (q * b + r2) == p * (q * b) + p * r2;
    assert p * (q * b) == (p * q) * b;
    assert p * r2 + p == p * (r2 + 1);
    MulMonotone(p, r2 + 1, q);
  }

  lemma {:induction false} MulMonotone(p: nat, a: nat, b: nat)
    requires a <= b
    ensures p * a <= p * b
  {
    assert p * b == p * a + p * (b - a);
    MulNonnegative(p, b - a);
  }

  lemma {:induction false} DivDiv(x: nat, p: nat, q: nat)
    requires p > 0 && q > 0
    ensures x / p / q == x / (p * q)
  {
    var a := x / p;
    var b := a / q;
    MulRegroup(p, q, b, a % q, x % p);
    MulNonnegative(p, q);
    DivUnique(x, p * q, b, p * (a % q) + x % p);
  }

  /** Reducing modulo `2p` and then halving is halving and then reducing modulo `p`. */
  lemma {:induction false} ModHalf(x: nat, p: nat)
    requires p > 0
    ensures (x % (2 * p)) / 2 == (x / 2) % p
    ensures (x % (2 * p)) % 2 == x % 2
  {
    var q := x / (2 * p);
    var r := x % (2 * p);
    assert x == 2 * (p * q) + r;
    DivUnique(x, 2, p * q + r / 2, r % 2);
    DivUnique(x / 2, p, q, r / 2);
  }

  /** Reducing modulo `a * b` keeps the remainder by `a` and the low part of the quotient. */
  lemma {:induction false} ModMul(x: nat, a: nat, b: nat)
    requires a > 0 && b > 0
    ensures x % (a * b) == x % a + a * ((x / a) % b)
  {
    var q1 := x / a;
    var r1 := x % a;
    var q2 := q1 / b;
    var r2 := q1 % b;
    DivNonneg(x, a);
    DivNonneg(q1, b);
    assert x == a * q1 + r1;
    assert q1 == b * q2 + r2;
    MulRegroup(a, b, q2, r2, r1);
    MulNonnegative(a, b);
    DivUnique(x, a * b, q2, a * r2 + r1);
  }

  // ---------------------------------------------------------------------
  // Bits of a natural number.

  /** `x` halved `i` times: `x >> i`. */
  function Shr(x: int, i: nat): int
    decreases i
  {
    if i == 0 then x else Shr(x / 2, i - 1)
  }

  /** Bit `i` of `x`, counting from the least significant bit: `(x >> i) & 1`. */
  predicate Bit(x: int, i: nat)
  {
    Shr(x, i) % 2 == 1
  }

  /** Halving `i` times is dividing by `2^i`. */
  lemma {:induction false} ShrIsDiv(x: nat, i: nat)
    ensures Shr(x, i) == x / Pow2(i)
    decreases i
  {
    if i > 0 {
      ShrIsDiv(x / 2, i - 1);
      DivDiv(x, 2, Pow2(i - 1));
    }
  }

  /** Bit `i` is the low bit of `x / 2^i`. */
  lemma {:induction false} BitIsDiv(x: nat, i: nat)
    ensures Bit(x, i) == ((x / Pow2(i)) % 2 == 1)
  {
    ShrIsDiv(x, i);
  }

  lemma {:induction false} BitZeroIndex(x: nat)
    ensures Bit(x, 0) <==> x % 2 == 1
  {
  }

  lemma {:induction false} BitOfZero(i: nat)
    ensures !Bit(0, i)
  {
    if i > 0 {
      BitOfZero(i - 1);
    }
  }

  /** Halving shifts every bit down by one. */
  lemma {:induction false} BitHalf(x: nat, i: nat)
    ensures Bit(x / 2, i) == Bit(x, i + 1)
  {
  }

  /** A value below `2^w` has no bit at or above `w`. */
  lemma {:induction false} BitAbove(x: nat, w: nat, i: nat)
    requires x < Pow2(w) && w <= i
    ensures !Bit(x, i)
    decreases w
  {
    if w == 0 {
      BitOfZero(i);
    } else {
      BitAbove(x / 2, w - 1, i - 1);
    }
  }

  /** Numbers with the same bits are equal. */
  lemma {:induction false} BitsEqual(a: nat, b: nat)
    requires forall i: nat :: Bit(a, i) == Bit(b, i)
    ensures a == b
    decreases a + b
  {
    if a != 0 || b != 0 {
      assert Bit(a, 0) == Bit(b, 0);
      forall i: nat
        ensures Bit(a / 2, i) == Bit(b / 2, i)
      {
        BitHalf(a, i);
        BitHalf(b, i);
        assert Bit(a, i + 1) == Bit(b, i + 1);
      }
      BitsEqual(a / 2, b / 2);
    }
  }

  /** Reducing modulo `2^w` keeps exactly the bits below `w`. */
  lemma {:induction false} BitMod(x: nat, w: nat, i: nat)
    ensures Bit(x % Pow2(w), i) == (i < w && Bit(x, i))
    decreases w
  {
    if w == 0 {
      BitOfZero(i);
    } else {
      ModHalf(x, Pow2(w - 1));
      if i > 0 {
        BitHalf(x % Pow2(w), i - 1);
        BitHalf(x, i - 1);
        BitMod(x / 2, w - 1, i - 1);
      }
    }
  }

  /** Multiplying by `2^k` shifts every bit up by `k`. */
  lemma {:induction false} BitShifted(x: nat, k: nat, i: nat)
    ensures Bit(x * Pow2(k), i) == (k <= i && Bit(x, i - k))
    decreases k
  {
    if k > 0 {
      var y := x * Pow2(k - 1);
      assert x * Pow2(k) == 2 * y;
      if i == 0 {
        assert (2 * y) % 2 == 0;
      } else {
        BitHalf(2 * y, i - 1);
        assert (2 * y) / 2 == y;
        BitShifted(x, k - 1, i - 1);
      }
    }
  }

  /** Dividing by `2^k` shifts every bit down by `k`: the C++ `x >> k`. */
  lemma {:induction false} BitShiftedDown(x: nat, k: nat, i: nat)
    ensures Bit(x / Pow2(k), i) == Bit(x, i + k)
    decreases k
  {
    if k > 0 {
      DivDiv(x, 2, Pow2(k - 1));
      BitShiftedDown(x / 2, k - 1, i);
    }
  }

  lemma {:induction false} BitOfPow2(b: nat, i: nat)
    ensures Bit(Pow2(b), i) == (i == b)
    decreases i
  {
    if i > 0 {
      BitHalf(Pow2(b), i - 1);
      if b == 0 {
        BitOfZero(i - 1);
      } else {
        BitOfPow2(b - 1, i - 1);
      }
    }
  }

  /** `2^m - 1 - 2^b`: every bit below `m` except bit `b`. */
  function HoleMask(m: nat, b: nat): nat
    requires b < m
  {
    Pow2Monotone(b + 1, m);
    Pow2(m) - 1 - Pow2(b)
  }

  /** `2^w - 2^n`: the bits from `n` up to (excluding) `w`. */
  function HighMask(w: nat, n: nat): nat
    requires n <= w
  {
    Pow2Monotone(n, w);
    Pow2(w) - Pow2(n)
  }

  /** `2^n - 1` has exactly the bits below `n`. */
  lemma {:induction false} BitOfLowMask(n: nat, i: nat)
    ensures Bit(Pow2(n) - 1, i) == (i < n)
    decreases i
  {
    if i > 0 {
      BitHalf(Pow2(n) - 1, i - 1);
      if n == 0 {
        BitOfZero(i - 1);
      } else {
        assert (Pow2(n) - 1) / 2 == Pow2(n - 1) - 1;
        BitOfLowMask(n - 1, i - 1);
      }
    }
  }

  /** The low bit of `2^m - 1 - 2^b`, and the rest. */
  lemma {:induction false} HoleMaskHalves(m: nat, b: nat)
    requires b < m
    ensures b == 0 ==> HoleMask(m, b) % 2 == 0 && HoleMask(m, b) / 2 == Pow2(m - 1) - 1
    ensures b > 0 ==> HoleMask(m, b) % 2 == 1 && HoleMask(m, b) / 2 == HoleMask(m - 1, b - 1)
  {
    if b == 0 {
      assert HoleMask(m, b) == 2 * (Pow2(m - 1) - 1);
    } else {
      assert HoleMask(m, b) == 2 * HoleMask(m - 1, b - 1) + 1;
    }
  }

  /** `2^m - 1 - 2^b` has exactly the bits below `m` other than `b`. */
  lemma {:induction false} BitOfHoleMask(m: nat, b: nat, i: nat)
    requires b < m
    ensures Bit(HoleMask(m, b), i) == (i < m && i != b)
    decreases i
  {
    var x := HoleMask(m, b);
    HoleMaskHalves(m, b);
    if i > 0 {
      BitHalf(x, i - 1);
      if b == 0 {
        BitOfLowMask(m - 1, i - 1);
      } else {
        BitOfHoleMask(m - 1, b - 1, i - 1);
      }
    }
  }

  /** `2^w - 2^n` has exactly the bits from `n` up to (excluding) `w`. */
  lemma {:induction false} BitOfHighMask(w: nat, n: nat, i: nat)
    requires n <= w
    ensures Bit(HighMask(w, n), i) == (n <= i < w)
    decreases i
  {
    var x := HighMask(w, n);
    if n == 0 {
      BitOfLowMask(w, i);
    } else if i == 0 {
      assert x == 2 * HighMask(w - 1, n - 1);
    } else {
      BitHalf(x, i - 1);
      assert x == 2 * HighMask(w - 1, n - 1);
      assert x / 2 == HighMask(w - 1, n - 1);
      BitOfHighMask(w - 1, n - 1, i - 1);
    }
  }

  // ---------------------------------------------------------------------
  // The C++ bitwise operators on unsigned values.

  /** `a & b`. */
  function And(a: nat, b: nat): nat
  {
    if a == 0 || b == 0 then 0
    else 2 * And(a / 2, b / 2) + (if a % 2 == 1 && b % 2 == 1 then 1 else 0)
  }

  /** `a | b`. */
  function Or(a: nat, b: nat): nat
    decreases a + b
  {
    if a == 0 then b
    else if b == 0 then a
    else 2 * Or(a / 2, b / 2) + (if a % 2 == 1 || b % 2 == 1 then 1 else 0)
  }

  /** `a ^ b`. */
  function Xor(a: nat, b: nat): nat
    decreases a + b
  {
    if a == 0 then b
    else if b == 0 then a
    else 2 * Xor(a / 2, b / 2) + (if a % 2 != b % 2 then 1 else 0)
  }

  /** The low bit of `a & b`, and the rest. */
  lemma {:induction false} AndHalves(a: nat, b: nat)
    requires a != 0 && b != 0
    ensures And(a, b) / 2 == And(a / 2, b / 2)
    ensures And(a, b) % 2 == if a % 2 == 1 && b % 2 == 1 then 1 else 0
  {
  }

  /** The low bit of `a | b`, and the rest. */
  lemma {:induction false} OrHalves(a: nat, b: nat)
    requires a != 0 && b != 0
    ensures Or(a, b) / 2 == Or(a / 2, b / 2)
    ensures Or(a, b) % 2 == if a % 2 == 1 || b % 2 == 1 then 1 else 0
  {
  }

  /** The low bit of `a ^ b`, and the rest. */
  lemma {:induction false} XorHalves(a: nat, b: nat)
    requires a != 0 && b != 0
    ensures Xor(a, b) / 2 == Xor(a / 2, b / 2)
    ensures Xor(a, b) % 2 == if a % 2 != b % 2 then 1 else 0
  {
  }

  lemma {:induction false} AndBit(a: nat, b: nat, i: nat)
    ensures Bit(And(a, b), i) == (Bit(a, i) && Bit(b, i))
    decreases i
  {
    if a == 0 || b == 0 {
      BitOfZero(i);
    } else {
      AndHalves(a, b);
      if i > 0 {
        AndBit(a / 2, b / 2, i - 1);
      }
    }
  }

  lemma {:induction false} OrBit(a: nat, b: nat, i: nat)
    ensures Bit(Or(a, b), i) == (Bit(a, i) || Bit(b, i))
    decreases i
  {
    if a == 0 || b == 0 {
      BitOfZero(i);
    } else {
      OrHalves(a, b);
      if i > 0 {
        OrBit(a / 2, b / 2, i - 1);
      }
    }
  }

  lemma {:induction false} XorBit(a: nat, b: nat, i: nat)
    ensures Bit(Xor(a, b), i) == (Bit(a, i) != Bit(b, i))
    decreases i
  {
    if a == 0 || b == 0 {
      BitOfZero(i);
    } else {
      XorHalves(a, b);
      if i > 0 {
        XorBit(a / 2, b / 2, i - 1);
      }
    }
  }

  /** `|` of two values without common bits is their sum. */
  lemma {:induction false} OrDisjoint(a: nat, b: nat)
    requires And(a, b) == 0
    ensures Or(a, b) == a + b
    decreases a + b
  {
    if a != 0 && b != 0 {
      assert And(a / 2, b / 2) == 0;
      OrDisjoint(a / 2, b / 2);
    }
  }

  /** Placing `lo < 2^k` below a field shifted by `k`: `(hi << k) | lo == hi * 2^k + lo`. */
  lemma {:induction false} Place(hi: nat, k: nat, lo: nat)
    requires lo < Pow2(k)
    ensures And(hi * Pow2(k), lo) == 0
    ensures Or(hi * Pow2(k), lo) == hi * Pow2(k) + lo
  {
    forall i: nat
      ensures Bit(And(hi * Pow2(k), lo), i) == Bit(0, i)
    {
      AndBit(hi * Pow2(k), lo, i);
      BitShifted(hi, k, i);
      BitOfZero(i);
      if k <= i {
        BitAbove(lo, k, i);
      }
    }
    BitsEqual(And(hi * Pow2(k), lo), 0);
    OrDisjoint(hi * Pow2(k), lo);
  }

  lemma {:induction false} OrCommutes(a: nat, b: nat)
    ensures Or(a, b) == Or(b, a)
  {
    forall i: nat
      ensures Bit(Or(a, b), i) == Bit(Or(b, a), i)
    {
      OrBit(a, b, i);
      OrBit(b, a, i);
    }
    BitsEqual(Or(a, b), Or(b, a));
  }

  /** Two 16-bit halves joined with `(hi << 16) | lo`: a 32-bit value whose halves they are. */
  lemma {:induction false} Join16(hi: nat, lo: nat)
    requires hi < 0x1_0000 && lo < 0x1_0000
    ensures Or(hi * 0x1_0000, lo) == hi * 0x1_0000 + lo
    ensures hi * 0x1_0000 + lo < 0x1_0000_0000
    ensures (hi * 0x1_0000 + lo) % 0x1_0000_0000 == hi * 0x1_0000 + lo
    ensures (hi * 0x1_0000 + lo) % 0x1_0000 == lo && (hi * 0x1_0000 + lo) / 0x1_0000 == hi
  {
    Pow2Widths();
    Place(hi, 16, lo);
    DivUnique(hi * 0x1_0000 + lo, 0x1_0000_0000, 0, hi * 0x1_0000 + lo);
    DivUnique(hi * 0x1_0000 + lo, 0x1_0000, hi, lo);
  }

  /** `x & (2^n - 1)` keeps the low `n` bits: `x mod 2^n`. */
  lemma {:induction false} AndLowMask(x: nat, n: nat)
    ensures And(x, Pow2(n) - 1) == x % Pow2(n)
  {
    forall i: nat
      ensures Bit(And(x, Pow2(n) - 1), i) == Bit(x % Pow2(n), i)
    {
      AndBit(x, Pow2(n) - 1, i);
      BitOfLowMask(n, i);
      BitMod(x, n, i);
    }
    BitsEqual(And(x, Pow2(n) - 1), x % Pow2(n));
  }

  /** Rounding down to a multiple of `2^n` (`q * 2^n` with `q = x / 2^n`) clears the bits below `n`. */
  lemma {:induction false} BitOfShiftedQuotient(x: nat, n: nat, q: nat, i: nat)
    requires q == x / Pow2(n)
    ensures Bit(q * Pow2(n), i) == (n <= i && Bit(x, i))
  {
    BitShifted(q, n, i);
    if n <= i {
      BitShiftedDown(x, n, i - n);
    }
  }

  /** For `x < 2^w`, `x & (2^w - 2^n)` clears the low `n` bits: `x - x mod 2^n`. */
  lemma {:induction false} AndHighMask(x: nat, w: nat, n: nat)
    requires n <= w && x < Pow2(w)
    ensures And(x, HighMask(w, n)) == (x / Pow2(n)) * Pow2(n)
    ensures And(x, HighMask(w, n)) == x - x % Pow2(n)
  {
    DivNonneg(x, Pow2(n));
    var q: nat := x / Pow2(n);
    MulNonnegative(q, Pow2(n));
    var y: nat := q * Pow2(n);
    var m := HighMask(w, n);
    forall i: nat
      ensures Bit(And(x, m), i) == Bit(y, i)
    {
      AndBit(x, m, i);
      BitOfHighMask(w, n, i);
      BitOfShiftedQuotient(x, n, q, i);
      if w <= i {
        BitAbove(x, w, i);
      }
    }
    BitsEqual(And(x, m), y);
    DivMod(x, Pow2(n));
  }

  /** Results of `&`, `|`, `^` on `w`-bit values stay `w`-bit values. */
  lemma {:induction false} BitwiseBounded(a: nat, b: nat, w: nat)
    requires a < Pow2(w) && b < Pow2(w)
    ensures And(a, b) < Pow2(w) && Or(a, b) < Pow2(w) && Xor(a, b) < Pow2(w)
  {
    forall i: nat
      ensures Bit(And(a, b), i) == Bit(And(a, b) % Pow2(w), i)
      ensures Bit(Or(a, b), i) == Bit(Or(a, b) % Pow2(w), i)
      ensures Bit(Xor(a, b), i) == Bit(Xor(a, b) % Pow2(w), i)
    {
      AndBit(a, b, i);
      OrBit(a, b, i);
      XorBit(a, b, i);
      BitMod(And(a, b), w, i);
      BitMod(Or(a, b), w, i);
      BitMod(Xor(a, b), w, i);
      if w <= i {
        BitAbove(a, w, i);
        BitAbove(b, w, i);
      }
    }
    BitsEqual(And(a, b), And(a, b) % Pow2(w));
    BitsEqual(Or(a, b), Or(a, b) % Pow2(w));
    BitsEqual(Xor(a, b), Xor(a, b) % Pow2(w));
  }

  // ---------------------------------------------------------------------
  // Little-endian byte strings, the layout of every multi-byte integer here.

  /** The low `n` bytes of `x`, least significant first. */
  function LeBytes(x: nat, n: nat): (bs: seq<u8>)
    ensures |bs| == n
  {
    if n == 0 then [] else [x % 256] + LeBytes(x / 256, n - 1)
  }

  /** The number a little-endian byte string stands for. */
  function LeValue(bs: seq<u8>): (x: nat)
    ensures x < Pow2(8 * |bs|)
  {
    if |bs| == 0 then 0
    else
      var rest := LeValue(bs[1..]);
      Pow2Add(8, 8 * (|bs| - 1));
      Pow2Values();
      assert bs[0] + 256 * rest < 256 + 256 * (rest) <= 256 * Pow2(8 * (|bs| - 1));
      bs[0] + 256 * rest
  }

  /** A single byte stands for itself. */
  lemma {:induction false} LeValueOfByte(bs: seq<u8>)
    requires |bs| == 1
    ensures LeValue(bs) == bs[0]
  {
    assert LeValue(bs[1..]) == 0;
  }

  /** Writing `x` into `n` bytes and reading it back gives `x` modulo `2^(8n)`. */
  lemma {:induction false} LeValueOfLeBytes(x: nat, n: nat)
    ensures LeValue(LeBytes(x, n)) == x % Pow2(8 * n)
    decreases n
  {
    if n > 0 {
      LeValueOfLeBytes(x / 256, n - 1);
      assert LeBytes(x, n)[1..] == LeBytes(x / 256, n - 1);
      Pow2Add(8, 8 * (n - 1));
      Pow2Values();
      ModMul(x, 256, Pow2(8 * (n - 1)));
    }
  }

  /** Reading bytes and writing the value back gives the same bytes. */
  lemma {:induction false} LeBytesOfLeValue(bs: seq<u8>)
    ensures LeBytes(LeValue(bs), |bs|) == bs
    decreases |bs|
  {
    if |bs| > 0 {
      var rest := LeValue(bs[1..]);
      DivUnique(bs[0] + 256 * rest, 256, rest, bs[0]);
      LeBytesOfLeValue(bs[1..]);
      assert bs == [bs[0]] + bs[1..];
    }
  }

  /** Byte `i` of `x` is `(x >> 8i) & 0xff`. */
  lemma {:induction false} LeBytesAt(x: nat, n: nat, i: nat)
    requires i < n
    ensures LeBytes(x, n)[i] == (x / Pow2(8 * i)) % 256
    decreases i
  {
    if i > 0 {
      LeBytesAt(x / 256, n - 1, i - 1);
      Pow2Add(8, 8 * (i - 1));
      Pow2Values();
      DivDiv(x, 256, Pow2(8 * (i - 1)));
    }
  }

  // ---------------------------------------------------------------------
  // util/bits.h

  /**
    `get_bit(flags, bit)`: `(flags & (1 << bit)) != 0`.  The mask is an
    `int`, so `bit` stays below 31.
   */
  function GetBit(flags: nat, bit: nat): (r: bool)
    requires bit < 31
    ensures r == Bit(flags, bit)
  {
    var m := And(flags, Pow2(bit));
    assert Bit(m, bit) == Bit(flags, bit) by {
      AndBit(flags, Pow2(bit), bit);
      BitOfPow2(bit, bit);
    }
    assert m == 0 ==> !Bit(m, bit) by {
      BitOfZero(bit);
    }
    assert !Bit(m, bit) ==> m == 0 by {
      if !Bit(m, bit) {
        forall i: nat
          ensures Bit(m, i) == Bit(0, i)
        {
          AndBit(flags, Pow2(bit), i);
          BitOfPow2(bit, i);
          BitOfZero(i);
        }
        BitsEqual(m, 0);
      }
    }
    m != 0
  }

  /**
    `set_bit(flags, bit)` on a `w`-bit type: `flags | (1 << bit)`, converted
    back to the `w`-bit type.  Bit `bit` becomes 1 (when it exists in the
    type); every other bit keeps its value.
   */
  function SetBit(flags: nat, bit: nat, w: nat): (r: nat)
    requires bit < 31 && flags < Pow2(w)
    ensures r < Pow2(w)
    ensures forall i: nat :: Bit(r, i) == (i < w && (i == bit || Bit(flags, i)))
  {
    var r := Or(flags, Pow2(bit)) % Pow2(w);
    assert forall i: nat :: Bit(r, i) == (i < w && (i == bit || Bit(flags, i))) by {
      forall i: nat
        ensures Bit(r, i) == (i < w && (i == bit || Bit(flags, i)))
      {
        BitMod(Or(flags, Pow2(bit)), w, i);
        OrBit(flags, Pow2(bit), i);
        BitOfPow2(bit, i);
      }
    }
    r
  }

  /**
    `unset_bit(flags, bit)`: `flags & ~(1 << bit)`.  The complement is taken
    on the 32-bit `int` and sign-extended for a wider type, so the mask has
    every bit of the wider of the two types set except `bit`.
   */
  function UnsetBit(flags: nat, bit: nat, w: nat): (r: nat)
    requires bit < 31 && flags < Pow2(w)
    ensures r < Pow2(w)
    ensures forall i: nat :: Bit(r, i) == (i != bit && Bit(flags, i))
  {
    var m := Max(w, 32);
    var r := And(flags, HoleMask(m, bit));
    assert forall i: nat :: Bit(r, i) == (i != bit && Bit(flags, i)) by {
      forall i: nat
        ensures Bit(r, i) == (i != bit && Bit(flags, i))
      {
        AndBit(flags, HoleMask(m, bit), i);
        BitOfHoleMask(m, bit, i);
        if m <= i {
          Pow2Monotone(w, m);
          BitAbove(flags, w, i);
        }
      }
    }
    assert r < Pow2(w) by {
      forall i: nat
        ensures Bit(r, i) == Bit(r % Pow2(w), i)
      {
        BitMod(r, w, i);
        if w <= i {
          BitAbove(flags, w, i);
        }
      }
      BitsEqual(r, r % Pow2(w));
    }
    r
  }

  /** Setting a bit that is clear, inside the type, adds its value. */
  lemma {:induction false} SetBitAdds(flags: nat, bit: nat, w: nat)
    requires bit < 31 && bit < w && flags < Pow2(w) && !Bit(flags, bit)
    ensures SetBit(flags, bit, w) == flags + Pow2(bit)
  {
    forall i: nat
      ensures Bit(And(flags, Pow2(bit)), i) == Bit(0, i)
    {
      AndBit(flags, Pow2(bit), i);
      BitOfPow2(bit, i);
      BitOfZero(i);
    }
    BitsEqual(And(flags, Pow2(bit)), 0);
    OrDisjoint(flags, Pow2(bit));
    var r := SetBit(flags, bit, w);
    forall i: nat
      ensures Bit(r, i) == Bit(Or(flags, Pow2(bit)), i)
    {
      OrBit(flags, Pow2(bit), i);
      BitOfPow2(bit, i);
      if w <= i {
        BitAbove(flags, w, i);
      }
    }
    BitsEqual(r, Or(flags, Pow2(bit)));
  }

  /** Setting a bit twice is setting it once. */
  lemma {:induction false} SetBitIdempotent(flags: nat, bit: nat, w: nat)
    requires bit < 31 && flags < Pow2(w)
    ensures SetBit(SetBit(flags, bit, w), bit, w) == SetBit(flags, bit, w)
  {
    var once := SetBit(flags, bit, w);
    var twice := SetBit(once, bit, w);
    forall i: nat
      ensures Bit(twice, i) == Bit(once, i)
    {
    }
    BitsEqual(twice, once);
  }

  /** Clearing a bit twice is clearing it once. */
  lemma {:induction false} UnsetBitIdempotent(flags: nat, bit: nat, w: nat)
    requires bit < 31 && flags < Pow2(w)
    ensures UnsetBit(UnsetBit(flags, bit, w), bit, w) == UnsetBit(flags, bit, w)
  {
    var once := UnsetBit(flags, bit, w);
    var twice := UnsetBit(once, bit, w);
    forall i: nat
      ensures Bit(twice, i) == Bit(once, i)
    {
    }
    BitsEqual(twice, once);
  }

  /**
    `get_n_ones<T>(n)` after `n` turns of its loop: each turn computes
    `(result << 1) | 1` in the `w`-bit type.
   */
  function NOnes(w: nat, n: nat): nat
  {
    if n == 0 then 0 else Or((NOnes(w, n - 1) * 2) % Pow2(w), 1)
  }

  /** Doubling `2^k - 1` in the `w`-bit type: `2^(k+1) - 2`, or `2^w - 2` once `k` reaches `w`. */
  lemma {:induction false} DoubleMask(w: nat, k: nat)
    requires 1 <= w && k <= w
    ensures ((Pow2(k) - 1) * 2) % Pow2(w) == Pow2(Min(k + 1, w)) - 2
  {
    assert (Pow2(k) - 1) * 2 == Pow2(k + 1) - 2;
    if k < w {
      Pow2Monotone(k + 1, w);
      DivUnique(Pow2(k + 1) - 2, Pow2(w), 0, Pow2(k + 1) - 2);
    } else {
      assert Pow2(w) >= 2;
      DivUnique(Pow2(k + 1) - 2, Pow2(w), 1, Pow2(w) - 2);
    }
  }

  /** One turn of the loop of `get_n_ones`: `(2^k - 1 << 1) | 1` in the `w`-bit type. */
  lemma {:induction false} NOnesTurn(w: nat, k: nat)
    requires 1 <= w && k <= w
    ensures Or(((Pow2(k) - 1) * 2) % Pow2(w), 1) == Pow2(Min(k + 1, w)) - 1
  {
    DoubleMask(w, k);
    var m := Min(k + 1, w);
    assert Pow2(m) >= 2;
    var hi := Pow2(m - 1) - 1;
    assert Pow2(m) - 2 == hi * Pow2(1);
    Place(hi, 1, 1);
  }

  /** `get_n_ones<T>(n)` is `2^n - 1`, saturating at all ones of the type. */
  lemma {:induction false} NOnesIsMask(w: nat, n: nat)
    requires w >= 1
    ensures NOnes(w, n) == Pow2(Min(n, w)) - 1
    decreases n
  {
    if n > 0 {
      NOnesIsMask(w, n - 1);
      NOnesTurn(w, Min(n - 1, w));
    }
  }

  /**
    `get_bit_range(flags, start, length)`: `(flags >> start) & get_n_ones(length)`.
    Requiring `start < w` is a modelling choice that every call site meets.
    For a 32-bit `flags` a larger shift would be undefined; narrower types
    are promoted to `int` first, where shifts up to 31 are defined.
   */
  function GetBitRange(flags: nat, start: nat, length: nat, w: nat): (r: nat)
    requires flags < Pow2(w) && start < w
    ensures r == (flags / Pow2(start)) % Pow2(Min(length, w))
    ensures r < Pow2(length)
  {
    NOnesIsMask(w, length);
    DivNonneg(flags, Pow2(start));
    AndLowMask(flags / Pow2(start), Min(length, w));
    Pow2Monotone(Min(length, w), length);
    And(flags / Pow2(start), NOnes(w, length))
  }

  /** `get_bit_range(x, 0, n)` keeps the low `n` bits. */
  lemma {:induction false} BitRangeLow(x: nat, n: nat, w: nat)
    requires x < Pow2(w) && 0 < w
    ensures GetBitRange(x, 0, n, w) == x % Pow2(Min(n, w))
  {
    assert Pow2(0) == 1;
  }

  /** `get_bit_range(x, s, w - s)` of a `w`-bit value is everything above bit `s`. */
  lemma {:induction false} BitRangeTop(x: nat, s: nat, w: nat)
    requires x < Pow2(w) && s < w
    ensures GetBitRange(x, s, w - s, w) == x / Pow2(s)
  {
    Pow2Add(s, w - s);
    assert s + (w - s) == w;
    DivBelow(x, Pow2(s), Pow2(w - s));
    assert Min(w - s, w) == w - s;
  }

  /** The two 16-bit `get_bit_range`s of a 32-bit value are its low and high halves. */
  lemma {:induction false} HalvesOf32(x: nat)
    requires x < 0x1_0000_0000
    ensures x < Pow2(32)
    ensures GetBitRange(x, 0, 16, 32) == x % 0x1_0000
    ensures GetBitRange(x, 16, 16, 32) == x / 0x1_0000
  {
    Pow2Widths();
    BitRangeLow(x, 16, 32);
    BitRangeTop(x, 16, 32);
    assert Min(16, 32) == 16;
  }

  /** `get_bit_range(x, 8 * i, 8)` on a `w`-bit value, as a `uint8_t`: byte `i` of `x`. */
  function GetByte(x: nat, i: nat, w: nat): (b: u8)
    requires x < Pow2(w) && 8 * i + 8 <= w
    ensures b == (x / Pow2(8 * i)) % 256
  {
    Pow2Values();
    assert Min(8, w) == 8;
    GetBitRange(x, 8 * i, 8, w)
  }
}
