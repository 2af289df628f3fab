/**
  `memcmp` (util/memory.cpp): byte-wise comparison of two buffers.

  The buffers are sequences of bytes; the C++ pointers must reach `size`
  bytes, which becomes the precondition of `Memcmp`.  `Lex` is an
  independent recursive reference: lexicographic order on equal-length
  byte strings.
 */
module Memory {
  import opened Bits

  /** Lexicographic comparison of two equal-length byte strings: -1, 0 or 1. */
  function Lex(a: seq<u8>, b: seq<u8>): (r: int)
    requires |a| == |b|
    ensures -1 <= r <= 1
  {
    if |a| == 0 then 0
    else if a[0] < b[0] then -1
    else if a[0] > b[0] then 1
    else Lex(a[1..], b[1..])
  }

  /** `k` is the first index below `size` at which the buffers differ. */
  predicate FirstDifference(a: seq<u8>, b: seq<u8>, k: nat)
    requires |a| == |b|
  {
    k < |a| && a[k] != b[k] && forall j :: 0 <= j < k ==> a[j] == b[j]
  }

  /** `memcmp(a, b, size)`: scans from index 0 and stops at the first difference. */
  method Memcmp(a: seq<u8>, b: seq<u8>, size: nat) returns (r: int)
    requires size <= |a| && size <= |b|
    ensures r == Lex(a[..size], b[..size])
    ensures r == 0 <==> a[..size] == b[..size]
  {
    var i := 0;
    while i < size
      invariant 0 <= i <= size
      invariant forall j :: 0 <= j < i ==> a[j] == b[j]
      invariant Lex(a[..size], b[..size]) == Lex(a[i..size], b[i..size])
    {
      assert a[i..size][1..] == a[i + 1..size];
      assert b[i..size][1..] == b[i + 1..size];
      if a[i] < b[i] {
        LexZeroIffEqual(a[..size], b[..size]);
        return -1;
      } else if a[i] > b[i] {
        LexZeroIffEqual(a[..size], b[..size]);
        return 1;
      }
      i := i + 1;
    }
    assert a[..size] == b[..size];
    return 0;
  }

  /** Only equal strings compare equal. */
  lemma {:induction false} LexZeroIffEqual(a: seq<u8>, b: seq<u8>)
    requires |a| == |b|
    ensures Lex(a, b) == 0 <==> a == b
    decreases |a|
  {
    if |a| > 0 {
      LexZeroIffEqual(a[1..], b[1..]);
      if a[0] == b[0] && a[1..] == b[1..] {
        assert a == [a[0]] + a[1..] && b == [b[0]] + b[1..];
      }
    }
  }

  /** Swapping the arguments negates the result. */
  lemma {:induction false} LexAntisymmetric(a: seq<u8>, b: seq<u8>)
    requires |a| == |b|
    ensures Lex(a, b) == -Lex(b, a)
    decreases |a|
  {
    if |a| > 0 && a[0] == b[0] {
      LexAntisymmetric(a[1..], b[1..]);
    }
  }

  /** The result is decided by the first differing byte alone. */
  lemma {:induction false} LexFirstDifference(a: seq<u8>, b: seq<u8>, k: nat)
    requires |a| == |b| && FirstDifference(a, b, k)
    ensures Lex(a, b) == (if a[k] < b[k] then -1 else 1)
    decreases k
  {
    if k > 0 {
      assert a[0] == b[0];
      assert FirstDifference(a[1..], b[1..], k - 1) by {
        forall j | 0 <= j < k - 1
          ensures a[1..][j] == b[1..][j]
        {
          assert a[1..][j] == a[j + 1];
        }
      }
      LexFirstDifference(a[1..], b[1..], k - 1);
    }
  }
}
