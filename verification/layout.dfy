/**
  Packed little-endian records: a `[[gnu::packed]]` structure is a
  sequence of fields laid end to end with no padding, each either an
  unsigned integer of a few bytes (stored least significant byte first on
  i386) or an array of bytes.  Reading a structure through a
  `reinterpret_cast` of a sector buffer is `Decode`; the bytes the same
  structure occupies in memory are `Encode`.
 */
module Layouts {
  import opened Bits

  datatype Field = UInt(width: nat) | Bytes(count: nat)

  /** A field's contents: a number for an integer field, the bytes for an array. */
  datatype Value = Num(n: nat) | Raw(bs: seq<u8>)

  function Size(f: Field): nat
  {
    match f
    case UInt(w) => w
    case Bytes(c) => c
  }

  /** The sizes of fields `i` to `j - 1`. */
  function SizeBetween(layout: seq<Field>, i: nat, j: nat): nat
    requires i <= j <= |layout|
    decreases j - i
  {
    if i == j then 0 else Size(layout[i]) + SizeBetween(layout, i + 1, j)
  }

  /** `sizeof` of a packed structure: the sum of its fields' sizes. */
  function LayoutSize(layout: seq<Field>): nat
  {
    SizeBetween(layout, 0, |layout|)
  }

  /** `offsetof` of field `i`: the sizes of the fields before it. */
  function Offset(layout: seq<Field>, i: nat): (o: nat)
    requires i < |layout|
    ensures o + Size(layout[i]) <= LayoutSize(layout)
  {
    SizeBetweenStep(layout, 0, i);
    SizeBetweenSplit(layout, 0, i + 1, |layout|);
    SizeBetween(layout, 0, i)
  }

  /** Adding the next field at the top end adds its size. */
  lemma {:induction false} SizeBetweenStep(layout: seq<Field>, i: nat, j: nat)
    requires i <= j < |layout|
    ensures SizeBetween(layout, i, j + 1) == SizeBetween(layout, i, j) + Size(layout[j])
    decreases j - i
  {
    if i < j {
      SizeBetweenStep(layout, i + 1, j);
    }
  }

  /** Sizes over adjacent ranges add up. */
  lemma {:induction false} SizeBetweenSplit(layout: seq<Field>, i: nat, j: nat, k: nat)
    requires i <= j <= k <= |layout|
    ensures SizeBetween(layout, i, k) == SizeBetween(layout, i, j) + SizeBetween(layout, j, k)
    decreases j - i
  {
    if i < j {
      SizeBetweenSplit(layout, i + 1, j, k);
    }
  }

  /** The value can be stored in the field. */
  predicate Fits(v: Value, f: Field)
  {
    match f
    case UInt(w) => v.Num? && v.n < Pow2(8 * w)
    case Bytes(c) => v.Raw? && |v.bs| == c
  }

  predicate AllFit(vs: seq<Value>, layout: seq<Field>)
  {
    |vs| == |layout| && forall i :: 0 <= i < |vs| ==> Fits(vs[i], layout[i])
  }

  function DecodeField(bs: seq<u8>, f: Field): (v: Value)
    requires |bs| == Size(f)
    ensures Fits(v, f)
  {
    match f
    case UInt(_) => Num(LeValue(bs))
    case Bytes(_) => Raw(bs)
  }

  function EncodeField(v: Value, f: Field): (bs: seq<u8>)
    requires Fits(v, f)
    ensures |bs| == Size(f)
  {
    match f
    case UInt(w) => LeBytes(v.n, w)
    case Bytes(_) => v.bs
  }

  /** The bytes field `i` occupies. */
  function FieldBytes(bs: seq<u8>, layout: seq<Field>, i: nat): (fb: seq<u8>)
    requires |bs| == LayoutSize(layout) && i < |layout|
    ensures |fb| == Size(layout[i])
  {
    bs[Offset(layout, i)..Offset(layout, i) + Size(layout[i])]
  }

  /** The fields from `i` onwards read from the bytes of a structure, each from the bytes at its offset. */
  function DecodeFrom(bs: seq<u8>, layout: seq<Field>, i: nat): (vs: seq<Value>)
    requires |bs| == LayoutSize(layout) && i <= |layout|
    ensures |vs| == |layout| - i
    ensures forall k | 0 <= k < |vs| :: Fits(vs[k], layout[i + k])
    decreases |layout| - i
  {
    if i == |layout| then []
    else [DecodeField(FieldBytes(bs, layout, i), layout[i])] + DecodeFrom(bs, layout, i + 1)
  }

  /** The fields of a structure read from its bytes. */
  function Decode(bs: seq<u8>, layout: seq<Field>): (vs: seq<Value>)
    requires |bs| == LayoutSize(layout)
    ensures AllFit(vs, layout)
  {
    DecodeFrom(bs, layout, 0)
  }

  lemma {:induction false} DecodeFromAt(bs: seq<u8>, layout: seq<Field>, i: nat, j: nat)
    requires |bs| == LayoutSize(layout) && i <= j < |layout|
    ensures DecodeFrom(bs, layout, i)[j - i] == DecodeField(FieldBytes(bs, layout, j), layout[j])
    decreases j - i
  {
    if i < j {
      DecodeFromAt(bs, layout, i + 1, j);
    }
  }

  /** Field `j` is read from the bytes at its offset. */
  lemma {:induction false} DecodeAt(bs: seq<u8>, layout: seq<Field>, j: nat)
    requires |bs| == LayoutSize(layout) && j < |layout|
    ensures Decode(bs, layout)[j] == DecodeField(FieldBytes(bs, layout, j), layout[j])
  {
    DecodeFromAt(bs, layout, 0, j);
  }

  /** The bytes fields `i` onwards occupy, end to end. */
  function EncodeFrom(vs: seq<Value>, layout: seq<Field>, i: nat): (bs: seq<u8>)
    requires AllFit(vs, layout) && i <= |layout|
    ensures |bs| == SizeBetween(layout, i, |layout|)
    decreases |layout| - i
  {
    if i == |layout| then [] else EncodeField(vs[i], layout[i]) + EncodeFrom(vs, layout, i + 1)
  }

  /** The bytes a structure with these fields occupies. */
  function Encode(vs: seq<Value>, layout: seq<Field>): (bs: seq<u8>)
    requires AllFit(vs, layout)
    ensures |bs| == LayoutSize(layout)
  {
    EncodeFrom(vs, layout, 0)
  }

  lemma {:induction false} DecodeEncodeField(v: Value, f: Field)
    requires Fits(v, f)
    ensures DecodeField(EncodeField(v, f), f) == v
  {
    if f.UInt? {
      LeValueOfLeBytes(v.n, f.width);
      DivUnique(v.n, Pow2(8 * f.width), 0, v.n);
    }
  }

  lemma {:induction false} EncodeDecodeField(bs: seq<u8>, f: Field)
    requires |bs| == Size(f)
    ensures EncodeField(DecodeField(bs, f), f) == bs
  {
    if f.UInt? {
      LeBytesOfLeValue(bs);
    }
  }

  /** In the bytes of fields `i` onwards, field `j` sits after the fields from `i` to `j - 1`. */
  lemma {:induction false} EncodeFromAt(vs: seq<Value>, layout: seq<Field>, i: nat, j: nat)
    requires AllFit(vs, layout) && i <= j < |layout|
    ensures SizeBetween(layout, i, j) + Size(layout[j]) <= |EncodeFrom(vs, layout, i)|
    ensures EncodeFrom(vs, layout, i)[SizeBetween(layout, i, j)..SizeBetween(layout, i, j) + Size(layout[j])]
            == EncodeField(vs[j], layout[j])
    decreases j - i
  {
    SizeBetweenStep(layout, i, j);
    SizeBetweenSplit(layout, i, j + 1, |layout|);
    if i < j {
      EncodeFromAt(vs, layout, i + 1, j);
      var head := EncodeField(vs[i], layout[i]);
      var rest := EncodeFrom(vs, layout, i + 1);
      var o := SizeBetween(layout, i + 1, j);
      assert (head + rest)[|head| + o..|head| + o + Size(layout[j])] == rest[o..o + Size(layout[j])];
    }
  }

  /** Writing a structure and reading it back gives the same fields. */
  lemma {:induction false} DecodeEncode(vs: seq<Value>, layout: seq<Field>)
    requires AllFit(vs, layout)
    ensures Decode(Encode(vs, layout), layout) == vs
  {
    var ws := Decode(Encode(vs, layout), layout);
    forall j | 0 <= j < |layout|
      ensures ws[j] == vs[j]
    {
      EncodeFromAt(vs, layout, 0, j);
      DecodeAt(Encode(vs, layout), layout, j);
      DecodeEncodeField(vs[j], layout[j]);
    }
  }

  /** Re-encoding the decoded fields from `i` onwards gives the bytes from field `i`'s offset on. */
  lemma {:induction false} EncodeFromDecode(bs: seq<u8>, layout: seq<Field>, i: nat)
    requires |bs| == LayoutSize(layout) && i <= |layout|
    ensures SizeBetween(layout, 0, i) <= |bs|
    ensures EncodeFrom(Decode(bs, layout), layout, i) == bs[SizeBetween(layout, 0, i)..]
    decreases |layout| - i
  {
    SizeBetweenSplit(layout, 0, i, |layout|);
    if i < |layout| {
      EncodeFromDecode(bs, layout, i + 1);
      SizeBetweenStep(layout, 0, i);
      var o := SizeBetween(layout, 0, i);
      DecodeAt(bs, layout, i);
      EncodeDecodeField(FieldBytes(bs, layout, i), layout[i]);
      assert bs[o..] == bs[o..o + Size(layout[i])] + bs[o + Size(layout[i])..];
    }
  }

  /** Reading a structure and writing it back gives the same bytes. */
  lemma {:induction false} EncodeDecode(bs: seq<u8>, layout: seq<Field>)
    requires |bs| == LayoutSize(layout)
    ensures Encode(Decode(bs, layout), layout) == bs
  {
    EncodeFromDecode(bs, layout, 0);
  }

  /** Field `i` is read from the bytes at offset `o`, given as the sum of the sizes before it. */
  lemma DecodeFieldAt(bs: seq<u8>, layout: seq<Field>, i: nat, o: nat)
    requires |bs| == LayoutSize(layout) && i < |layout| && SizeBetween(layout, 0, i) == o
    ensures o + Size(layout[i]) <= |bs|
    ensures Decode(bs, layout)[i] == DecodeField(bs[o..o + Size(layout[i])], layout[i])
  {
    DecodeAt(bs, layout, i);
  }

  /**
    In a structure read from the first bytes of a longer buffer, the
    integer field `i`, `w` bytes wide at offset `o`, holds the
    little-endian value of the buffer's bytes there.
   */
  lemma UIntAt(buffer: seq<u8>, layout: seq<Field>, i: nat, o: nat, w: nat)
    requires LayoutSize(layout) <= |buffer| && i < |layout| && layout[i] == UInt(w)
    requires SizeBetween(layout, 0, i) == o
    ensures o + w <= LayoutSize(layout)
    ensures Decode(buffer[..LayoutSize(layout)], layout)[i] == Num(LeValue(buffer[o..o + w]))
  {
    var bs := buffer[..LayoutSize(layout)];
    DecodeFieldAt(bs, layout, i, o);
    assert bs[o..o + w] == buffer[o..o + w];
  }

  /** The same for a one-byte integer field: it holds the byte itself. */
  lemma ByteAt(buffer: seq<u8>, layout: seq<Field>, i: nat, o: nat)
    requires LayoutSize(layout) <= |buffer| && i < |layout| && layout[i] == UInt(1)
    requires SizeBetween(layout, 0, i) == o
    ensures o < LayoutSize(layout)
    ensures Decode(buffer[..LayoutSize(layout)], layout)[i] == Num(buffer[o])
  {
    UIntAt(buffer, layout, i, o, 1);
    LeValueOfByte(buffer[o..o + 1]);
  }

  /** The same for a byte-array field `c` bytes long. */
  lemma BytesAt(buffer: seq<u8>, layout: seq<Field>, i: nat, o: nat, c: nat)
    requires LayoutSize(layout) <= |buffer| && i < |layout| && layout[i] == Bytes(c)
    requires SizeBetween(layout, 0, i) == o
    ensures o + c <= LayoutSize(layout)
    ensures Decode(buffer[..LayoutSize(layout)], layout)[i] == Raw(buffer[o..o + c])
  {
    var bs := buffer[..LayoutSize(layout)];
    DecodeFieldAt(bs, layout, i, o);
    assert bs[o..o + c] == buffer[o..o + c];
  }

  /** A value for a one-, two- or four-byte integer field. */
  predicate IsU8(v: Value) { v.Num? && v.n < 0x100 }
  predicate IsU16(v: Value) { v.Num? && v.n < 0x1_0000 }
  predicate IsU32(v: Value) { v.Num? && v.n < 0x1_0000_0000 }

  lemma {:induction false} FitsWidths(v: Value)
    ensures Fits(v, UInt(1)) <==> IsU8(v)
    ensures Fits(v, UInt(2)) <==> IsU16(v)
    ensures Fits(v, UInt(4)) <==> IsU32(v)
  {
    Pow2Widths();
  }

  /** The contents of a one-byte integer field. */
  function U8Of(v: Value): (n: u8)
    requires IsU8(v)
    ensures v == Num(n)
  {
    v.n
  }

  /** The contents of a two-byte integer field. */
  function U16Of(v: Value): (n: u16)
    requires IsU16(v)
    ensures v == Num(n)
  {
    v.n
  }

  /** The contents of a four-byte integer field. */
  function U32Of(v: Value): (n: u32)
    requires IsU32(v)
    ensures v == Num(n)
  {
    v.n
  }
}
