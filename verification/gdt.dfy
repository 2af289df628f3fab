/**
  The global descriptor table (arch/i386/gdt.cpp): `encode_gdt_entry`,
  which packs a segment descriptor into its eight bytes, and `fill_gdt`,
  which builds the null, kernel-code and kernel-data descriptors of a
  flat 4 GiB memory model.

  The byte layout, the access-byte bits and the flag bits are those of
  the segment descriptor in section 3.4.5 of the Intel 64 and IA-32
  Architectures Software Developer's Manual, Volume 3A.  The header that
  declares `GdtEntry` and the flag constants, arch/i386/gdt.h, is not part
  of this model: the field widths (32-bit base and limit, 8-bit access
  byte and flags) and the constants' values are taken from the manual.
 */
module Gdt {
  import opened Bits
  import opened KMath

  /** A segment descriptor before encoding; `{}` is all zeros. */
  datatype GdtEntry = GdtEntry(base: u32, limit: u32, accessByte: u8, flags: u8)

  const NULL_ENTRY: GdtEntry := GdtEntry(0, 0, 0, 0)

  /** The eight bytes of an encoded descriptor. */
  type Encoded = s: seq<u8> | |s| == 8 witness [0, 0, 0, 0, 0, 0, 0, 0]

  // Access byte: present (P), descriptor type code/data (S), executable
  // (E) and, for code, readable or, for data, writable (R/W).
  const ACCESS_VALID: u8 := 0x80
  const ACCESS_CODE_DATA: u8 := 0x10
  const ACCESS_EXECUTABLE: u8 := 0x08
  const ACCESS_READABLE: u8 := 0x02
  const ACCESS_WRITABLE: u8 := 0x02

  // Flags nibble: granularity (G) and default operation size (D/B).
  const FLAG_LIMIT_IN_PAGES: u8 := 0x8
  const FLAG_32_BIT: u8 := 0x4

  /** `get_bit_range(x, 8 * i, 8)` on a `uint32_t`: byte `i` of `x`. */
  function ByteOf(x: u32, i: nat): (b: u8)
    requires i < 4
    ensures b == (x / Pow2(8 * i)) % 256
  {
    Pow2Widths();
    GetByte(x, i, 32)
  }

  /** The four bytes of a 32-bit value. */
  lemma {:induction false} ByteOfValues(x: u32)
    ensures ByteOf(x, 0) == x % 0x100 && ByteOf(x, 1) == (x / 0x100) % 0x100
    ensures ByteOf(x, 2) == (x / 0x1_0000) % 0x100 && ByteOf(x, 3) == x / 0x100_0000
  {
    Pow2Values();
    assert Pow2(0) == 1;
    DivUnique(x, 1, x, 0);
    assert ByteOf(x, 3) == (x / 0x100_0000) % 0x100;
    DivBelow(x, 0x100_0000, 0x100);
  }

  /** `get_bit_range(limit, 16, 4)`: limit bits 16 to 19. */
  function LimitHigh(limit: u32): (n: nat)
    ensures n == (limit / 0x1_0000) % 16
  {
    Pow2Values();
    assert Min(4, 32) == 4;
    GetBitRange(limit, 16, 4, 32)
  }

  /** `data[6] |= flags << 4` on a `uint8_t` whose high nibble is still clear. */
  function WithFlags(low: nat, flags: u8): (b: u8)
    requires low < 16
    ensures b == low + 16 * (flags % 16)
  {
    Pow2Values();
    Place(flags, 4, low);
    OrCommutes(low, flags * 16);
    DivMod(flags, 16);
    DivUnique(flags * 16 + low, 256, flags / 16, low + 16 * (flags % 16));
    Or(low, flags * 16) % 256
  }

  /** `encode_gdt_entry(target, desc)`: the eight bytes it writes. */
  function Encode(desc: GdtEntry): (e: Encoded)
  {
    var bytes: seq<u8> :=
      [ByteOf(desc.limit, 0), ByteOf(desc.limit, 1),
       ByteOf(desc.base, 0), ByteOf(desc.base, 1), ByteOf(desc.base, 2),
       desc.accessByte,
       WithFlags(LimitHigh(desc.limit), desc.flags),
       ByteOf(desc.base, 3)];
    bytes
  }

  /**
    Where `encode_gdt_entry` puts the limit: bits 0-15 in bytes 0 and 1,
    bits 16-19 in the low nibble of byte 6; the low nibble of the flags
    goes to the high nibble of byte 6.
   */
  lemma {:induction false} EncodeLimitAndFlags(desc: GdtEntry)
    ensures var e := Encode(desc);
            e[0] == desc.limit % 0x100 && e[1] == (desc.limit / 0x100) % 0x100 &&
            e[6] == (desc.limit / 0x1_0000) % 16 + 16 * (desc.flags % 16)
  {
    ByteOfValues(desc.limit);
  }

  /** Where `encode_gdt_entry` puts the base: bytes 0-2 in bytes 2-4, byte 3 in byte 7; the access byte goes to byte 5. */
  lemma {:induction false} EncodeBaseAndAccess(desc: GdtEntry)
    ensures var e := Encode(desc);
            e[2] == desc.base % 0x100 && e[3] == (desc.base / 0x100) % 0x100 &&
            e[4] == (desc.base / 0x1_0000) % 0x100 && e[7] == desc.base / 0x100_0000 &&
            e[5] == desc.accessByte
  {
    ByteOfValues(desc.base);
  }

  /** Reads a descriptor back out of its eight bytes, the way the processor does. */
  function Decode(e: Encoded): (d: GdtEntry)
    ensures d.limit < 0x10_0000 && d.flags < 16
  {
    LeValue4(e[2], e[3], e[4], e[7]);
    LeValue3(e[0], e[1], e[6] % 16);
    GdtEntry(
      LeValue([e[2], e[3], e[4], e[7]]),
      LeValue([e[0], e[1], e[6] % 16]),
      e[5],
      e[6] / 16)
  }

  /** Three little-endian bytes. */
  lemma {:induction false} LeValue3(a: u8, b: u8, c: u8)
    ensures LeValue([a, b, c]) == a + 0x100 * b + 0x1_0000 * c
  {
    assert [a, b, c][1..] == [b, c];
    assert [b, c][1..] == [c];
    assert [c][1..] == [];
    assert LeValue([c]) == c;
    assert LeValue([b, c]) == b + 0x100 * c;
  }

  /** Four little-endian bytes. */
  lemma {:induction false} LeValue4(a: u8, b: u8, c: u8, d: u8)
    ensures LeValue([a, b, c, d]) == a + 0x100 * b + 0x1_0000 * c + 0x100_0000 * d
  {
    assert [a, b, c, d][1..] == [b, c, d];
    LeValue3(b, c, d);
  }

  /** What `Decode` reads from each byte. */
  lemma {:induction false} DecodeFields(e: Encoded)
    ensures Decode(e).base == e[2] as nat + 0x100 * (e[3] as nat) + 0x1_0000 * (e[4] as nat) + 0x100_0000 * (e[7] as nat)
    ensures Decode(e).limit == e[0] as nat + 0x100 * (e[1] as nat) + 0x1_0000 * (e[6] as nat % 16)
    ensures Decode(e).accessByte == e[5] && Decode(e).flags == e[6] / 16
  {
    LeValue4(e[2], e[3], e[4], e[7]);
    LeValue3(e[0], e[1], e[6] % 16);
  }

  /** A 32-bit value from its four bytes. */
  lemma {:induction false} BaseDigits(x: u32)
    ensures x == x % 0x100 + 0x100 * ((x / 0x100) % 0x100) + 0x1_0000 * ((x / 0x1_0000) % 0x100) + 0x100_0000 * (x / 0x100_0000)
  {
    ModMul(x, 0x100, 0x100);
    ModMul(x, 0x1_0000, 0x100);
    DivMod(x, 0x100_0000);
  }

  /** A 20-bit value from its two low bytes and its high nibble. */
  lemma {:induction false} LimitDigits(x: nat)
    requires x < 0x10_0000
    ensures x == x % 0x100 + 0x100 * ((x / 0x100) % 0x100) + 0x1_0000 * ((x / 0x1_0000) % 16)
  {
    ModMul(x, 0x100, 0x100);
    ModMul(x, 0x1_0000, 16);
    DivUnique(x, 0x10_0000, 0, x);
  }

  /**
    Decoding an encoded descriptor gives it back whenever its fields fit
    the descriptor: a 20-bit limit and a 4-bit flags nibble.
   */
  lemma {:induction false} DecodeOfEncode(desc: GdtEntry)
    requires desc.limit < 0x10_0000 && desc.flags < 16
    ensures Decode(Encode(desc)) == desc
  {
    var e := Encode(desc);
    var d := Decode(e);
    DecodeFields(e);
    assert d.base == desc.base by {
      EncodeBaseAndAccess(desc);
      BaseDigits(desc.base);
    }
    assert d.limit == desc.limit && d.flags == desc.flags by {
      EncodeLimitAndFlags(desc);
      LimitDigits(desc.limit);
      DivUnique(desc.flags, 16, 0, desc.flags);
      DivUnique(e[6], 16, desc.flags, (desc.limit / 0x1_0000) % 16);
    }
    assert d.accessByte == desc.accessByte by {
      EncodeBaseAndAccess(desc);
    }
  }

  /** The base's bytes, as `encode_gdt_entry` takes them, are the bytes it was decoded from. */
  lemma {:induction false} DecodedBaseBytes(e: Encoded)
    ensures var b := Decode(e).base;
            ByteOf(b, 0) == e[2] && ByteOf(b, 1) == e[3] && ByteOf(b, 2) == e[4] && ByteOf(b, 3) == e[7]
  {
    var b := Decode(e).base;
    LeBytesOfLeValue([e[2], e[3], e[4], e[7]]);
    LeBytesAt(b, 4, 0);
    LeBytesAt(b, 4, 1);
    LeBytesAt(b, 4, 2);
    LeBytesAt(b, 4, 3);
  }

  /** The limit's bytes and nibble, as `encode_gdt_entry` takes them, are those it was decoded from. */
  lemma {:induction false} DecodedLimitBytes(e: Encoded)
    ensures var l := Decode(e).limit;
            ByteOf(l, 0) == e[0] && ByteOf(l, 1) == e[1] && LimitHigh(l) == e[6] % 16
  {
    var l := Decode(e).limit;
    LeBytesOfLeValue([e[0], e[1], e[6] % 16]);
    LeBytesAt(l, 3, 0);
    LeBytesAt(l, 3, 1);
    LeBytesAt(l, 3, 2);
    Pow2Widths();
    var q := l / 0x1_0000;
    DivBelow(l, 0x1_0000, 0x100);
    assert q == e[6] % 16;
    DivUnique(q, 16, 0, q);
  }

  /** Every eight bytes are the encoding of what they decode to. */
  lemma {:induction false} EncodeOfDecode(e: Encoded)
    ensures Encode(Decode(e)) == e
  {
    var d := Decode(e);
    DecodedBaseBytes(e);
    DecodedLimitBytes(e);
    DivMod(e[6], 16);
    DivUnique(d.flags, 16, 0, d.flags);
    var e' := Encode(d);
    assert e'[6] == e[6];
    assert e' == e;
  }

  /** The null descriptor encodes to eight zero bytes. */
  lemma {:induction false} NullEncodesToZeros()
    ensures Encode(NULL_ENTRY) == [0, 0, 0, 0, 0, 0, 0, 0]
  {
    var e := Encode(NULL_ENTRY);
    assert e[0] == 0 && e[6] == 0 && e[7] == 0;
  }

  /** `ACCESS_VALID | ACCESS_CODE_DATA | ACCESS_EXECUTABLE | ACCESS_READABLE`. */
  function CodeAccess(): (a: u8)
    ensures a == 0x9a
  {
    Pow2Values();
    assert Pow2(5) == 32;
    Place(4, 5, 0x10);
    Place(9, 4, 0x08);
    Place(0x13, 3, 0x02);
    Or(Or(Or(ACCESS_VALID, ACCESS_CODE_DATA), ACCESS_EXECUTABLE), ACCESS_READABLE)
  }

  /** `ACCESS_VALID | ACCESS_CODE_DATA | ACCESS_WRITABLE`. */
  function DataAccess(): (a: u8)
    ensures a == 0x92
  {
    Pow2Values();
    assert Pow2(5) == 32;
    Place(4, 5, 0x10);
    Place(0x24, 2, 0x02);
    Or(Or(ACCESS_VALID, ACCESS_CODE_DATA), ACCESS_WRITABLE)
  }

  /** `FLAG_LIMIT_IN_PAGES | FLAG_32_BIT`. */
  function SegmentFlags(): (f: u8)
    ensures f == 0xc
  {
    Pow2Values();
    Place(1, 3, 0x4);
    Or(FLAG_LIMIT_IN_PAGES, FLAG_32_BIT)
  }

  /** Base 0, a limit of `0xfffff` pages: the whole 4 GiB. */
  predicate Flat(d: GdtEntry)
  {
    d.base == 0 && d.limit == 0xf_ffff && d.flags == 0xc
  }

  /**
    `fill_gdt()`: the null descriptor, then the kernel code segment
    (present, code, executable, readable) and the kernel data segment
    (present, data, writable), both flat, in 4 KiB pages, 32-bit.
   */
  function FillGdt(): (gdt: seq<Encoded>)
    ensures |gdt| == 3
    ensures gdt[0] == [0, 0, 0, 0, 0, 0, 0, 0]
    ensures Decode(gdt[1]) == GdtEntry(0, 0xf_ffff, 0x9a, 0xc) && Flat(Decode(gdt[1]))
    ensures Decode(gdt[2]) == GdtEntry(0, 0xf_ffff, 0x92, 0xc) && Flat(Decode(gdt[2]))
  {
    NullEncodesToZeros();
    var code := GdtEntry(0, 0xf_ffff, CodeAccess(), SegmentFlags());
    var data := GdtEntry(0, 0xf_ffff, DataAccess(), SegmentFlags());
    DecodeOfEncode(code);
    DecodeOfEncode(data);
    [Encode(NULL_ENTRY), Encode(code), Encode(data)]
  }

  /** With the limit counted in 4 KiB pages, a flat segment reaches every 32-bit address. */
  lemma {:induction false} FlatCoversAddressSpace(d: GdtEntry)
    requires Flat(d)
    ensures d.base + (d.limit + 1) * 4096 == 0x1_0000_0000
    ensures Bit(d.flags, 3) && Bit(d.flags, 2)
  {
    Pow2Values();
    BitIsDiv(d.flags, 3);
    BitIsDiv(d.flags, 2);
  }

  // ---------------------------------------------------------------------
  // The table register `init` loads with `lgdt`

  /** GDTR or IDTR: the table's limit and its linear base address. */
  datatype TableRegister = TableRegister(limit: u16, base: u32)

  /** Byte `offset` of the table lies within the register's limit. */
  predicate Admits(r: TableRegister, offset: nat)
  {
    offset <= r.limit
  }

  /** Descriptor `i` of eight bytes can be used: its last byte is within the limit. */
  predicate AdmitsDescriptor(r: TableRegister, i: nat)
  {
    Admits(r, 8 * i + 7)
  }

  const GDT_ENTRIES: nat := 3

  /** `gdtr.size = sizeof(gdt)`, as `init` writes it: the table's size in bytes. */
  function GdtrAsWritten(base: u32): (r: TableRegister)
    ensures r.base == base && r.limit == 8 * GDT_ENTRIES
  {
    TableRegister(8 * GDT_ENTRIES, base)
  }

  /**
    A limit is the offset of the table's last byte (section 3.5.1 of the
    manual), so the register `init` loads admits one byte past the three
    descriptors.  No descriptor index changes: the same three are usable.
   */
  lemma {:induction false} GdtrAsWrittenAdmitsExtraByte(base: u32)
    ensures Admits(GdtrAsWritten(base), 8 * GDT_ENTRIES)
    ensures forall i: nat :: AdmitsDescriptor(GdtrAsWritten(base), i) <==> i < GDT_ENTRIES
  {
  }

  /** The limit for a table of `bytes` bytes: the offset of its last byte. */
  function TableLimit(bytes: nat): (l: u16)
    requires 0 < bytes <= 0x1_0000
    ensures l + 1 == bytes
  {
    bytes - 1
  }

  /** The register the manual asks for: it admits exactly the table's bytes. */
  function Gdtr(base: u32): (r: TableRegister)
    ensures r.base == base
    ensures forall offset: nat :: Admits(r, offset) <==> offset < 8 * GDT_ENTRIES
    ensures forall i: nat :: AdmitsDescriptor(r, i) <==> i < GDT_ENTRIES
  {
    TableRegister(TableLimit(8 * GDT_ENTRIES), base)
  }
}
