/**
  The interrupt descriptor table (arch/i386/idt.cpp): `register_gate`,
  which writes one 32-bit gate descriptor, the `register_interrupt` and
  `register_trap` wrappers, and `init`, which points all 256 vectors at a
  handler that does nothing.

  The gate layout and its type and attribute bits are those of section
  6.11 of the Intel 64 and IA-32 Architectures Software Developer's
  Manual, Volume 3A.  The header that declares `EncodedIdtEntry` and the
  `ATTR_` constants, arch/i386/idt.hpp, is not part of this model; their
  values are taken from the manual.  Handlers are given by their 32-bit
  addresses.
 */
module Idt {
  import opened Bits
  import opened KMath
  import Gdt

  const VECTORS: nat := 256

  /** The selector of the kernel code segment: descriptor 1 of the GDT, ring 0. */
  const KERNEL_CODE_SELECTOR: u16 := 0x08

  /** Present (P). */
  const ATTR_VALID: u8 := 0x80
  /** A 32-bit interrupt gate: interrupts stay disabled in the handler. */
  const ATTR_32_BIT_INTERRUPT: u8 := 0xe
  /** A 32-bit trap gate: interrupts stay enabled. */
  const ATTR_32_BIT_TRAP: u8 := 0xf

  /** `ATTR_RING(ring)`: the descriptor privilege level in bits 5 and 6. */
  function AttrRing(ring: nat): (a: nat)
    requires ring < 4
    ensures a == ring * 32
  {
    Pow2Values();
    assert Pow2(5) == 32;
    ring * Pow2(5)
  }

  /** One gate as the processor reads it. */
  datatype EncodedIdtEntry = EncodedIdtEntry(offset1: u16, segment: u16, zero: u8, attributes: u8, offset2: u16)

  /** A zero-initialised entry, as the static table starts. */
  const ZERO_ENTRY: EncodedIdtEntry := EncodedIdtEntry(0, 0, 0, 0, 0)

  type Table = t: seq<EncodedIdtEntry> | |t| == VECTORS witness seq(VECTORS, _ => ZERO_ENTRY)

  /** The handler address a gate holds: `offset_2` above `offset_1`. */
  function HandlerAddress(e: EncodedIdtEntry): (address: nat)
    ensures address < 0x1_0000_0000
  {
    e.offset2 * 0x1_0000 + e.offset1
  }

  /**
    `ATTR_VALID | ATTR_RING(3) | attribute_type`: bits 5 to 7 set, the
    other bits those of the type.
   */
  function GateAttributes(attributeType: u8): (a: u8)
    ensures forall i: nat :: Bit(a, i) == (5 <= i < 8 || Bit(attributeType, i))
    ensures attributeType < 32 ==> a == 0xe0 + attributeType
  {
    Pow2Values();
    assert Pow2(5) == 32 && Pow2(7) == 128;
    Place(1, 7, AttrRing(3));
    assert Or(ATTR_VALID, AttrRing(3)) == HighMask(8, 5);
    OrHighBits(attributeType);
    Or(Or(ATTR_VALID, AttrRing(3)), attributeType)
  }

  /** `0xe0 | t` for a byte `t`. */
  lemma {:induction false} OrHighBits(t: u8)
    ensures Or(HighMask(8, 5), t) < 256
    ensures forall i: nat :: Bit(Or(HighMask(8, 5), t), i) == (5 <= i < 8 || Bit(t, i))
    ensures t < 32 ==> Or(HighMask(8, 5), t) == 0xe0 + t
  {
    Pow2Values();
    BitwiseBounded(HighMask(8, 5), t, 8);
    forall i: nat
      ensures Bit(Or(HighMask(8, 5), t), i) == (5 <= i < 8 || Bit(t, i))
    {
      OrHighBit(t, i);
    }
    if t < 32 {
      OrHighSmall(t);
    }
  }

  lemma {:induction false} OrHighBit(t: u8, i: nat)
    ensures Bit(Or(HighMask(8, 5), t), i) == (5 <= i < 8 || Bit(t, i))
  {
    OrBit(HighMask(8, 5), t, i);
    BitOfHighMask(8, 5, i);
  }

  lemma {:induction false} OrHighSmall(t: u8)
    requires t < 32
    ensures Or(HighMask(8, 5), t) == 0xe0 + t
  {
    Pow2Values();
    assert Pow2(5) == 32;
    assert HighMask(8, 5) == 7 * Pow2(5);
    Place(7, 5, t);
  }

  /** The handler address cut into the two 16-bit halves a gate stores. */
  function SplitAddress(address: u32): (halves: (u16, u16))
    ensures halves.1 * 0x1_0000 + halves.0 == address
  {
    DivBelow(address, 0x1_0000, 0x1_0000);
    DivMod(address, 0x1_0000);
    (address % 0x1_0000, address / 0x1_0000)
  }

  /** The halves are `get_bit_range(address, 0, 16)` and `get_bit_range(address, 16, 16)`. */
  lemma {:induction false} SplitAddressAsWritten(address: u32)
    ensures address < Pow2(32)
    ensures SplitAddress(address) == (GetBitRange(address, 0, 16, 32), GetBitRange(address, 16, 16, 32))
  {
    HalvesOf32(address);
  }

  /**
    `register_gate(vector, address, attribute_type)`: entry `vector` gets
    the address split into its low and high halves, the kernel code
    selector, a zero byte and the attributes.
   */
  function RegisterGate(idt: Table, vector: u8, address: u32, attributeType: u8): (r: Table)
    ensures HandlerAddress(r[vector]) == address
    ensures r[vector].segment == KERNEL_CODE_SELECTOR && r[vector].zero == 0
    ensures r[vector].attributes == GateAttributes(attributeType)
    ensures forall v :: 0 <= v < VECTORS && v != vector ==> r[v] == idt[v]
  {
    var (low, high) := SplitAddress(address);
    idt[vector := EncodedIdtEntry(low, KERNEL_CODE_SELECTOR, 0, GateAttributes(attributeType), high)]
  }

  /** A gate as `register_gate` writes it: present, ring 3, of the given type, into kernel code. */
  predicate GateTo(e: EncodedIdtEntry, address: u32, attributeType: u8)
  {
    HandlerAddress(e) == address && e.segment == KERNEL_CODE_SELECTOR && e.zero == 0 &&
    e.attributes == 0xe0 + attributeType
  }

  /** `register_interrupt(vector, handler)`: an interrupt gate. */
  function RegisterInterrupt(idt: Table, vector: u8, handler: u32): (r: Table)
    ensures GateTo(r[vector], handler, ATTR_32_BIT_INTERRUPT)
    ensures forall v :: 0 <= v < VECTORS && v != vector ==> r[v] == idt[v]
  {
    RegisterGate(idt, vector, handler, ATTR_32_BIT_INTERRUPT)
  }

  /** Both `register_trap(vector, handler)` overloads: a trap gate. */
  function RegisterTrap(idt: Table, vector: u8, handler: u32): (r: Table)
    ensures GateTo(r[vector], handler, ATTR_32_BIT_TRAP)
    ensures forall v :: 0 <= v < VECTORS && v != vector ==> r[v] == idt[v]
  {
    RegisterGate(idt, vector, handler, ATTR_32_BIT_TRAP)
  }

  /**
    The two kinds of gate differ in the type field alone: bit 0 of the
    attributes is clear for an interrupt gate and set for a trap gate, and
    both are present and callable from ring 3.
   */
  lemma {:induction false} GateKinds(idt: Table, vector: u8, handler: u32)
    ensures var i := RegisterInterrupt(idt, vector, handler)[vector];
            var t := RegisterTrap(idt, vector, handler)[vector];
            i.attributes + 1 == t.attributes && !Bit(i.attributes, 0) && Bit(t.attributes, 0) &&
            Bit(i.attributes, 7) && Bit(i.attributes, 6) && Bit(i.attributes, 5) &&
            i.offset1 == t.offset1 && i.offset2 == t.offset2 && i.segment == t.segment
  {
    var a := GateAttributes(ATTR_32_BIT_INTERRUPT);
    var b := GateAttributes(ATTR_32_BIT_TRAP);
    BitZeroIndex(a);
    BitZeroIndex(b);
    assert Bit(a, 7) && Bit(a, 6) && Bit(a, 5);
  }

  /** `KERNEL_CODE_SELECTOR` picks the GDT's kernel code descriptor, at privilege level 0. */
  lemma {:induction false} SelectorIsKernelCode()
    ensures KERNEL_CODE_SELECTOR / 8 == 1 && KERNEL_CODE_SELECTOR % 4 == 0
    ensures Gdt.Decode(Gdt.FillGdt()[KERNEL_CODE_SELECTOR / 8]).accessByte == 0x9a
  {
  }

  /** The first `n` vectors point at `handler` through interrupt gates. */
  predicate AllInterruptsTo(idt: Table, n: nat, handler: u32)
  {
    forall v :: 0 <= v < n && v < VECTORS ==> GateTo(idt[v], handler, ATTR_32_BIT_INTERRUPT)
  }

  /** `init()`: `register_interrupt(i, void_handler)` for every vector. */
  method Init(idt: Table, voidHandler: u32) returns (r: Table)
    ensures AllInterruptsTo(r, VECTORS, voidHandler)
  {
    r := idt;
    var i := 0;
    while i < VECTORS
      invariant 0 <= i <= VECTORS
      invariant AllInterruptsTo(r, i, voidHandler)
    {
      r := RegisterStep(r, i, voidHandler);
      i := i + 1;
    }
  }

  /** One turn of `init`'s loop. */
  method RegisterStep(idt: Table, i: nat, handler: u32) returns (r: Table)
    requires i < VECTORS && AllInterruptsTo(idt, i, handler)
    ensures r == RegisterInterrupt(idt, i, handler)
    ensures AllInterruptsTo(r, i + 1, handler)
  {
    r := RegisterInterrupt(idt, i, handler);
  }

  const IDT_BYTES: nat := 8 * VECTORS

  /** `idtr.size = sizeof(idt)`, as `init` writes it: the table's size in bytes. */
  function IdtrAsWritten(base: u32): (r: Gdt.TableRegister)
    ensures r.base == base && r.limit == IDT_BYTES
  {
    Gdt.TableRegister(IDT_BYTES, base)
  }

  /** As with the GDT, the register admits a byte past the table, and no extra vector. */
  lemma {:induction false} IdtrAsWrittenAdmitsExtraByte(base: u32)
    ensures Gdt.Admits(IdtrAsWritten(base), IDT_BYTES)
    ensures forall i: nat :: Gdt.AdmitsDescriptor(IdtrAsWritten(base), i) <==> i < VECTORS
  {
  }

  /** The register the manual asks for: the limit is the offset of the table's last byte. */
  function Idtr(base: u32): (r: Gdt.TableRegister)
    ensures r.base == base
    ensures forall offset: nat :: Gdt.Admits(r, offset) <==> offset < IDT_BYTES
    ensures forall i: nat :: Gdt.AdmitsDescriptor(r, i) <==> i < VECTORS
  {
    Gdt.TableRegister(Gdt.TableLimit(IDT_BYTES), base)
  }
}
