/**
  PCI configuration access and device admission (arch/i386/pci.cpp).

  Configuration mechanism #1 of section 3.2.2.3.2 of the PCI Local Bus
  Specification, revision 3.0: the kernel writes an address, made of an
  enable bit, bus, device, function and register offset, to port `0xcf8`
  and reads the dword at that address from port `0xcfc`.  The port pair
  becomes a `ConfigSpace`, a function from configuration addresses to the
  dword read back; the 16- and 8-bit reads pick a part of that dword.

  `check_device` admits function 0 of a device when a vendor answers, and
  functions 1 to 7 when function 0's header type has its multi-function
  bit set; each admitted function goes into a fixed-capacity vector.
 */
module Pci {
  import opened Bits
  import opened KMath
  import opened Options
  import InplaceVectors

  /** What `inl(0xcfc)` returns after `outl(0xcf8, address)`. */
  type ConfigSpace = u32 -> u32

  /** Bit 31 of a configuration address: the enable bit. */
  const CONFIG_ENABLE: nat := 0x8000_0000
  /** The vendor ID read back where no function answers. */
  const NO_VENDOR: u16 := 0xffff
  /** Class 0x06, subclass 0x04: a PCI-to-PCI bridge. */
  const BRIDGE_CLASS: u16 := 0x0604
  /** The capacity of the kernel's function list. */
  const MAX_FUNCTIONS: nat := 256

  /**
    `0x80000000 | bus << 16 | device << 11 | function << 8 | offset`.
    The fields sit side by side when the device number has 5 bits and the
    function number 3.
   */
  function ConfigAddress(bus: u8, device: u8, func: u8, offset: u8): (a: u32)
    ensures device < 32 && func < 8 ==>
              a == CONFIG_ENABLE + bus * 0x1_0000 + device * 0x800 + func * 0x100 + offset
  {
    AddressBounded(bus, device, func, offset);
    if device < 32 && func < 8 then
      AddressFieldsSideBySide(bus, device, func, offset);
      CONFIG_ENABLE + bus * 0x1_0000 + device * 0x800 + func * 0x100 + offset
    else
      AddressBits(bus, device, func, offset)
  }

  /** The address is the `|` of the shifted fields, whatever the device and function numbers. */
  lemma {:induction false} ConfigAddressIsOr(bus: u8, device: u8, func: u8, offset: u8)
    ensures ConfigAddress(bus, device, func, offset) == AddressBits(bus, device, func, offset)
  {
    if device < 32 && func < 8 {
      AddressFieldsSideBySide(bus, device, func, offset);
    }
  }

  /** The shifted fields, or-ed together. */
  function AddressBits(bus: u8, device: u8, func: u8, offset: u8): nat
  {
    Or(Or(Or(Or(CONFIG_ENABLE, bus * 0x1_0000), device * 0x800), func * 0x100), offset)
  }

  /** Each field fits below bit 32, so the address does too. */
  lemma {:induction false} AddressBounded(bus: u8, device: u8, func: u8, offset: u8)
    ensures AddressBits(bus, device, func, offset) < 0x1_0000_0000
  {
    Pow2Values();
    var e, b, d, f := CONFIG_ENABLE, bus * 0x1_0000, device * 0x800, func * 0x100;
    BitwiseBounded(e, b, 32);
    BitwiseBounded(Or(e, b), d, 32);
    BitwiseBounded(Or(Or(e, b), d), f, 32);
    BitwiseBounded(Or(Or(Or(e, b), d), f), offset, 32);
  }

  /** The four `|` of `ConfigAddress` are additions when the fields do not overlap. */
  lemma {:induction false} AddressFieldsSideBySide(bus: u8, device: u8, func: u8, offset: u8)
    requires device < 32 && func < 8
    ensures AddressBits(bus, device, func, offset) ==
            CONFIG_ENABLE + bus * 0x1_0000 + device * 0x800 + func * 0x100 + offset
  {
    Pow2Values();
    var b, d, f := bus * 0x1_0000, device * 0x800, func * 0x100;
    var e1 := CONFIG_ENABLE + b;
    var e2 := e1 + d;
    var e3 := e2 + f;
    assert Or(CONFIG_ENABLE, b) == e1 by {
      Place(0x80, 24, b);
    }
    assert Or(e1, d) == e2 by {
      assert e1 == (0x8000 + bus) * Pow2(16);
      Place(0x8000 + bus, 16, d);
    }
    assert Or(e2, f) == e3 by {
      assert e2 == (0x10_0000 + bus * 32 + device) * Pow2(11);
      Place(0x10_0000 + bus * 32 + device, 11, f);
    }
    assert Or(e3, offset) == e3 + offset by {
      assert e3 == (0x80_0000 + bus * 0x100 + device * 8 + func) * Pow2(8);
      Place(0x80_0000 + bus * 0x100 + device * 8 + func, 8, offset);
    }
  }

  /** Each field comes back out of the configuration address, and the enable bit is set. */
  lemma {:induction false} ConfigAddressFields(bus: u8, device: u8, func: u8, offset: u8)
    requires device < 32 && func < 8
    ensures var a := ConfigAddress(bus, device, func, offset);
            a / CONFIG_ENABLE == 1 && (a / 0x1_0000) % 0x100 == bus && (a / 0x800) % 32 == device &&
            (a / 0x100) % 8 == func && a % 0x100 == offset
  {
    var a := ConfigAddress(bus, device, func, offset);
    var low := bus * 0x1_0000 + device * 0x800 + func * 0x100 + offset;
    DivUnique(a, CONFIG_ENABLE, 1, low);
    DivUnique(a, 0x1_0000, 0x8000 + bus, device * 0x800 + func * 0x100 + offset);
    DivUnique(0x8000 + bus, 0x100, 0x80, bus);
    DivUnique(a, 0x800, 0x10_0000 + bus * 32 + device, func * 0x100 + offset);
    DivUnique(0x10_0000 + bus * 32 + device, 32, 0x8000 + bus, device);
    DivUnique(a, 0x100, 0x80_0000 + bus * 0x100 + device * 8 + func, offset);
    DivUnique(0x80_0000 + bus * 0x100 + device * 8 + func, 8, 0x10_0000 + bus * 32 + device, func);
  }

  /** `config_read_u32(bus, device, func, offset)`. */
  function ReadU32(space: ConfigSpace, bus: u8, device: u8, func: u8, offset: u8): (r: u32)
  {
    space(ConfigAddress(bus, device, func, offset))
  }

  /** `offset & 0xfc` and `offset & 0x03`: the dword holding `offset`, and where in it `offset` is. */
  lemma {:induction false} OffsetMasks(offset: u8)
    ensures And(offset, 0xfc) == offset - offset % 4
    ensures And(offset, 3) == offset % 4
  {
    Pow2Values();
    assert HighMask(8, 2) == 0xfc;
    AndHighMask(offset, 8, 2);
    AndLowMask(offset, 2);
  }

  /** The low or the high half of a dword. */
  function HalfOf(dword: u32, high: bool): u16
  {
    if high then dword / 0x1_0000 else dword % 0x1_0000
  }

  /** Byte `i` of a dword, little-endian. */
  function ByteOf(dword: u32, i: nat): u8
    requires i < 4
  {
    LeBytes(dword, 4)[i]
  }

  /** `config_read_u16`: the low half of the dword holding `offset` when it is a multiple of 4, the high half otherwise. */
  function ReadU16(space: ConfigSpace, bus: u8, device: u8, func: u8, offset: u8): u16
  {
    HalfOf(ReadU32(space, bus, device, func, offset - offset % 4), offset % 4 != 0)
  }

  /** `config_read_u8`: byte `offset & 3` of the dword holding `offset`. */
  function ReadU8(space: ConfigSpace, bus: u8, device: u8, func: u8, offset: u8): u8
  {
    ByteOf(ReadU32(space, bus, device, func, offset - offset % 4), offset % 4)
  }

  /** `get_bit_range(dword, start, length)` on a `uint32_t`. */
  function BitRange32(dword: u32, start: nat, length: nat): (r: nat)
    requires start < 32
    ensures r == (dword / Pow2(start)) % Pow2(Min(length, 32))
  {
    Pow2Widths();
    GetBitRange(dword, start, length, 32)
  }

  /**
    The 16-bit read is the source's bit-range extraction: bits 0 to 15 of
    the dword at `offset & 0xfc` when `offset & 3` is zero, bits 16 to 31
    otherwise.
   */
  lemma {:induction false} ReadU16AsWritten(space: ConfigSpace, bus: u8, device: u8, func: u8, offset: u8)
    ensures And(offset, 0xfc) == offset - offset % 4 && And(offset, 3) == offset % 4
    ensures var dword := ReadU32(space, bus, device, func, And(offset, 0xfc));
            ReadU16(space, bus, device, func, offset) ==
            if And(offset, 3) == 0 then BitRange32(dword, 0, 16) else BitRange32(dword, 16, 16)
  {
    OffsetMasks(offset);
    var dword := ReadU32(space, bus, device, func, offset - offset % 4);
    assert ReadU32(space, bus, device, func, And(offset, 0xfc)) == dword;
    var high := offset % 4 != 0;
    assert ReadU16(space, bus, device, func, offset) == HalfOf(dword, high);
    HalfIsBitRange(dword, high);
  }

  /** `get_bit_range(dword, 0, 16)` is the low half, `get_bit_range(dword, 16, 16)` the high half. */
  lemma {:induction false} HalfIsBitRange(dword: u32, high: bool)
    ensures HalfOf(dword, high) == BitRange32(dword, if high then 16 else 0, 16)
  {
    HalvesOf32(dword);
  }

  /** The 8-bit read is bits `8 * (offset & 3)` to `8 * (offset & 3) + 7` of the dword at `offset & 0xfc`. */
  lemma {:induction false} ReadU8AsWritten(space: ConfigSpace, bus: u8, device: u8, func: u8, offset: u8)
    ensures And(offset, 0xfc) == offset - offset % 4 && And(offset, 3) == offset % 4
    ensures var dword := ReadU32(space, bus, device, func, And(offset, 0xfc));
            ReadU8(space, bus, device, func, offset) == BitRange32(dword, And(offset, 3) * 8, 8)
  {
    OffsetMasks(offset);
    Pow2Values();
    var dword := ReadU32(space, bus, device, func, offset - offset % 4);
    LeBytesAt(dword, 4, offset % 4);
    assert Min(8, 32) == 8;
  }

  /** The low half of a dword is its bytes 0 and 1. */
  lemma {:induction false} LowHalfBytes(dword: u32)
    ensures HalfOf(dword, false) == ByteOf(dword, 0) + 0x100 * ByteOf(dword, 1)
  {
    Pow2Values();
    LeBytesAt(dword, 4, 0);
    LeBytesAt(dword, 4, 1);
    ModMul(dword, 0x100, 0x100);
  }

  /** The high half of a dword is its bytes 2 and 3. */
  lemma {:induction false} HighHalfBytes(dword: u32)
    ensures HalfOf(dword, true) == ByteOf(dword, 2) + 0x100 * ByteOf(dword, 3)
  {
    Pow2Values();
    LeBytesAt(dword, 4, 2);
    LeBytesAt(dword, 4, 3);
    var upper := dword / 0x1_0000;
    DivDiv(dword, 0x1_0000, 0x100);
    DivMod(upper, 0x100);
  }

  /**
    The two read widths agree: at an even offset, the 16-bit read is the
    byte there and the byte after it, little-endian.
   */
  lemma {:induction false} ReadU16IsTwoBytes(space: ConfigSpace, bus: u8, device: u8, func: u8, offset: u8)
    requires offset % 2 == 0
    ensures ReadU16(space, bus, device, func, offset) ==
            ReadU8(space, bus, device, func, offset) + 0x100 * ReadU8(space, bus, device, func, offset + 1)
  {
    var base := offset - offset % 4;
    assert (offset + 1) - (offset + 1) % 4 == base;
    var dword := ReadU32(space, bus, device, func, base);
    if offset % 4 == 0 {
      LowHalfBytes(dword);
    } else {
      HighHalfBytes(dword);
    }
  }

  /** A function of a device on a bus. */
  datatype PciFunction = PciFunction(bus: u8, device: u8, func: u8)

  function Vendor(space: ConfigSpace, f: PciFunction): u16
  {
    ReadU16(space, f.bus, f.device, f.func, 0x00)
  }

  function DeviceId(space: ConfigSpace, f: PciFunction): u16
  {
    ReadU16(space, f.bus, f.device, f.func, 0x02)
  }

  /** Class code above subclass. */
  function FullClass(space: ConfigSpace, f: PciFunction): u16
  {
    ReadU16(space, f.bus, f.device, f.func, 0x0a)
  }

  /** The programming interface byte. */
  function ProgIf(space: ConfigSpace, f: PciFunction): u8
  {
    ReadU8(space, f.bus, f.device, f.func, 0x09)
  }

  /** For PCI-to-PCI bridges only. */
  function SecondaryBus(space: ConfigSpace, f: PciFunction): u8
  {
    ReadU8(space, f.bus, f.device, f.func, 0x19)
  }

  /** The top bit of the header type byte. */
  function HasMultipleFunctions(space: ConfigSpace, f: PciFunction): bool
  {
    ReadU8(space, f.bus, f.device, f.func, 0x0e) >= 0x80
  }

  /** `get_bit(config_read_u8(..., 0x0e), 7)`. */
  lemma {:induction false} HasMultipleFunctionsAsWritten(space: ConfigSpace, f: PciFunction)
    ensures HasMultipleFunctions(space, f) == GetBit(ReadU8(space, f.bus, f.device, f.func, 0x0e), 7)
  {
    var h := ReadU8(space, f.bus, f.device, f.func, 0x0e);
    BitIsDiv(h, 7);
    Pow2Values();
    assert Pow2(7) == 0x80;
  }

  /**
    Which dword of the header each reader uses, and which part of it:
    vendor and device ID share dword 0, class code and subclass are the
    high half of dword 8, the programming interface is byte 1 of dword 8,
    the header type byte 2 of dword 0x0c, the secondary bus byte 1 of
    dword 0x18.
   */
  lemma {:induction false} HeaderFields(space: ConfigSpace, f: PciFunction)
    ensures var d0 := ReadU32(space, f.bus, f.device, f.func, 0x00);
            Vendor(space, f) == d0 % 0x1_0000 && DeviceId(space, f) == d0 / 0x1_0000
    ensures var d8 := ReadU32(space, f.bus, f.device, f.func, 0x08);
            FullClass(space, f) == d8 / 0x1_0000 && ProgIf(space, f) == (d8 / 0x100) % 0x100
    ensures var d12 := ReadU32(space, f.bus, f.device, f.func, 0x0c);
            HasMultipleFunctions(space, f) == ((d12 / 0x1_0000) % 0x100 >= 0x80)
    ensures var d24 := ReadU32(space, f.bus, f.device, f.func, 0x18);
            SecondaryBus(space, f) == (d24 / 0x100) % 0x100
  {
    Pow2Values();
    LeBytesAt(ReadU32(space, f.bus, f.device, f.func, 0x08), 4, 1);
    LeBytesAt(ReadU32(space, f.bus, f.device, f.func, 0x0c), 4, 2);
    LeBytesAt(ReadU32(space, f.bus, f.device, f.func, 0x18), 4, 1);
  }

  /**
    `get_bar_io(index)`: the dword of base address register `index` with
    its two low bits cleared.  The register offset is computed in a
    `uint8_t`.
   */
  function BarIo(space: ConfigSpace, f: PciFunction, index: u8): u32
  {
    var dword := ReadU32(space, f.bus, f.device, f.func, (0x10 + 4 * index) % 0x100);
    dword - dword % 4
  }

  /** `dword & 0xfffffffc` clears the two low bits and keeps the rest. */
  lemma {:induction false} BarIoAsWritten(space: ConfigSpace, f: PciFunction, index: u8)
    ensures var dword := ReadU32(space, f.bus, f.device, f.func, (0x10 + 4 * index) % 0x100);
            BarIo(space, f, index) == And(dword, 0xffff_fffc) &&
            BarIo(space, f, index) % 4 == 0 && BarIo(space, f, index) / 4 == dword / 4
  {
    var dword := ReadU32(space, f.bus, f.device, f.func, (0x10 + 4 * index) % 0x100);
    Pow2Widths();
    assert Pow2(2) == 4 by { assert Pow2(1) == 2; }
    assert HighMask(32, 2) == 0xffff_fffc;
    AndHighMask(dword, 32, 2);
    DivMod(dword, 4);
    DivUnique(dword - dword % 4, 4, dword / 4, 0);
  }

  /** The bars of a header: register `i` sits at offset `0x10 + 4 i`. */
  lemma {:induction false} BarOffsets(space: ConfigSpace, f: PciFunction, index: u8)
    requires index < 6
    ensures var dword := ReadU32(space, f.bus, f.device, f.func, 0x10 + 4 * index);
            BarIo(space, f, index) == dword - dword % 4
  {
    DivUnique(0x10 + 4 * index, 0x100, 0, 0x10 + 4 * index);
  }

  // ---------------------------------------------------------------------
  // The function list

  type Functions = InplaceVectors.InplaceVector<PciFunction>

  /**
    `find_function_with_class(full_class)`: the first function in the list
    whose class matches, or none.
   */
  method FindFunctionWithClass(space: ConfigSpace, functions: Functions, fullClass: u16) returns (r: Option<PciFunction>)
    ensures r.None? <==> forall i :: 0 <= i < |functions.items| ==> FullClass(space, functions.items[i]) != fullClass
    ensures r.Some? ==>
              exists i :: 0 <= i < |functions.items| && functions.items[i] == r.value &&
                FullClass(space, r.value) == fullClass &&
                forall j :: 0 <= j < i ==> FullClass(space, functions.items[j]) != fullClass
  {
    var i := 0;
    while i < |functions.items|
      invariant 0 <= i <= |functions.items|
      invariant forall j :: 0 <= j < i ==> FullClass(space, functions.items[j]) != fullClass
    {
      var f := functions.items[i];
      if FullClass(space, f) == fullClass {
        return Some(f);
      }
      i := i + 1;
    }
    r := None;
  }

  /** Functions `k` to 7 of a device whose vendor answers, in order. */
  function OtherFunctions(space: ConfigSpace, bus: u8, device: u8, k: nat): (fs: seq<PciFunction>)
    requires k <= 8
    ensures |fs| <= 8 - k
    decreases 8 - k
  {
    if k == 8 then []
    else
      var f := PciFunction(bus, device, k);
      var rest := OtherFunctions(space, bus, device, k + 1);
      if Vendor(space, f) != NO_VENDOR then [f] + rest else rest
  }

  /** The functions from `k` on are those of the device, numbered `k` to 7, whose vendor answers. */
  lemma {:induction false} OtherFunctionsAdmit(space: ConfigSpace, bus: u8, device: u8, k: nat, f: PciFunction)
    requires k <= 8
    ensures f in OtherFunctions(space, bus, device, k) <==>
              f.bus == bus && f.device == device && k <= f.func < 8 && Vendor(space, f) != NO_VENDOR
    decreases 8 - k
  {
    if k < 8 {
      OtherFunctionsAdmit(space, bus, device, k + 1, f);
    }
  }

  /** One more function examined: it joins the found ones exactly when its vendor answers. */
  lemma {:induction false} OtherFunctionsStep(space: ConfigSpace, bus: u8, device: u8, k: nat, pushed: seq<PciFunction>)
    requires k < 8
    ensures var f := PciFunction(bus, device, k);
            (if Vendor(space, f) != NO_VENDOR then pushed + [f] else pushed) + OtherFunctions(space, bus, device, k + 1) ==
            pushed + OtherFunctions(space, bus, device, k)
  {
    var f := PciFunction(bus, device, k);
    if Vendor(space, f) != NO_VENDOR {
      assert (pushed + [f]) + OtherFunctions(space, bus, device, k + 1) == pushed + ([f] + OtherFunctions(space, bus, device, k + 1));
    }
  }

  /** The functions `check_device(bus, device)` admits, in the order it admits them. */
  function DeviceFunctions(space: ConfigSpace, bus: u8, device: u8): seq<PciFunction>
  {
    var f0 := PciFunction(bus, device, 0);
    if Vendor(space, f0) == NO_VENDOR then []
    else [f0] + (if HasMultipleFunctions(space, f0) then OtherFunctions(space, bus, device, 1) else [])
  }

  /**
    A function is admitted exactly when it belongs to the device, its
    vendor answers, and it is function 0 or function 0 answers and has the
    multi-function bit set.  Function 0 comes first.
   */
  lemma {:induction false} DeviceFunctionsAdmit(space: ConfigSpace, bus: u8, device: u8, f: PciFunction)
    ensures var f0 := PciFunction(bus, device, 0);
            f in DeviceFunctions(space, bus, device) <==>
              f.bus == bus && f.device == device && f.func < 8 && Vendor(space, f) != NO_VENDOR &&
              Vendor(space, f0) != NO_VENDOR && (f.func == 0 || HasMultipleFunctions(space, f0))
    ensures DeviceFunctions(space, bus, device) != [] ==> DeviceFunctions(space, bus, device)[0] == PciFunction(bus, device, 0)
  {
    OtherFunctionsAdmit(space, bus, device, 1, f);
  }

  /**
    `check_function(func)`: appends the function; a full list keeps its
    contents (the kernel logs an error).  A bridge's secondary bus is not
    scanned here.
   */
  function CheckFunction(functions: Functions, f: PciFunction): (r: Functions)
    requires functions.Valid()
    ensures r.Valid() && r.capacity == functions.capacity
    ensures |functions.items| < functions.capacity ==> r.items == functions.items + [f]
    ensures |functions.items| >= functions.capacity ==> r == functions
  {
    InplaceVectors.PushBack(functions, f).0
  }

  /** The first `room` of `xs` fit into a list with that much room. */
  function Fit(xs: seq<PciFunction>, room: nat): seq<PciFunction>
  {
    xs[..Min(|xs|, room)]
  }

  /** Checking one more function extends the fitted prefix by it, while there is room. */
  lemma {:induction false} CheckFunctionFits(functions: Functions, v: Functions, pushed: seq<PciFunction>, f: PciFunction)
    requires v.Valid() && functions.Valid() && functions.capacity == v.capacity
    requires functions.items == v.items + Fit(pushed, v.capacity - |v.items|)
    ensures CheckFunction(functions, f).items == v.items + Fit(pushed + [f], v.capacity - |v.items|)
  {
    var room := v.capacity - |v.items|;
    if |pushed| < room {
      assert Fit(pushed + [f], room) == pushed + [f];
    } else {
      assert Fit(pushed + [f], room) == Fit(pushed, room);
    }
  }

  /**
    `check_device(bus, device)`: function 0 if its vendor answers, then,
    if it has several functions, each of functions 1 to 7 that answers;
    as many as fit in the list.
   */
  method CheckDevice(space: ConfigSpace, functions: Functions, bus: u8, device: u8) returns (r: Functions)
    requires functions.Valid()
    ensures r.Valid() && r.capacity == functions.capacity
    ensures r.items == functions.items + Fit(DeviceFunctions(space, bus, device), functions.capacity - |functions.items|)
  {
    var room := functions.capacity - |functions.items|;
    var dev := PciFunction(bus, device, 0);
    if Vendor(space, dev) == NO_VENDOR {
      return functions;
    }
    CheckFunctionFits(functions, functions, [], dev);
    r := CheckFunction(functions, dev);
    ghost var pushed := [dev];
    if HasMultipleFunctions(space, dev) {
      var k := 1;
      while k < 8
        invariant 1 <= k <= 8
        invariant Scanned(space, functions, r, pushed, bus, device, k)
      {
        r, pushed := CheckOther(space, functions, r, pushed, bus, device, k);
        k := k + 1;
      }
    }
  }

  /**
    `check_device`'s loop, before function `k`: the list holds what fits of
    the functions already found, and the rest of the device's functions are
    those from `k` on.
   */
  ghost predicate Scanned(space: ConfigSpace, functions: Functions, r: Functions, pushed: seq<PciFunction>, bus: u8, device: u8, k: nat)
  {
    functions.Valid() && k <= 8 &&
    r.Valid() && r.capacity == functions.capacity &&
    r.items == functions.items + Fit(pushed, functions.capacity - |functions.items|) &&
    pushed + OtherFunctions(space, bus, device, k) == DeviceFunctions(space, bus, device)
  }

  /** One turn of `check_device`'s loop: function `k` goes in if its vendor answers. */
  method CheckOther(space: ConfigSpace, functions: Functions, r: Functions, ghost pushed: seq<PciFunction>, bus: u8, device: u8, k: nat)
    returns (r': Functions, ghost pushed': seq<PciFunction>)
    requires k < 8 && Scanned(space, functions, r, pushed, bus, device, k)
    ensures Scanned(space, functions, r', pushed', bus, device, k + 1)
  {
    var f := PciFunction(bus, device, k);
    OtherFunctionsStep(space, bus, device, k, pushed);
    if Vendor(space, f) != NO_VENDOR {
      CheckFunctionFits(r, functions, pushed, f);
      r' := CheckFunction(r, f);
      pushed' := pushed + [f];
    } else {
      r', pushed' := r, pushed;
    }
  }
}
