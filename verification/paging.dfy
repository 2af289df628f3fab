/**
  32-bit paging without PAE (arch/i386/paging.cpp): the page-table entry
  encoding, page tables of 1024 entries, and `init`, which identity-maps
  the first 4 MiB through one page table.

  An entry is the frame's address with its low 12 bits cleared, then bit 0
  (present) and, for a writable page, bit 1 (read/write); this is the
  4-KByte page-table entry of section 4.3 of the Intel 64 and IA-32
  Architectures Software Developer's Manual, Volume 3A.  Loading CR3 and
  setting CR0.PG are left out; tables are values and the allocator state
  is passed along.
 */
module Paging {
  import opened Bits
  import opened Options
  import FrameAllocator

  const PAGE_SIZE: nat := 4096
  const ENTRIES: nat := 1024
  /** `0xfffff000`: the bits of an entry that hold the frame's address. */
  const FRAME_MASK: nat := 0xffff_f000

  datatype PageTableEntry = PageTableEntry(inner: u32)

  /** A default-constructed entry: `inner` is 0. */
  const UNUSED_ENTRY: PageTableEntry := PageTableEntry(0)

  /** Bit 0 of an entry. */
  predicate Present(e: PageTableEntry)
  {
    Bit(e.inner, 0)
  }

  /** Bit 1 of an entry. */
  predicate Writable(e: PageTableEntry)
  {
    Bit(e.inner, 1)
  }

  /** The frame an entry points to: its bits 12 to 31. */
  function FrameOf(e: PageTableEntry): (f: nat)
    ensures f == e.inner - e.inner % PAGE_SIZE
  {
    Pow2Values();
    assert FRAME_MASK == HighMask(32, 12);
    AndHighMask(e.inner, 32, 12);
    And(e.inner, FRAME_MASK)
  }

  /**
    `PageTableEntry::map(addr, writeEnabled)`: keeps the page-aligned part
    of `addr`, then sets bit 0 and, when writable, bit 1.
   */
  function Map(addr: u32, writable: bool): (e: PageTableEntry)
    ensures e.inner == addr - addr % PAGE_SIZE + 1 + (if writable then 2 else 0)
  {
    var desc := FrameBits(addr);
    var present := SetPresent(desc);
    PageTableEntry(if writable then SetWritable(present) else present)
  }

  /** `addr & 0xfffff000`. */
  function FrameBits(addr: u32): (d: nat)
    ensures d == addr - addr % PAGE_SIZE && d % PAGE_SIZE == 0 && d < 0x1_0000_0000
  {
    Pow2Values();
    assert FRAME_MASK == HighMask(32, 12);
    AndHighMask(addr, 32, 12);
    DivMod(addr, PAGE_SIZE);
    DivUnique(And(addr, FRAME_MASK), PAGE_SIZE, addr / PAGE_SIZE, 0);
    And(addr, FRAME_MASK)
  }

  /** `set_bit(desc, 0)` on a page-aligned 32-bit value adds 1. */
  function SetPresent(desc: nat): (d: nat)
    requires desc % PAGE_SIZE == 0 && desc < 0x1_0000_0000
    ensures d == desc + 1 && d % 4 == 1 && d < 0x1_0000_0000
  {
    Pow2Values();
    assert Pow2(0) == 1;
    var pages := desc / PAGE_SIZE;
    DivMod(desc, PAGE_SIZE);
    DivUnique(desc, 2, 2048 * pages, 0);
    DivUnique(desc + 1, 4, 1024 * pages, 1);
    BitZeroIndex(desc);
    SetBitAdds(desc, 0, 32);
    SetBit(desc, 0, 32)
  }

  /** `set_bit(desc, 1)` on a value whose low two bits are `01` adds 2. */
  function SetWritable(desc: nat): (d: nat)
    requires desc % 4 == 1 && desc < 0x1_0000_0000
    ensures d == desc + 2 && d < 0x1_0000_0000
  {
    Pow2Values();
    BitIsDiv(desc, 1);
    DivUnique(desc / 2, 2, desc / 4, 0);
    SetBitAdds(desc, 1, 32);
    SetBit(desc, 1, 32)
  }

  /** `PageTableEntry::unmap()`: the entry becomes 0. */
  function Unmap(e: PageTableEntry): (r: PageTableEntry)
    ensures !Present(r) && FrameOf(r) == 0
  {
    BitOfZero(0);
    UNUSED_ENTRY
  }

  /** `PageTableEntry::is_unused()`: bit 0 is clear. */
  function IsUnused(e: PageTableEntry): (r: bool)
    ensures r == !Present(e)
    ensures r == (e.inner % 2 == 0)
  {
    BitZeroIndex(e.inner);
    !GetBit(e.inner, 0)
  }

  /** The value `map` stores, split at bit 12 and at bit 1. */
  lemma {:induction false} MapValueSplit(addr: u32, writable: bool)
    ensures var q := addr / PAGE_SIZE;
            var b := if writable then 1 else 0;
            var v := Map(addr, writable).inner;
            v / PAGE_SIZE == q && v % PAGE_SIZE == 1 + 2 * b &&
            v / 2 == 2048 * q + b && v % 2 == 1
  {
    var q := addr / PAGE_SIZE;
    var b := if writable then 1 else 0;
    var v := Map(addr, writable).inner;
    DivMod(addr, PAGE_SIZE);
    DivUnique(v, PAGE_SIZE, q, 1 + 2 * b);
    DivUnique(v, 2, 2048 * q + b, 1);
  }

  /**
    A mapped entry is in use, points at the page-aligned part of the
    address, and is writable exactly when asked.
   */
  lemma {:induction false} MapThenQuery(addr: u32, writable: bool)
    ensures !IsUnused(Map(addr, writable))
    ensures FrameOf(Map(addr, writable)) == addr - addr % PAGE_SIZE
    ensures addr % PAGE_SIZE == 0 ==> FrameOf(Map(addr, writable)) == addr
    ensures Writable(Map(addr, writable)) == writable
  {
    var v := Map(addr, writable).inner;
    var q := addr / PAGE_SIZE;
    var b := if writable then 1 else 0;
    MapValueSplit(addr, writable);
    Pow2Values();
    BitIsDiv(v, 1);
    DivUnique(2048 * q + b, 2, 1024 * q, b);
  }

  /** An unmapped entry, like a default one, is unused. */
  lemma {:induction false} UnmapThenQuery(e: PageTableEntry)
    ensures IsUnused(Unmap(e)) && IsUnused(UNUSED_ENTRY)
  {
  }

  /** A page table or directory: 1024 entries. */
  type Table = t: seq<PageTableEntry> | |t| == ENTRIES witness seq(ENTRIES, _ => UNUSED_ENTRY)

  /** A freshly constructed `PageTable`: every entry unused. */
  const EMPTY_TABLE: Table := seq(ENTRIES, _ => UNUSED_ENTRY)

  /** Why `PageTable::allocate` panics. */
  datatype TableError =
    | OutOfFrames    // no frame left for the table
    | Misaligned     // the frame is not page-aligned: the constructor's ASSERT fails

  /** A table's frame and the allocator after taking it, or why `allocate` panicked. */
  datatype Allocated = Allocated(next: FrameAllocator.Allocator, addr: u32) | TablePanic(error: TableError)

  /**
    `PageTable::allocate()`: takes a frame from the frame allocator and
    constructs an empty table in it, which asserts that the frame is
    page-aligned.
   */
  function AllocateTable(a: FrameAllocator.Allocator): (r: Allocated)
    requires FrameAllocator.Valid(a)
    ensures a.count >= a.capacity ==> r == TablePanic(OutOfFrames)
    ensures a.count < a.capacity ==>
              var frame := a.firstFrame + a.count * PAGE_SIZE;
              if frame % PAGE_SIZE == 0 then r == Allocated(a.(count := a.count + 1), frame) else r == TablePanic(Misaligned)
    ensures r.Allocated? ==> FrameAllocator.Valid(r.next)
  {
    var (next, frame) := FrameAllocator.AllocateFrame(a);
    if frame.None? then TablePanic(OutOfFrames)
    else if frame.value % PAGE_SIZE != 0 then TablePanic(Misaligned)
    else Allocated(next, frame.value)
  }

  /** What `init` sets up: the directory and the kernel's page table, and where each lives. */
  datatype Paged = Paged(
    allocator: FrameAllocator.Allocator,
    directoryAddr: u32,
    directory: Table,
    kernelTableAddr: u32,
    kernelTable: Table)

  /** Entry `i` of the kernel table maps the page at `i * 4 KiB` to itself. */
  predicate IdentityEntry(t: Table, i: nat)
    requires i < ENTRIES
  {
    t[i] == Map(i * PAGE_SIZE, true)
  }

  /** The entry `init` writes at index `i` of the kernel table. */
  method IdentityEntryAt(i: nat) returns (e: PageTableEntry)
    requires i < ENTRIES
    ensures e == Map(i * PAGE_SIZE, true)
  {
    e := Map(i * 0x1000, true);
  }

  /** Writing entry `i` extends the identity-mapped prefix by one. */
  lemma {:induction false} IdentityStep(t: Table, i: nat, u: Table)
    requires i < ENTRIES && u == t[i := Map(i * PAGE_SIZE, true)]
    requires forall j :: 0 <= j < i ==> IdentityEntry(t, j)
    ensures forall j :: 0 <= j < i + 1 ==> IdentityEntry(u, j)
  {
    forall j | 0 <= j < i + 1
      ensures IdentityEntry(u, j)
    {
      if j < i {
        assert IdentityEntry(t, j);
      }
    }
  }

  /** Fills the kernel page table: entry `i` maps physical `i * 0x1000`, writable. */
  method IdentityTable() returns (t: Table)
    ensures forall i :: 0 <= i < ENTRIES ==> IdentityEntry(t, i)
  {
    t := EMPTY_TABLE;
    var i := 0;
    while i < ENTRIES
      invariant 0 <= i <= ENTRIES
      invariant forall j :: 0 <= j < i ==> IdentityEntry(t, j)
    {
      var e := IdentityEntryAt(i);
      IdentityStep(t, i, t[i := e]);
      t := t[i := e];
      i := i + 1;
    }
  }

  datatype InitResult = Ready(paged: Paged) | Panic(error: TableError)

  /**
    `paging::init()`: allocates the directory and then the kernel table,
    identity-maps the first 4 MiB in the table and points directory entry
    0 at it, writable.  Either allocation can panic.
   */
  method Init(a: FrameAllocator.Allocator) returns (r: InitResult)
    requires FrameAllocator.Valid(a)
    ensures AllocateTable(a).TablePanic? ==> r == Panic(AllocateTable(a).error)
    ensures AllocateTable(a).Allocated? && AllocateTable(AllocateTable(a).next).TablePanic? ==>
              r == Panic(AllocateTable(AllocateTable(a).next).error)
    ensures AllocateTable(a).Allocated? && AllocateTable(AllocateTable(a).next).Allocated? ==> r.Ready?
    ensures r.Ready? ==>
              var p := r.paged;
              AllocateTable(a) == Allocated(a.(count := a.count + 1), p.directoryAddr) &&
              AllocateTable(AllocateTable(a).next) == Allocated(p.allocator, p.kernelTableAddr) &&
              (forall i :: 0 <= i < ENTRIES ==> IdentityEntry(p.kernelTable, i)) &&
              p.directory == EMPTY_TABLE[0 := Map(p.kernelTableAddr, true)]
  {
    var first := AllocateTable(a);
    if first.TablePanic? {
      return Panic(first.error);
    }
    var second := AllocateTable(first.next);
    if second.TablePanic? {
      return Panic(second.error);
    }
    var directoryAddr, afterTable, kernelTableAddr := first.addr, second.next, second.addr;
    var kernelTable := IdentityTable();
    var directory := EMPTY_TABLE[0 := Map(kernelTableAddr, true)];
    r := Ready(Paged(afterTable, directoryAddr, directory, kernelTableAddr, kernelTable));
  }

  /**
    Through the table `init` builds, every address below 4 MiB translates
    to itself: its page's entry is present and writable, and the entry's
    frame plus the offset in the page is the address.  Directory entry 0
    (the one for those addresses) points at that table.
   */
  lemma {:induction false} InitIdentityMaps(p: Paged, v: nat)
    requires forall i :: 0 <= i < ENTRIES ==> IdentityEntry(p.kernelTable, i)
    requires p.directory == EMPTY_TABLE[0 := Map(p.kernelTableAddr, true)]
    requires p.kernelTableAddr % PAGE_SIZE == 0
    requires v < ENTRIES * PAGE_SIZE
    ensures v / (ENTRIES * PAGE_SIZE) == 0
    ensures Present(p.directory[0]) && FrameOf(p.directory[0]) == p.kernelTableAddr
    ensures var e := p.kernelTable[v / PAGE_SIZE];
            Present(e) && Writable(e) && FrameOf(e) + v % PAGE_SIZE == v
  {
    DivUnique(v, ENTRIES * PAGE_SIZE, 0, v);
    MapThenQuery(p.kernelTableAddr, true);
    var i := v / PAGE_SIZE;
    DivMod(v, PAGE_SIZE);
    assert i < ENTRIES;
    assert IdentityEntry(p.kernelTable, i);
    MapThenQuery(i * PAGE_SIZE, true);
    DivUnique(i * PAGE_SIZE, PAGE_SIZE, i, 0);
  }

  /** Every other directory entry stays unused. */
  lemma {:induction false} InitLeavesDirectory(p: Paged, i: nat)
    requires p.directory == EMPTY_TABLE[0 := Map(p.kernelTableAddr, true)]
    requires 0 < i < ENTRIES
    ensures IsUnused(p.directory[i])
  {
    UnmapThenQuery(UNUSED_ENTRY);
  }
}
