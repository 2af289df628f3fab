/**
  The physical frame allocator (memory/frame_allocator.cpp): a bump
  allocator over the first usable region of the multiboot memory map.

  `size_t` and `PhysAddr` are 32 bits wide on i386, so every sum and
  product in `size_t` wraps modulo `2^32`; the memory map's addresses and
  lengths are 64-bit.  The allocator's three globals are one `Allocator`
  value that each operation returns updated.
 */
module FrameAllocator {
  import opened Bits
  import opened KMath
  import opened Options

  const PAGE_SIZE: nat := 4096

  /** `MAX_ADDRESS`: the allocator stays below 4 GiB. */
  const MAX_ADDRESS: u32 := 0xffff_ffff

  /** `MULTIBOOT_MEMORY_AVAILABLE`, the memory-map type of usable RAM. */
  const MULTIBOOT_MEMORY_AVAILABLE: u32 := 1

  /** Bit 6 of the multiboot flags: `mmap_addr` and `mmap_length` are valid. */
  const MULTIBOOT_FLAG_MMAP: nat := 6

  const WRAP32: nat := 0x1_0000_0000
  const WRAP64: nat := 0x1_0000_0000_0000_0000

  /** `MemoryRegion`: `length` bytes from `start`. */
  datatype MemoryRegion = MemoryRegion(start: u32, length: u32)

  /** The region's end, `start + length`, does not wrap past `2^32`. */
  predicate NoWrap(r: MemoryRegion)
  {
    r.start + r.length < WRAP32
  }

  /** Whether the byte at `addr` lies in the region. */
  predicate Contains(r: MemoryRegion, addr: int)
  {
    r.start <= addr < r.start + r.length
  }

  // ---------------------------------------------------------------------
  // MemoryRegion::clamp

  /**
    `clamp(bounds)`: the later start, and the length up to the earlier end
    (0 when that end is not after the start).  The ends are `size_t` sums.
   */
  function Clamp(r: MemoryRegion, bounds: MemoryRegion): (c: MemoryRegion)
    ensures c.start == Max(r.start, bounds.start)
    ensures c.length > 0 ==>
              c.start + c.length == Min((r.start + r.length) % WRAP32, (bounds.start + bounds.length) % WRAP32)
    ensures c.length == 0 <==>
              Min((r.start + r.length) % WRAP32, (bounds.start + bounds.length) % WRAP32) <= c.start
  {
    var newEnd := Min((r.start + r.length) % WRAP32, (bounds.start + bounds.length) % WRAP32);
    var start := Max(r.start, bounds.start);
    MemoryRegion(start, if newEnd > start then newEnd - start else 0)
  }

  /**
    Without wrap-around the clamped region is the intersection: it holds
    exactly the addresses that lie in both regions.
   */
  lemma {:induction false} ClampIsIntersection(r: MemoryRegion, bounds: MemoryRegion, addr: int)
    requires NoWrap(r) && NoWrap(bounds)
    ensures Contains(Clamp(r, bounds), addr) <==> Contains(r, addr) && Contains(bounds, addr)
  {
    DivUnique(r.start + r.length, WRAP32, 0, r.start + r.length);
    DivUnique(bounds.start + bounds.length, WRAP32, 0, bounds.start + bounds.length);
  }

  /** A non-empty clamped region lies within the bounds, whatever the region was. */
  lemma {:induction false} ClampWithinBounds(r: MemoryRegion, bounds: MemoryRegion)
    requires NoWrap(bounds)
    ensures var c := Clamp(r, bounds);
            c.length > 0 ==> bounds.start <= c.start && c.start + c.length <= bounds.start + bounds.length
  {
    DivUnique(bounds.start + bounds.length, WRAP32, 0, bounds.start + bounds.length);
  }

  // ---------------------------------------------------------------------
  // init

  /** `multiboot_memory_map_t`: a 64-bit address and length and a type. */
  datatype MmapEntry = MmapEntry(addr: u64, len: u64, kind: u32)

  /** The allocator's globals: `first_frame`, `frame_capacity`, `frame_count`. */
  datatype Allocator = Allocator(firstFrame: u32, capacity: u32, count: u32)

  /** Why `init` panics. */
  datatype InitError = InvalidMemoryMap | NoAvailableMemory

  datatype InitResult = Ready(allocator: Allocator) | Panic(error: InitError)

  /** The region above the kernel: `{ kernel_end, MAX_ADDRESS - kernel_end }`. */
  function AvailableAbove(kernelEnd: u32): (r: MemoryRegion)
    ensures NoWrap(r) && r.start + r.length == MAX_ADDRESS
  {
    MemoryRegion(kernelEnd, MAX_ADDRESS - kernelEnd)
  }

  /**
    The entry's range as `init` takes it: from its address, cut at
    `MAX_ADDRESS` when its (64-bit) end lies above it, and otherwise with
    its length cast to `size_t`.
   */
  function CutRegion(e: MmapEntry): (r: MemoryRegion)
    requires e.addr <= MAX_ADDRESS
    ensures r.start == e.addr
  {
    var regionEnd := (e.addr + e.len) % WRAP64;
    var regionLen: u32 := if regionEnd > MAX_ADDRESS then MAX_ADDRESS - e.addr else e.len % WRAP32;
    MemoryRegion(e.addr, regionLen)
  }

  /** Unless the 64-bit end wraps, the cut range is the entry's range below `MAX_ADDRESS`. */
  lemma {:induction false} CutRegionContains(e: MmapEntry, addr: int)
    requires e.addr <= MAX_ADDRESS && e.addr + e.len < WRAP64
    ensures NoWrap(CutRegion(e))
    ensures Contains(CutRegion(e), addr) <==> e.addr <= addr < e.addr + e.len && addr < MAX_ADDRESS
  {
    DivUnique(e.addr + e.len, WRAP64, 0, e.addr + e.len);
    if e.addr + e.len <= MAX_ADDRESS {
      DivUnique(e.len, WRAP32, 0, e.len);
    }
  }

  /**
    One turn of the memory-map loop: nothing for a region that is not
    available RAM or starts above 4 GiB; otherwise the cut range clamped
    to `available`, if that is not empty.
   */
  function UsableRegion(e: MmapEntry, available: MemoryRegion): (c: Option<MemoryRegion>)
    ensures c.Some? ==> c.value.length > 0 && e.kind == MULTIBOOT_MEMORY_AVAILABLE && e.addr <= MAX_ADDRESS
    ensures c.Some? ==> c.value.start == Max(e.addr, available.start)
  {
    if e.kind != MULTIBOOT_MEMORY_AVAILABLE then None
    else if e.addr > MAX_ADDRESS then None
    else
      var current := Clamp(CutRegion(e), available);
      if current.length == 0 then None else Some(current)
  }

  /**
    A usable region lies within the available region and contains exactly
    those addresses of the entry's range, cut at `MAX_ADDRESS`, that are
    also available.
   */
  lemma {:induction false} UsableRegionIsAvailable(e: MmapEntry, available: MemoryRegion, addr: int)
    requires NoWrap(available) && e.addr + e.len < WRAP64
    requires UsableRegion(e, available).Some?
    ensures var c := UsableRegion(e, available).value;
            available.start <= c.start && c.start + c.length <= available.start + available.length &&
            (Contains(c, addr) <==> e.addr <= addr < e.addr + e.len && addr < MAX_ADDRESS && Contains(available, addr))
  {
    CutRegionContains(e, addr);
    ClampIsIntersection(CutRegion(e), available, addr);
    ClampWithinBounds(CutRegion(e), available);
  }

  /** The index of the first usable entry of the memory map, if any. */
  function FirstUsable(mmap: seq<MmapEntry>, available: MemoryRegion): (k: nat)
    ensures k <= |mmap|
    ensures k < |mmap| ==> UsableRegion(mmap[k], available).Some?
    ensures forall j :: 0 <= j < k ==> UsableRegion(mmap[j], available).None?
  {
    if |mmap| == 0 then 0
    else if UsableRegion(mmap[0], available).Some? then 0
    else
      var k := 1 + FirstUsable(mmap[1..], available);
      assert forall j :: 1 <= j < k ==> mmap[j] == mmap[1..][j - 1];
      k
  }

  /** The allocator over one usable region: its whole pages, none handed out yet. */
  function AllocatorFor(c: MemoryRegion): (a: Allocator)
    ensures a.firstFrame == c.start && a.count == 0
    ensures a.capacity * PAGE_SIZE <= c.length < (a.capacity + 1) * PAGE_SIZE
  {
    Allocator(c.start, c.length / PAGE_SIZE, 0)
  }

  /**
    `init(info)`: panics unless the flags say the memory map is valid;
    otherwise uses the first entry that leaves a non-empty region above the
    kernel, and panics if there is none.
   */
  method Init(flags: u32, kernelEnd: u32, mmap: seq<MmapEntry>) returns (r: InitResult)
    ensures !Bit(flags, MULTIBOOT_FLAG_MMAP) ==> r == Panic(InvalidMemoryMap)
    ensures Bit(flags, MULTIBOOT_FLAG_MMAP) ==>
              var k := FirstUsable(mmap, AvailableAbove(kernelEnd));
              if k == |mmap| then r == Panic(NoAvailableMemory)
              else r == Ready(AllocatorFor(UsableRegion(mmap[k], AvailableAbove(kernelEnd)).value))
  {
    if !GetBit(flags, MULTIBOOT_FLAG_MMAP) {
      return Panic(InvalidMemoryMap);
    }
    var available := AvailableAbove(kernelEnd);
    var i := 0;
    while i < |mmap|
      invariant 0 <= i <= |mmap|
      invariant forall j :: 0 <= j < i ==> UsableRegion(mmap[j], available).None?
    {
      var current := UsableRegion(mmap[i], available);
      if current.Some? {
        FirstUsableIs(mmap, available, i);
        return Ready(AllocatorFor(current.value));
      }
      i := i + 1;
    }
    FirstUsableIs(mmap, available, |mmap|);
    r := Panic(NoAvailableMemory);
  }

  lemma {:induction false} FirstUsableIs(mmap: seq<MmapEntry>, available: MemoryRegion, k: nat)
    requires k <= |mmap|
    requires k < |mmap| ==> UsableRegion(mmap[k], available).Some?
    requires forall j :: 0 <= j < k ==> UsableRegion(mmap[j], available).None?
    ensures FirstUsable(mmap, available) == k
  {
  }

  // ---------------------------------------------------------------------
  // The allocator

  /**
    The frames still to be handed out fit below 4 GiB, and no more have
    been handed out than there are.
   */
  predicate Valid(a: Allocator)
  {
    a.count <= a.capacity && a.firstFrame + a.capacity * PAGE_SIZE < WRAP32
  }

  /** Every allocator `init` sets up is valid. */
  lemma {:induction false} InitValid(flags: u32, kernelEnd: u32, mmap: seq<MmapEntry>, r: InitResult)
    requires Bit(flags, MULTIBOOT_FLAG_MMAP)
    requires var k := FirstUsable(mmap, AvailableAbove(kernelEnd));
             k < |mmap| && r == Ready(AllocatorFor(UsableRegion(mmap[k], AvailableAbove(kernelEnd)).value))
    ensures Valid(r.allocator)
  {
    var available := AvailableAbove(kernelEnd);
    var c := UsableRegion(mmap[FirstUsable(mmap, available)], available).value;
    assert c.start + c.length <= MAX_ADDRESS;
  }

  /** `get_total_memory()`: `frame_capacity * PAGE_SIZE` in `size_t`. */
  function TotalMemory(a: Allocator): (n: u32)
    ensures Valid(a) ==> n == a.capacity * PAGE_SIZE
  {
    if Valid(a) then
      DivUnique(a.capacity * PAGE_SIZE, WRAP32, 0, a.capacity * PAGE_SIZE);
      (a.capacity * PAGE_SIZE) % WRAP32
    else
      (a.capacity * PAGE_SIZE) % WRAP32
  }

  /** `get_available_memory()`: `(frame_capacity - frame_count) * PAGE_SIZE` in `size_t`. */
  function AvailableMemory(a: Allocator): (n: u32)
    ensures Valid(a) ==> n == (a.capacity - a.count) * PAGE_SIZE
  {
    var frames := (a.capacity - a.count) % WRAP32;
    if Valid(a) then
      DivUnique(a.capacity - a.count, WRAP32, 0, a.capacity - a.count);
      DivUnique(frames * PAGE_SIZE, WRAP32, 0, frames * PAGE_SIZE);
      (frames * PAGE_SIZE) % WRAP32
    else
      (frames * PAGE_SIZE) % WRAP32
  }

  /**
    `allocate_frame()`: nothing, and no change, once every frame is handed
    out; otherwise the next frame, `first_frame + frame_count * PAGE_SIZE`.
   */
  function AllocateFrame(a: Allocator): (r: (Allocator, Option<u32>))
    requires Valid(a)
    ensures Valid(r.0)
    ensures a.count >= a.capacity ==> r == (a, None)
    ensures a.count < a.capacity ==>
              r.0 == a.(count := a.count + 1) && r.1 == Some(a.firstFrame + a.count * PAGE_SIZE)
  {
    if a.count >= a.capacity then (a, None)
    else
      var frame := (a.firstFrame + a.count * PAGE_SIZE) % WRAP32;
      (a.(count := a.count + 1), Some(frame))
  }

  /** A handed-out frame is a whole page of the allocator's region. */
  lemma {:induction false} FrameInRegion(a: Allocator)
    requires Valid(a) && a.count < a.capacity
    ensures var f := AllocateFrame(a).1.value;
            a.firstFrame <= f && f + PAGE_SIZE <= a.firstFrame + a.capacity * PAGE_SIZE &&
            (f - a.firstFrame) % PAGE_SIZE == 0
  {
    var f := AllocateFrame(a).1.value;
    DivUnique(f - a.firstFrame, PAGE_SIZE, a.count, 0);
  }

  /** A successful allocation takes one page off the available memory and leaves the total alone. */
  lemma {:induction false} AllocateFrameCounters(a: Allocator)
    requires Valid(a)
    ensures var b := AllocateFrame(a).0;
            TotalMemory(b) == TotalMemory(a) &&
            (AllocateFrame(a).1.Some? ==> AvailableMemory(b) + PAGE_SIZE == AvailableMemory(a)) &&
            (AllocateFrame(a).1.None? ==> AvailableMemory(b) == AvailableMemory(a) == 0)
  {
  }

  /** `n` calls of `allocate_frame()` in a row: the allocator after them and what each returned. */
  function AllocateMany(a: Allocator, n: nat): (r: (Allocator, seq<Option<u32>>))
    requires Valid(a)
    ensures Valid(r.0) && |r.1| == n
    decreases n
  {
    if n == 0 then (a, [])
    else
      var (b, f) := AllocateFrame(a);
      var (c, fs) := AllocateMany(b, n - 1);
      (c, [f] + fs)
  }

  /**
    Call `k` of a run of allocations returns frame `count + k` of the
    region while there is one, and nothing after that.
   */
  lemma {:induction false} AllocateManyFrames(a: Allocator, n: nat, k: nat)
    requires Valid(a) && k < n
    ensures AllocateMany(a, n).1[k] ==
              if a.count + k < a.capacity then Some(a.firstFrame + (a.count + k) * PAGE_SIZE) else None
    decreases n
  {
    var b := AllocateFrame(a).0;
    if k > 0 {
      AllocateManyFrames(b, n - 1, k - 1);
      if a.count >= a.capacity {
        assert b == a;
      }
    }
  }

  /**
    The frames of a run of allocations are distinct: any two that were
    handed out lie whole pages apart, in the order they were handed out.
   */
  lemma {:induction false} FramesDistinct(a: Allocator, n: nat, i: nat, j: nat)
    requires Valid(a) && i < j < n
    requires AllocateMany(a, n).1[j].Some?
    ensures AllocateMany(a, n).1[i].Some?
    ensures AllocateMany(a, n).1[i].value + (j - i) * PAGE_SIZE == AllocateMany(a, n).1[j].value
  {
    AllocateManyFrames(a, n, i);
    AllocateManyFrames(a, n, j);
  }
}
