/**
  The page hooks under the kernel heap (memory/liballoc_hooks.cpp):
  `find_unused_region`, `liballoc_alloc`, `liballoc_free` and the lock
  hooks.

  The heap's virtual range is `[0x400000, 0x500000)`, 256 pages.  The page
  tables are a `PageMap` from virtual page address to what it is mapped
  to; `paging::map`, `paging::unmap` and `paging::is_mapped` (not part of
  this model) become an update, a removal and a membership test.  The
  frames come from the frame allocator, whose state is passed along.
 */
module HeapHooks {
  import opened Bits
  import opened KMath
  import opened Options
  import FrameAllocator

  const PAGE_SIZE: nat := 4096
  const HEAP_START: nat := 0x40_0000
  const HEAP_END: nat := 0x50_0000
  const HEAP_PAGES: nat := 256
  const WRAP32: nat := 0x1_0000_0000

  /** What a virtual page is mapped to: a physical frame, writable or not. */
  datatype Mapping = Mapping(frame: u32, writable: bool)

  type PageMap = map<nat, Mapping>

  /** The address of heap page `i`. */
  function PageAddr(i: nat): nat
  {
    HEAP_START + i * PAGE_SIZE
  }

  /** The address `k` pages after `start`. */
  function PageAt(start: nat, k: nat): nat
  {
    start + k * PAGE_SIZE
  }

  /** Heap pages `s` to `s + pages - 1` exist and none of them is mapped. */
  predicate HeapRun(mapped: set<nat>, s: nat, pages: nat)
  {
    s + pages <= HEAP_PAGES && forall k :: s <= k < s + pages ==> PageAddr(k) !in mapped
  }

  // ---------------------------------------------------------------------
  // find_unused_region

  /**
    The first heap page from `s` on that starts a run of `pages` unmapped
    pages; never one for `pages == 0`.
   */
  function FirstRunFrom(mapped: set<nat>, pages: nat, s: nat): (r: Option<nat>)
    ensures r.Some? ==> pages > 0 && s <= r.value && HeapRun(mapped, r.value, pages)
    ensures r.Some? ==> forall t :: s <= t < r.value ==> !HeapRun(mapped, t, pages)
    ensures r.None? ==> pages == 0 || forall t :: s <= t ==> !HeapRun(mapped, t, pages)
    decreases HEAP_PAGES - s
  {
    if pages == 0 || s + pages > HEAP_PAGES then None
    else if HeapRun(mapped, s, pages) then Some(s)
    else FirstRunFrom(mapped, pages, s + 1)
  }

  /** A first run is the one `FirstRunFrom` finds. */
  lemma {:induction false} FirstRunIs(mapped: set<nat>, pages: nat, s: nat)
    requires pages > 0 && HeapRun(mapped, s, pages)
    requires forall t :: 0 <= t < s ==> !HeapRun(mapped, t, pages)
    ensures FirstRunFrom(mapped, pages, 0) == Some(s)
  {
  }

  /**
    `find_unused_region(pages)`: walks the heap's pages upwards, counting
    the unmapped pages since the last mapped one, and returns the start of
    the run as soon as it is `pages` long.
   */
  method FindUnusedRegion(pages: u32, mapped: set<nat>) returns (r: Option<nat>)
    ensures r == if FirstRunFrom(mapped, pages, 0).Some? then Some(PageAddr(FirstRunFrom(mapped, pages, 0).value)) else None
  {
    var regionSize := (pages * PAGE_SIZE) % WRAP32;
    var contiguousFreePages := 0;
    var addr := HEAP_START;
    ghost var i := 0;
    while addr < HEAP_END
      invariant 0 <= i <= HEAP_PAGES && addr == PageAddr(i)
      invariant contiguousFreePages <= i && (pages > 0 ==> contiguousFreePages < pages)
      invariant forall k :: i - contiguousFreePages <= k < i ==> PageAddr(k) !in mapped
      invariant contiguousFreePages < i ==> PageAddr(i - contiguousFreePages - 1) in mapped
      invariant pages > 0 ==> forall t :: 0 <= t && t + pages <= i ==> !HeapRun(mapped, t, pages)
      decreases HEAP_END - addr
    {
      if addr in mapped {
        contiguousFreePages := 0;
        if pages > 0 {
          NoRunThrough(mapped, pages, i);
        }
        addr := addr + PAGE_SIZE;
        i := i + 1;
        continue;
      }
      contiguousFreePages := contiguousFreePages + 1;
      if contiguousFreePages == pages {
        var s := i + 1 - pages;
        assert HeapRun(mapped, s, pages);
        FirstRunIs(mapped, pages, s);
        DivUnique(pages * PAGE_SIZE, WRAP32, 0, pages * PAGE_SIZE);
        return Some(addr + PAGE_SIZE - regionSize);
      }
      if pages > 0 {
        NoRunEndingAt(mapped, pages, i, contiguousFreePages);
      }
      addr := addr + PAGE_SIZE;
      i := i + 1;
    }
    r := None;
  }

  /** No run contains a mapped page. */
  lemma {:induction false} NoRunThrough(mapped: set<nat>, pages: nat, i: nat)
    requires PageAddr(i) in mapped
    ensures forall t :: 0 <= t <= i < t + pages ==> !HeapRun(mapped, t, pages)
  {
  }

  /** A free stretch of `c < pages` pages ending at page `i`, after a mapped page or the heap's start, ends no run. */
  lemma {:induction false} NoRunEndingAt(mapped: set<nat>, pages: nat, i: nat, c: nat)
    requires 0 < c < pages && c <= i + 1
    requires c < i + 1 ==> PageAddr(i - c) in mapped
    ensures forall t :: 0 <= t && t + pages == i + 1 ==> !HeapRun(mapped, t, pages)
  {
  }

  /**
    What `find_unused_region` finds is page-aligned, inside the heap and
    unmapped page by page.
   */
  lemma {:induction false} UnusedRegionFits(pages: nat, mapped: set<nat>)
    requires FirstRunFrom(mapped, pages, 0).Some?
    ensures var start := PageAddr(FirstRunFrom(mapped, pages, 0).value);
            start % PAGE_SIZE == 0 && HEAP_START <= start && start + pages * PAGE_SIZE <= HEAP_END &&
            forall k :: 0 <= k < pages ==> PageAt(start, k) !in mapped
  {
    var s := FirstRunFrom(mapped, pages, 0).value;
    var start := PageAddr(s);
    DivUnique(start, PAGE_SIZE, 1024 + s, 0);
    MulMonotone(PAGE_SIZE, s + pages, HEAP_PAGES);
    forall k | 0 <= k < pages
      ensures PageAt(start, k) !in mapped
    {
      assert PageAt(start, k) == PageAddr(s + k);
    }
  }

  // ---------------------------------------------------------------------
  // liballoc_alloc and liballoc_free

  /** `n` pages from `start` mapped, writable, to consecutive frames from `frame0`. */
  function MapRun(m: PageMap, start: nat, frame0: nat, n: nat): (m': PageMap)
    requires frame0 + n * PAGE_SIZE <= WRAP32
    decreases n
  {
    if n == 0 then m
    else MapRun(m, start, frame0, n - 1)[PageAt(start, n - 1) := Mapping(frame0 + (n - 1) * PAGE_SIZE, true)]
  }

  /** The pages a run maps. */
  predicate InRun(start: nat, n: nat, v: nat)
  {
    start <= v < start + n * PAGE_SIZE && (v - start) % PAGE_SIZE == 0
  }

  /** A page of a run is one of its `n` pages. */
  lemma {:induction false} RunIndex(start: nat, n: nat, v: nat) returns (q: nat)
    requires InRun(start, n, v)
    ensures q < n && v == PageAt(start, q)
  {
    q := (v - start) / PAGE_SIZE;
    DivMod(v - start, PAGE_SIZE);
    if q >= n {
      MulMonotone(PAGE_SIZE, n, q);
    }
  }

  /**
    Mapping a run maps page `k` of it to frame `k`, keeps every other
    mapping, and maps nothing else.
   */
  lemma {:induction false} MapRunContents(m: PageMap, start: nat, frame0: nat, n: nat)
    requires frame0 + n * PAGE_SIZE <= WRAP32
    ensures forall k :: 0 <= k < n ==>
              PageAt(start, k) in MapRun(m, start, frame0, n) &&
              MapRun(m, start, frame0, n)[PageAt(start, k)] == Mapping(frame0 + k * PAGE_SIZE, true)
    ensures forall v :: v in m && !InRun(start, n, v) ==> v in MapRun(m, start, frame0, n) && MapRun(m, start, frame0, n)[v] == m[v]
    ensures forall v :: v in MapRun(m, start, frame0, n) ==> v in m || InRun(start, n, v)
    decreases n
  {
    if n > 0 {
      MapRunContents(m, start, frame0, n - 1);
      var v := PageAt(start, n - 1);
      DivUnique(v - start, PAGE_SIZE, n - 1, 0);
      forall k | 0 <= k < n - 1
        ensures PageAt(start, k) != v
      {
      }
      forall u | InRun(start, n - 1, u)
        ensures InRun(start, n, u)
      {
      }
      forall u: nat | InRun(start, n, u) && !InRun(start, n - 1, u)
        ensures u == v
      {
        var q := RunIndex(start, n, u);
        if q < n - 1 {
          DivUnique(u - start, PAGE_SIZE, q, 0);
        }
      }
    }
  }

  /** `liballoc_lock()`: there is nothing to lock, and it always reports success. */
  function Lock(): (r: int)
    ensures r == 0
  {
    0
  }

  /** `liballoc_unlock()`: likewise. */
  function Unlock(): (r: int)
    ensures r == 0
  {
    0
  }

  /**
    `liballoc_alloc(pages)`: finds a region and maps its pages one by one
    to fresh writable frames.  It returns null (0) when no region is
    found, and also when the frames run out, without unmapping the pages
    it mapped before that.
   */
  method Alloc(pages: u32, m: PageMap, a: FrameAllocator.Allocator)
    returns (r: nat, m': PageMap, a': FrameAllocator.Allocator)
    requires FrameAllocator.Valid(a)
    ensures FrameAllocator.Valid(a')
    ensures var found := FirstRunFrom(m.Keys, pages, 0);
            found.None? ==> r == 0 && m' == m && a' == a
    ensures var found := FirstRunFrom(m.Keys, pages, 0);
            found.Some? ==>
              var start := PageAddr(found.value);
              var n := Min(pages, a.capacity - a.count);
              a' == a.(count := a.count + n) &&
              m' == MapRun(m, start, a.firstFrame + a.count * PAGE_SIZE, n) &&
              r == (if pages <= a.capacity - a.count then start else 0)
  {
    var regionSize := (pages * PAGE_SIZE) % WRAP32;
    var maybeRegion := FindUnusedRegion(pages, m.Keys);
    if maybeRegion.None? {
      return 0, m, a;
    }
    var region := maybeRegion.value;
    DivUnique(pages * PAGE_SIZE, WRAP32, 0, pages * PAGE_SIZE);
    m', a' := m, a;
    var frame0 := a.firstFrame + a.count * PAGE_SIZE;
    var offset := 0;
    ghost var k := 0;
    while offset < regionSize
      invariant 0 <= k <= pages && offset == k * PAGE_SIZE && regionSize == pages * PAGE_SIZE
      invariant a.count + k <= a.capacity && a' == a.(count := a.count + k)
      invariant m' == MapRun(m, region, frame0, k)
      decreases regionSize - offset
    {
      var (next, maybeFrame) := FrameAllocator.AllocateFrame(a');
      if maybeFrame.None? {
        return 0, m', a';
      }
      m' := m'[region + offset := Mapping(maybeFrame.value, true)];
      a' := next;
      offset := offset + PAGE_SIZE;
      k := k + 1;
    }
    r := region;
  }

  /** The pages `liballoc_free(start, pages)` unmaps: `start + i * PAGE_SIZE` in `size_t`, for `i < pages`. */
  function FreedPages(start: nat, pages: nat): set<nat>
  {
    set i | 0 <= i < pages :: (start + i * PAGE_SIZE) % WRAP32
  }

  /** `liballoc_free(start, pages)`: unmaps each of the pages and reports success. */
  method Free(start: u32, pages: u32, m: PageMap) returns (r: int, m': PageMap)
    ensures r == 0
    ensures m' == m - FreedPages(start, pages)
  {
    m' := m;
    var i := 0;
    while i < pages
      invariant 0 <= i <= pages
      invariant m' == m - FreedPages(start, i)
    {
      FreedPagesStep(start, i);
      m' := m' - {(start + i * PAGE_SIZE) % WRAP32};
      i := i + 1;
    }
    r := 0;
  }

  lemma {:induction false} FreedPagesStep(start: nat, i: nat)
    ensures FreedPages(start, i + 1) == FreedPages(start, i) + {(start + i * PAGE_SIZE) % WRAP32}
  {
  }

  /** Without wrap-around, the pages `liballoc_free` unmaps are exactly those of the run. */
  lemma {:induction false} FreedPagesAreRun(start: nat, pages: nat)
    requires start + pages * PAGE_SIZE <= WRAP32
    ensures forall v :: v in FreedPages(start, pages) <==> InRun(start, pages, v)
  {
    forall v | v in FreedPages(start, pages)
      ensures InRun(start, pages, v)
    {
      var i :| 0 <= i < pages && v == (start + i * PAGE_SIZE) % WRAP32;
      MulMonotone(PAGE_SIZE, i + 1, pages);
      DivUnique(start + i * PAGE_SIZE, WRAP32, 0, start + i * PAGE_SIZE);
      DivUnique(v - start, PAGE_SIZE, i, 0);
    }
    forall v: nat | InRun(start, pages, v)
      ensures v in FreedPages(start, pages)
    {
      var q := RunIndex(start, pages, v);
      MulMonotone(PAGE_SIZE, q + 1, pages);
      DivUnique(start + q * PAGE_SIZE, WRAP32, 0, start + q * PAGE_SIZE);
    }
  }

  /**
    Freeing a run `liballoc_alloc` has just mapped, with its page count,
    gives the page tables back as they were.
   */
  lemma {:induction false} FreeUndoesAlloc(m: PageMap, start: nat, frame0: nat, pages: nat)
    requires frame0 + pages * PAGE_SIZE <= WRAP32 && start + pages * PAGE_SIZE <= WRAP32
    requires forall k :: 0 <= k < pages ==> PageAt(start, k) !in m
    ensures MapRun(m, start, frame0, pages) - FreedPages(start, pages) == m
  {
    var mapped := MapRun(m, start, frame0, pages);
    MapRunContents(m, start, frame0, pages);
    FreedPagesAreRun(start, pages);
    forall v: nat | InRun(start, pages, v)
      ensures v !in m
    {
      var q := RunIndex(start, pages, v);
    }
  }
}
