# A verified model of the los kernel core

This project models the core of the los hobby kernel for 32-bit x86 in Dafny and proves properties of that model.

**Utilities**
- bit manipulation (`util/bits.h`), enum flags, `min` and `max`, and `memcmp`;
- the two `Option` templates;
- `StringView`, `Vector` and `InplaceVector`;
- compile-time checked format strings with `print` and `println`.

**Memory**
- the physical frame allocator;
- the liballoc page hooks that back the kernel heap;
- 32-bit paging with its identity-mapped first 4 MiB.

**Descriptor tables**
- the global descriptor table (GDT);
- the interrupt descriptor table (IDT).

**Devices and file system**
- the PCI configuration-space readers and the device scan;
- the PIO IDE driver: polling, sector transfer, addressing, identification and probing;
- the FAT boot-record, directory-entry and geometry code.

**Modelling conventions**
- Fixed-width integers are subset types of `int` (`u8` … `u64`, module `Bits`).
- `&`, `|` and `^` are recursive functions on naturals. A small bit library relates them to `Bit(x, i)`.
- Wrap-around is written out wherever the source's arithmetic can overflow.
- Hardware is a parameter. This covers status bytes, identify words, data words, the PCI configuration space and the multiboot memory map.
- A busy-wait loop is represented by the status it stopped on.
- Packed structures are byte layouts. `Layouts` holds a generic little-endian codec and `FatLayouts` holds the FAT field lists.
- Operations that mutate kernel state are functions or methods that return the new state.

The headers `arch/i386/gdt.h` and `arch/i386/idt.hpp` are not part of this model. The descriptor constants they declare are taken from the Intel 64 and IA-32 Architectures Software Developer's Manual, Volume 3A:
- section 3.4.5 for segment descriptors;
- section 6.11 for IDT gates;
- section 4.3 for page-table entries.

`paging::map`, `paging::unmap` and `paging::is_mapped`, which the heap hooks call, are not part of this model either. The heap's page table is a map from virtual page address to mapping.

For a 1.44 MB floppy layout (512 bytes per sector, 4 sectors per cluster, 2880 sectors), the cluster count computed by `fs/fat.cpp` is 715. That is below 4085, so the code classifies the layout as FAT12 (`Fat.FloppyExample`).

## Model

| member | source | states |
|---|---|---|
| KMath.Max | kernel/include/util/math.hpp:5-8 | the result is one of the arguments and at least both |
| KMath.Min | kernel/include/util/math.hpp:10-13 | the result is one of the arguments and at most both |
| Memory.Memcmp | kernel/util/memory.cpp:5-18 | the loop returns the lexicographic comparison of the first `size` bytes, and 0 exactly when they are equal |
| Memory.LexZeroIffEqual | kernel/util/memory.cpp:5-18 | the comparison is 0 if and only if the byte strings are equal |
| Memory.LexAntisymmetric | kernel/util/memory.cpp:5-18 | swapping the arguments negates the result |
| Memory.LexFirstDifference | kernel/util/memory.cpp:9-14 | the sign is decided by the first differing byte alone |
| Bits.GetBit | kernel/include/util/bits.h:11-14 | `get_bit` is bit `bit` of the value |
| Bits.SetBit | kernel/include/util/bits.h:20-23 | `set_bit` sets exactly bit `bit` and keeps every other bit, within the type's width |
| Bits.UnsetBit | kernel/include/util/bits.h:29-32 | `unset_bit` clears exactly bit `bit` and keeps every other bit |
| Bits.SetBitAdds | kernel/include/util/bits.h:20-23 | setting a clear bit adds its power of two |
| Bits.SetBitIdempotent | kernel/include/util/bits.h:20-23 | setting a bit twice is setting it once |
| Bits.UnsetBitIdempotent | kernel/include/util/bits.h:29-32 | clearing a bit twice is clearing it once |
| Bits.NOnesIsMask | kernel/include/util/bits.h:37-44 | `get_n_ones(n)` in a `w`-bit type is `2^min(n, w) - 1`, the shift-left loop saturating at the width |
| Bits.GetBitRange | kernel/include/util/bits.h:50-53 | `get_bit_range` is `(flags / 2^start) mod 2^min(length, w)` |
| Bits.AndLowMask | kernel/include/util/bits.h:50-53 | masking with `2^n - 1` is reduction modulo `2^n` |
| EnumFlags.FlagAnd | kernel/include/util/enum_flags.hpp:8-23 | bit `i` of `a & b` is bit `i` of both |
| EnumFlags.FlagOr | kernel/include/util/enum_flags.hpp:8-24 | bit `i` of `a \| b` is bit `i` of either |
| EnumFlags.FlagXor | kernel/include/util/enum_flags.hpp:8-25 | bit `i` of `a ^ b` is set when exactly one operand has it |
| EnumFlags.HasFlagIffBits | kernel/include/util/enum_flags.hpp:26-29 | `has_flag(value, mask)` holds if and only if every bit of the mask is set in the value |
| EnumFlags.OrSetsFlag | kernel/include/util/enum_flags.hpp:24-29 | after `value \| mask` the flag is present |
| EnumFlags.HasEmptyFlag | kernel/include/util/enum_flags.hpp:26-29 | every value has the empty flag set |
| EnumFlags.XorTwiceRestores | kernel/include/util/enum_flags.hpp:25 | toggling a mask twice restores the value |
| EnumFlags.AndKeepsCommonFlag | kernel/include/util/enum_flags.hpp:23-29 | `a & b` has a flag if and only if both `a` and `b` have it |
| StringViews.FromPointer | kernel/include/util/string_view.hpp:10-11 | the view covers exactly `size` characters from `start` |
| StringViews.FromLiteral | kernel/include/util/string_view.hpp:13-15 | a literal's view drops only the terminating character |
| StringViews.Default | kernel/include/util/string_view.hpp:17-18 | the default view is empty |
| StringViews.At | kernel/include/util/string_view.hpp:20-22 | `operator[]` is the viewed character at that index |
| StringViews.GetSize | kernel/include/util/string_view.hpp:24-26 | the size is the number of viewed characters |
| StringViews.Substring | kernel/include/util/string_view.hpp:28-30 | within bounds, a substring views exactly that slice |
| StringViews.SubstringOfSubstring | kernel/include/util/string_view.hpp:28-30 | a substring of a substring is one substring at the summed offset |
| InplaceVectors.Empty | kernel/include/util/inplace_vector.hpp:15 | a new vector has no items and the given capacity |
| InplaceVectors.PushBack | kernel/include/util/inplace_vector.hpp:21-30 | it appends and reports true if and only if there was room; otherwise nothing changes |
| InplaceVectors.Get | kernel/include/util/inplace_vector.hpp:32-40 | `operator[]` is the item at that index |
| InplaceVectors.PushAllKeepsPrefix | kernel/include/util/inplace_vector.hpp:21-30 | pushing a sequence keeps what fits, in order, and drops the rest |
| Vectors.WithCapacity | kernel/include/util/vector.hpp:12-20 | a new vector is empty with the requested capacity |
| Vectors.Empty | kernel/include/util/vector.hpp:22 | the default vector is empty with capacity 0 |
| Vectors.FromSpan | kernel/include/util/vector.hpp:24-29 | it holds the span's items, with capacity the least value that is at least 8 and at least the size, i.e. `max(size, 8)` |
| Vectors.Copy | kernel/include/util/vector.hpp:31-48 | the copy has the same items and capacity |
| Vectors.Move | kernel/include/util/vector.hpp:50-70 | the target takes the items and capacity; the source is left empty with capacity 0 |
| Vectors.Grown | kernel/include/util/vector.hpp:125-129 | the new capacity is the least value that is at least 8 and at least double the old one, i.e. `max(8, 2 * capacity)` |
| Vectors.PushBack | kernel/include/util/vector.hpp:79-98 | it appends the item, growing the capacity only when the vector is full |
| Vectors.Get | kernel/include/util/vector.hpp:100-108 | `operator[]` is the item at that index |
| Vectors.PushAllStaysProportionate | kernel/include/util/vector.hpp:79-98 | repeated pushes keep every item, and the capacity stays within `max(8, 2 * size)` |
| Options.Empty | kernel/include/util/option.hpp:13-14 | a default option holds nothing |
| Options.Wrap | kernel/include/util/option.hpp:16-26 | an option built from a value holds that value |
| Options.AssignValue | kernel/include/util/option.hpp:19-32 | assigning a value makes the option hold it |
| Options.Copy | kernel/include/util/option.hpp:42-58 | the copy holds a value exactly when the source does, the same value, and the source is unchanged |
| Options.Move | kernel/include/util/option.hpp:68-75 | the target takes the source's value, and the source is left empty |
| Options.MoveAssign | kernel/include/util/option.hpp:77-84 | move assignment replaces the target by the source's contents and empties the source |
| Options.GetValue | kernel/include/util/option.hpp:86-98 | the asserted accessor returns the held value |
| Options.MoveLeavesNothingBehind | kernel/include/util/option.hpp:68-75 | moving from a moved-from option yields nothing, and a move preserves the option |
| Options.PtrEmpty | kernel/include/util/option.hpp:121-123 | an empty reference option holds the null pointer |
| Options.FromRef | kernel/include/util/option.hpp:125-132 | an option built from a reference is present and holds its address |
| Options.FromPointer | kernel/include/util/option.hpp:159-170 | a pointer option is present if and only if the pointer is non-null |
| Options.GetPtr | kernel/include/util/option.hpp:172-175 | the accessor returns the stored non-null pointer |
| Options.FromPointerAgrees | kernel/include/util/option.hpp:153-175 | the pointer specialisation behaves as the general option of that address |
| Options.RawEmpty | kernel/include/util/option.h:14 | the unchecked option's default is empty |
| Options.RawWrap | kernel/include/util/option.h:15 | an unchecked option built from a value holds it |
| Options.RawGetValue | kernel/include/util/option.h:21-23 | when present, the accessor agrees with the general option |
| Options.RawGetValueAgrees | kernel/include/util/option.h:14-23 | present options read as the checked ones do; an empty one returns whatever its slot holds |
| Format.FindFormattingSlot | kernel/include/kernel/print.hpp:25-52 | no slot exactly when no `{` precedes the last character; otherwise the first such `{`, shaped `{}` or `{:c}`, or a malformed-slot failure there |
| Format.FindSlotFrom | kernel/include/kernel/print.hpp:26-49 | a scan from `i`, with no opening `{` before it, finds the string's first opening and its shape, reports a malformed slot there, or finds nothing exactly when there is no opening |
| Format.FirstOpeningUnique | kernel/include/kernel/print.hpp:26-28 | the first opening brace is unique |
| Format.MakeFormatString | kernel/include/kernel/print.hpp:57-99 | a successful parse has as many slots as arguments; too few arguments means the text has a slot |
| Format.RenderOfParse | kernel/include/kernel/print.hpp:77-99 | splitting a format string and putting the pieces back gives the original text |
| Format.ParseOfRender | kernel/include/kernel/print.hpp:77-99 | rendering a well-formed format string and parsing it again gives it back |
| Format.ParseAfterPiece | kernel/include/kernel/print.hpp:79-87 | text without braces followed by a slot parses as one piece plus the parse of the rest |
| Format.Print | kernel/include/kernel/print.hpp:138-152 | the output starts with the literal text before the first slot, and is exactly that text when there are no slots |
| Format.Append | kernel/include/kernel/print.hpp:138-152 | joining two format strings adds their argument counts and renders as the two texts end to end |
| Format.PrintAppend | kernel/include/kernel/print.hpp:138-152 | each argument fills its own slot, in order: printing joined format strings with `a + b` prints the first with `a`, then the second with `b` |
| Format.PrintAfterText | kernel/include/kernel/print.hpp:149-152 | literal text in front of a format string is printed verbatim in front of its output |
| Format.PrintOneSlot | kernel/include/kernel/print.hpp:147-152 | a one-slot format string prints its text, then its argument rendered with the slot's format character, then its tail |
| Format.Println | kernel/include/kernel/print.hpp:162-166 | `println` is `print` followed by one newline |
| Format.PrintKeepsLiteralText | kernel/include/kernel/print.hpp:138-152 | printing with arguments that render as their slot text reproduces the format string |
| Format.TrailingBraceIsText | kernel/include/kernel/print.hpp:26 | a `{` in the last position is plain text: `"50{"` takes no argument and `"{"` rejects one as too many |
| Format.HeaderExamples | kernel/include/kernel/print.hpp:5-8 | worked examples: `{}` and `{:x}` slots, a missing argument and a malformed slot |
| FrameAllocator.Clamp | kernel/memory/frame_allocator.cpp:18-26 | `clamp` starts at the larger start and ends at the smaller 32-bit end, or is empty when those cross |
| FrameAllocator.ClampIsIntersection | kernel/memory/frame_allocator.cpp:15-26 | without wrap-around, the clamped region contains exactly the addresses in both regions |
| FrameAllocator.ClampWithinBounds | kernel/memory/frame_allocator.cpp:18-26 | a non-empty clamped region lies inside the bounds |
| FrameAllocator.AvailableAbove | kernel/memory/frame_allocator.cpp:42-44 | the available region runs from the kernel's end to `MAX_ADDRESS` |
| FrameAllocator.CutRegionContains | kernel/memory/frame_allocator.cpp:56-69 | an entry cut at 4 GiB contains exactly its addresses below `MAX_ADDRESS` |
| FrameAllocator.UsableRegion | kernel/memory/frame_allocator.cpp:51-74 | a used entry is available, starts at or below `MAX_ADDRESS` and leaves a non-empty region, which starts at the later of its start and the kernel's end |
| FrameAllocator.UsableRegionIsAvailable | kernel/memory/frame_allocator.cpp:51-74 | a used region lies within the available region and holds exactly the entry's addresses there |
| FrameAllocator.FirstUsable | kernel/memory/frame_allocator.cpp:51-80 | the chosen entry is the first usable one |
| FrameAllocator.AllocatorFor | kernel/memory/frame_allocator.cpp:76-78 | the capacity is the number of whole pages in the region, and no frame is taken yet |
| FrameAllocator.Init | kernel/memory/frame_allocator.cpp:36-83 | it panics without the memory-map flag or without a usable entry; otherwise it uses the first usable entry |
| FrameAllocator.InitValid | kernel/memory/frame_allocator.cpp:76-78 | the allocator `init` builds fits in 32-bit memory |
| FrameAllocator.TotalMemory | kernel/memory/frame_allocator.cpp:85-87 | total memory is the capacity in bytes |
| FrameAllocator.AvailableMemory | kernel/memory/frame_allocator.cpp:89-91 | available memory is the untaken frames in bytes |
| FrameAllocator.AllocateFrame | kernel/memory/frame_allocator.cpp:93-101 | when frames remain, the next frame is returned and counted; otherwise nothing changes and nothing is returned |
| FrameAllocator.FrameInRegion | kernel/memory/frame_allocator.cpp:93-101 | a returned frame is page-aligned relative to the first frame and lies in the region |
| FrameAllocator.AllocateFrameCounters | kernel/memory/frame_allocator.cpp:85-101 | an allocation keeps the total and lowers the available memory by one page, or finds none available |
| FrameAllocator.AllocateManyFrames | kernel/memory/frame_allocator.cpp:93-101 | the k-th of repeated allocations is frame `count + k`, until the capacity runs out |
| FrameAllocator.FramesDistinct | kernel/memory/frame_allocator.cpp:93-101 | frames from successive allocations are distinct and a page apart per step |
| HeapHooks.FirstRunFrom | kernel/memory/liballoc_hooks.cpp:34-54 | the reference search: the first run of `pages` unmapped heap pages, or none |
| HeapHooks.FindUnusedRegion | kernel/memory/liballoc_hooks.cpp:34-54 | the counting loop returns the start of the first run of `pages` free pages, and nothing when there is none or `pages` is 0 |
| HeapHooks.NoRunThrough | kernel/memory/liballoc_hooks.cpp:42-45 | no free run passes over a mapped page, which justifies resetting the counter |
| HeapHooks.UnusedRegionFits | kernel/memory/liballoc_hooks.cpp:31-54 | a found region is page-aligned, inside the heap window and entirely unmapped |
| HeapHooks.MapRunContents | kernel/memory/liballoc_hooks.cpp:73-85 | mapping a run maps each page to consecutive writable frames and keeps every other mapping |
| HeapHooks.Lock | kernel/memory/liballoc_hooks.cpp:17-19 | locking always reports success (0) |
| HeapHooks.Unlock | kernel/memory/liballoc_hooks.cpp:27-29 | unlocking always reports success (0) |
| HeapHooks.Alloc | kernel/memory/liballoc_hooks.cpp:63-88 | with no region it returns null and changes nothing; otherwise it maps as many pages as there are frames and returns the region only if all were mapped |
| HeapHooks.Free | kernel/memory/liballoc_hooks.cpp:98-105 | freeing unmaps exactly the `pages` pages from the start address and returns 0 |
| HeapHooks.FreedPagesAreRun | kernel/memory/liballoc_hooks.cpp:98-105 | without wrap-around, the freed pages are exactly the run |
| HeapHooks.FreeUndoesAlloc | kernel/memory/liballoc_hooks.cpp:63-105 | freeing a run that was mapped onto unmapped pages restores the page table |
| Paging.Map | kernel/arch/i386/paging.cpp:34-42 | an entry is the frame address with the low 12 bits cleared, plus 1 (present) and 2 when writable |
| Paging.FrameBits | kernel/arch/i386/paging.cpp:35 | `addr & 0xfffff000` rounds down to the page |
| Paging.SetPresent | kernel/arch/i386/paging.cpp:36 | setting bit 0 of an aligned address adds 1 |
| Paging.SetWritable | kernel/arch/i386/paging.cpp:37-39 | setting bit 1 adds 2 |
| Paging.Unmap | kernel/arch/i386/paging.cpp:48-50 | an unmapped entry is not present and maps frame 0 |
| Paging.IsUnused | kernel/arch/i386/paging.cpp:52-54 | unused means bit 0 is clear |
| Paging.MapThenQuery | kernel/arch/i386/paging.cpp:34-54 | a mapped entry is in use, keeps the page-rounded frame and has the requested writability |
| Paging.UnmapThenQuery | kernel/arch/i386/paging.cpp:48-57 | unmapped and default entries are unused |
| Paging.AllocateTable | kernel/arch/i386/paging.cpp:62-99 | a table takes the next frame, and panics when none is left or the frame is not page-aligned |
| Paging.IdentityTable | kernel/arch/i386/paging.cpp:115-118 | every entry `i` of the kernel table maps `i * 4 KiB` writable |
| Paging.Init | kernel/arch/i386/paging.cpp:111-123 | it allocates the directory and then the table, and panics if and only if one of those allocations does; when both succeed it identity-maps the table and points directory entry 0 at it |
| Paging.InitIdentityMaps | kernel/arch/i386/paging.cpp:111-123 | every address below 4 MiB translates to itself, through directory entry 0 and a present, writable entry |
| Paging.InitLeavesDirectory | kernel/arch/i386/paging.cpp:119 | every other directory entry stays unused |
| Gdt.ByteOfValues | kernel/arch/i386/gdt.cpp:9-16 | `get_bit_range(x, 8i, 8)` is byte `i` of `x` |
| Gdt.LimitHigh | kernel/arch/i386/gdt.cpp:11 | byte 6 starts with limit bits 16 to 19 |
| Gdt.WithFlags | kernel/arch/i386/gdt.cpp:20 | `data[6] \|= flags << 4` puts the flag nibble above the limit nibble, truncated to a byte |
| Gdt.EncodeLimitAndFlags | kernel/arch/i386/gdt.cpp:9-20 | the limit's bytes and nibble, and the flags, land in bytes 0, 1 and 6 |
| Gdt.EncodeBaseAndAccess | kernel/arch/i386/gdt.cpp:13-18 | the base lands in bytes 2, 3, 4 and 7, and the access byte in byte 5 |
| Gdt.DecodeOfEncode | kernel/arch/i386/gdt.cpp:8-21 | a descriptor with a 20-bit limit and 4-bit flags decodes back from its encoding |
| Gdt.EncodeOfDecode | kernel/arch/i386/gdt.cpp:8-21 | every 8 bytes are the encoding of their decoding |
| Gdt.NullEncodesToZeros | kernel/arch/i386/gdt.cpp:24 | the null descriptor is eight zero bytes |
| Gdt.CodeAccess | kernel/arch/i386/gdt.cpp:28-29 | the code access byte is 0x9a |
| Gdt.DataAccess | kernel/arch/i386/gdt.cpp:35-36 | the data access byte is 0x92 |
| Gdt.SegmentFlags | kernel/arch/i386/gdt.cpp:30 | the segment flags are 0xc: 4 KiB granularity and 32-bit |
| Gdt.FillGdt | kernel/arch/i386/gdt.cpp:23-39 | null, flat kernel code and flat kernel data descriptors |
| Gdt.FlatCoversAddressSpace | kernel/arch/i386/gdt.cpp:25-38 | a flat segment covers all 4 GiB with page granularity |
| Gdt.GdtrAsWritten | kernel/arch/i386/gdt.cpp:49 | the register's limit is written as the table's size |
| Gdt.GdtrAsWrittenAdmitsExtraByte | kernel/arch/i386/gdt.cpp:49 | that limit admits the byte after the table, but no extra descriptor |
| Gdt.Gdtr | kernel/arch/i386/gdt.cpp:49 | the corrected limit admits exactly the table's bytes and descriptors |
| Idt.AttrRing | kernel/arch/i386/idt.cpp:14 | the ring goes into bits 5 and 6 |
| Idt.GateAttributes | kernel/arch/i386/idt.cpp:14 | the attributes are present, ring 3 and the gate type, bit by bit |
| Idt.SplitAddress | kernel/arch/i386/idt.cpp:10-11 | the handler address is cut into two 16-bit halves that recombine to the address (high half times 2^16 plus low half) |
| Idt.SplitAddressAsWritten | kernel/arch/i386/idt.cpp:10-11 | the halves are exactly `get_bit_range(address, 0, 16)` and `get_bit_range(address, 16, 16)` on a 32-bit value |
| Idt.RegisterGate | kernel/arch/i386/idt.cpp:9-15 | the gate holds the address, the kernel code selector, a zero byte and the attributes; other vectors are unchanged |
| Idt.RegisterInterrupt | kernel/arch/i386/idt.cpp:17-19 | an interrupt gate to the handler at that vector only |
| Idt.RegisterTrap | kernel/arch/i386/idt.cpp:21-27 | a trap gate to the handler at that vector only |
| Idt.GateKinds | kernel/arch/i386/idt.cpp:17-27 | interrupt and trap gates differ only in bit 0 of the type |
| Idt.SelectorIsKernelCode | kernel/arch/i386/idt.cpp:12 | selector 0x08 is the GDT's ring-0 kernel code descriptor |
| Idt.Init | kernel/arch/i386/idt.cpp:37-40 | all 256 vectors become interrupt gates to the void handler |
| Idt.IdtrAsWritten | kernel/arch/i386/idt.cpp:42 | the register's limit is written as the table's size |
| Idt.IdtrAsWrittenAdmitsExtraByte | kernel/arch/i386/idt.cpp:42 | that limit admits the byte after the table, but no extra vector |
| Idt.Idtr | kernel/arch/i386/idt.cpp:42 | the corrected limit admits exactly the table's bytes and vectors |
| Pci.ConfigAddress | kernel/arch/i386/pci.cpp:23-28 | with device below 32 and function below 8, the address is the enable bit plus the bus, device, function and offset in their fields |
| Pci.ConfigAddressIsOr | kernel/arch/i386/pci.cpp:23-28 | the address equals the source's OR of the shifted fields, for every input |
| Pci.AddressBounded | kernel/arch/i386/pci.cpp:23-28 | the ORed address fits in 32 bits |
| Pci.ConfigAddressFields | kernel/arch/i386/pci.cpp:12-28 | enable bit, bus, device, function and offset can each be read back from the address |
| Pci.OffsetMasks | kernel/arch/i386/pci.cpp:45-46 | `offset & 0xfc` rounds down to the dword and `offset & 3` is the offset within it |
| Pci.BitRange32 | kernel/include/util/bits.h:50-53 | `get_bit_range` on a `uint32_t` is `(dword / 2^start) mod 2^min(length, 32)` |
| Pci.ReadU16AsWritten | kernel/arch/i386/pci.cpp:41-51 | the 16-bit read is the low or the high half of the aligned dword, chosen by `offset & 3` |
| Pci.HalfIsBitRange | kernel/arch/i386/pci.cpp:46-50 | the halves are `get_bit_range(dword, 0, 16)` and `get_bit_range(dword, 16, 16)` |
| Pci.ReadU8AsWritten | kernel/arch/i386/pci.cpp:59-66 | the 8-bit read is byte `offset & 3` of the aligned dword |
| Pci.LowHalfBytes | kernel/arch/i386/pci.cpp:45-50 | the low half is bytes 0 and 1, little-endian |
| Pci.HighHalfBytes | kernel/arch/i386/pci.cpp:45-50 | the high half is bytes 2 and 3, little-endian |
| Pci.ReadU16IsTwoBytes | kernel/arch/i386/pci.cpp:41-66 | at an even offset, the 16-bit read is the 8-bit reads at `offset` and `offset + 1`, little-endian |
| Pci.HasMultipleFunctionsAsWritten | kernel/arch/i386/pci.cpp:112-114 | the multi-function test is bit 7 of the header-type byte |
| Pci.HeaderFields | kernel/arch/i386/pci.cpp:95-131 | vendor, device id, class, programming interface, header type and secondary bus are the documented fields of dwords 0, 2, 3 and 6 |
| Pci.BarIoAsWritten | kernel/arch/i386/pci.cpp:124-126 | the BAR value with its two low bits masked off |
| Pci.BarOffsets | kernel/arch/i386/pci.cpp:116-126 | for BAR 0 to 5 the register offset does not wrap |
| Pci.FindFunctionWithClass | kernel/arch/i386/pci.cpp:74-81 | it returns nothing if and only if no function has the class; otherwise the first function with that class |
| Pci.OtherFunctionsAdmit | kernel/arch/i386/pci.cpp:152-159 | the loop's pushed functions are exactly those of functions `k` to 7 that have a vendor |
| Pci.DeviceFunctionsAdmit | kernel/arch/i386/pci.cpp:147-160 | a device contributes function 0 first, if it has a vendor, and the other present functions only when it is multi-function |
| Pci.CheckFunction | kernel/arch/i386/pci.cpp:135-140 | a function is appended when there is room and dropped otherwise |
| Pci.CheckFunctionFits | kernel/arch/i386/pci.cpp:135-140 | repeated checks keep the prefix of the pushed functions that fits |
| Pci.CheckDevice | kernel/arch/i386/pci.cpp:147-160 | the list gains the device's present functions, in order, as far as they fit |
| Ide.Poll | kernel/arch/i386/ide.cpp:162-183 | a simple poll always succeeds; an advanced one reports error, then write fault, then request-not-ready, in that priority |
| Ide.UnpackAt | kernel/arch/i386/ide.cpp:192-196 | word `j` of a sector lands in bytes `2j` (low) and `2j + 1` (high) |
| Ide.UnpackPack | kernel/arch/i386/ide.cpp:192-208 | packing bytes into words and unpacking them gives the bytes back |
| Ide.PackUnpack | kernel/arch/i386/ide.cpp:192-208 | unpacking words into bytes and packing them gives the words back |
| Ide.LowByte | kernel/arch/i386/ide.cpp:194 | `get_bit_range(word, 0, 8)` is the low byte |
| Ide.HighByte | kernel/arch/i386/ide.cpp:195 | `get_bit_range(word, 8, 8)` is the high byte |
| Ide.JoinBytes | kernel/arch/i386/ide.cpp:206-207 | `lo \| hi << 8` is `lo + 256 * hi` |
| Ide.SectorsRead | kernel/arch/i386/ide.cpp:186-190 | the number of sectors read before the first failed poll |
| Ide.ReadSectorWords | kernel/arch/i386/ide.cpp:192-196 | the inner loop stores the 256 words as 512 bytes, low byte first |
| Ide.ReadSectorsAsWritten | kernel/arch/i386/ide.cpp:185-200 | as written, every sector overwrites bytes 0 to 511, so only the last sector read remains |
| Ide.ReadSectors | kernel/arch/i386/ide.cpp:185-200 | corrected: the sectors read are stored one after another, and the result is the first failed poll or success |
| Ide.ReadSectorsLosesData | kernel/arch/i386/ide.cpp:192-196 | with two different sectors, the as-written buffer differs from the intended one |
| Ide.WriteSectorsAsWritten | kernel/arch/i386/ide.cpp:202-212 | as written, every sector sent is the buffer's first 512 bytes |
| Ide.WriteSectors | kernel/arch/i386/ide.cpp:202-212 | corrected: the words sent unpack to exactly the first `count` sectors of the buffer |
| Ide.UnpackPackSectors | kernel/arch/i386/ide.cpp:202-208 | the corrected writer's words, sector by sector, unpack to the buffer |
| Ide.WriteSectorsAsWrittenSecond | kernel/arch/i386/ide.cpp:205-208 | as written, the second sector sent is the buffer's first |
| Ide.WriteSectorsRepeatsFirst | kernel/arch/i386/ide.cpp:205-208 | when the first two sectors differ, the as-written and the intended transfers differ |
| IdeAccess.SectorCount | kernel/arch/i386/ide.cpp:318-319 | the number of whole sectors in the buffer, capped at 255 |
| IdeAccess.ChsAddressing | kernel/arch/i386/ide.cpp:345-359 | CHS: sector `lba mod 63 + 1`, head `(lba / 63) mod 16`, and cylinder `lba / 1008` truncated to 16 bits |
| IdeAccess.ChsArithmetic | kernel/arch/i386/ide.cpp:349-351 | the source's `lba + 1 - sector` arithmetic equals the plain quotient and remainder |
| IdeAccess.Lba28Addressing | kernel/arch/i386/ide.cpp:335-344 | LBA28: three address bytes, and the top nibble in the head |
| IdeAccess.Lba48Addressing | kernel/arch/i386/ide.cpp:329-334 | LBA48: six little-endian address bytes and head 0 |
| IdeAccess.ChooseAddressing | kernel/arch/i386/ide.cpp:329-359 | LBA48 exactly from `0x10000000` up; below that, LBA28 exactly when the drive supports LBA; CHS otherwise |
| IdeAccess.Lba28RoundTrip | kernel/arch/i386/ide.cpp:335-344 | the LBA28 registers reassemble the address |
| IdeAccess.Lba48RoundTrip | kernel/arch/i386/ide.cpp:329-334 | the LBA48 registers reassemble the address modulo `2^48` |
| IdeAccess.ChsRoundTrip | kernel/arch/i386/ide.cpp:345-359 | within 65536 cylinders, CHS reassembles the address |
| IdeAccess.ChsCylinderWraps | kernel/arch/i386/ide.cpp:350 | beyond that the cylinder wraps: the first address past it addresses sector 0 |
| IdeAccess.AddressingRoundTrip | kernel/arch/i386/ide.cpp:329-359 | whichever mode is chosen, the registers reassemble the address when it is representable |
| IdeAccess.DriveSelectBits | kernel/arch/i386/ide.cpp:364-370 | the `set_bit` calls on 0xa0 give 0xe0, 0xb0 and 0xf0 |
| IdeAccess.DriveSelectValue | kernel/arch/i386/ide.cpp:364-372 | the drive-select byte is 0xa0, plus 0x40 for LBA, 0x10 for the slave, plus the head |
| IdeAccess.DriveSelectFields | kernel/arch/i386/ide.cpp:364-372 | the head, slave, LBA and fixed bits can each be read back from the drive-select byte |
| IdeAccess.TransferCommand | kernel/arch/i386/ide.cpp:381-391 | the extended command is used exactly for LBA48, and a read command exactly for reads |
| IdeAccess.FlushCommand | kernel/arch/i386/ide.cpp:396-399 | the extended flush is used exactly for LBA48 |
| IdeAccess.SetupWrites | kernel/arch/i386/ide.cpp:364-379 | drive select first; for LBA48 the high count and address bytes; then the count and the low address bytes |
| IdeAccess.Access | kernel/arch/i386/ide.cpp:313-402 | as written: the register writes and command; a read's result is the first failed poll, and the buffer then starts with the last sector read and is otherwise unchanged; a write sends the buffer's first sector once per sector, then flushes |
| IdeAccess.AccessIntended | kernel/arch/i386/ide.cpp:313-402 | corrected: the same register writes, with sector `i` read into or sent from `buffer[512 * i ..]` |
| IdeAccess.ReadDisk | kernel/arch/i386/ide.cpp:404-406 | as written: `read` succeeds if and only if every poll succeeds, and then the buffer holds only the last sector, at offset 0, with the rest unchanged |
| IdeAccess.ReadDiskIntended | kernel/arch/i386/ide.cpp:404-406 | corrected: `read` succeeds if and only if every poll succeeds, and then the buffer holds every sector in order |
| IdeAccess.WriteDisk | kernel/arch/i386/ide.cpp:408-411 | as written: `write` always reports success, and each sector sent is the buffer's first 512 bytes |
| IdeAccess.WriteDiskIntended | kernel/arch/i386/ide.cpp:408-411 | corrected: `write` always reports success, and the words sent unpack to the buffer's whole sectors |
| IdeIdentify.NewDevice | kernel/include/arch/i386/ide.hpp:53-75 | a new device has its place, ATA interface, zero fields and an empty model |
| IdeIdentify.SpinUntilAnswered | kernel/arch/i386/ide.cpp:247-256 | the loop stops at the first status with the error bit, or with ready and not busy |
| IdeIdentify.IdentU32 | kernel/arch/i386/ide.cpp:281-284 | the identification dword is word `offset` below word `offset + 1` |
| IdeIdentify.ModelCharsAt | kernel/arch/i386/ide.cpp:298-306 | model characters come from each word's high byte and then its low byte |
| IdeIdentify.LastNonSpace | kernel/arch/i386/ide.cpp:297-303 | the index of the last non-space character, 0 when all are spaces |
| IdeIdentify.DecodeModel | kernel/arch/i386/ide.cpp:296-308 | the loop stores the swapped characters and ends the model after the last non-space character |
| IdeIdentify.NulIndex | kernel/arch/i386/ide.cpp:422-425 | the position of the first NUL, or the array's size |
| IdeIdentify.GetModel | kernel/arch/i386/ide.cpp:421-428 | `get_model` views the model up to its first NUL |
| IdeIdentify.NulIndexIsFirst | kernel/arch/i386/ide.cpp:422-425 | the first NUL is unique |
| IdeIdentify.ModelTrimsTrailingSpaces | kernel/arch/i386/ide.cpp:297-308 | the model read back is the identified text without trailing spaces |
| IdeIdentify.BlankModelIsOneSpace | kernel/arch/i386/ide.cpp:302-308 | an all-space model reads back as a single space |
| IdeIdentify.IdentifySelect | kernel/arch/i386/ide.cpp:227-234 | identify selects the drive with 0xa0 or 0xb0 |
| IdeIdentify.Identify | kernel/arch/i386/ide.cpp:224-311 | covers no device, unknown type, ATAPI fallback, request error and success, with the registers written and the fields read |
| IdeIdentify.FirstExitIsFirst | kernel/arch/i386/ide.cpp:247-256 | the exiting status is the first one |
| IdeIdentify.IdentifiedFields | kernel/arch/i386/ide.cpp:286-294 | command sets are words 82 and 83; the size is words 100 and 101 with 48-bit LBA, words 60 and 61 otherwise |
| IdeIdentify.UsesLba48Bit | kernel/arch/i386/ide.cpp:290 | bit 26 of the command sets is bit 10 of word 83 |
| IdeIdentify.InitChannels | kernel/arch/i386/ide.cpp:436-449 | non-zero BARs replace the default ports; the secondary bus master is BAR4 + 8 |
| IdeIdentify.Identified | kernel/arch/i386/ide.cpp:462-475 | only successfully identified devices are kept |
| IdeIdentify.ProbeDrive | kernel/arch/i386/ide.cpp:457-460 | probing a place gives the device at that place, with the status `identify`'s checks lead to (no device, unknown type, request error, or success), and on success the fields the identify words give |
| IdeIdentify.ProbeDisks | kernel/arch/i386/ide.cpp:454-477 | the disks are the identified devices of the four places, in probe order; which places are kept is fixed by each probe's status, and when all four succeed, all four are kept |
| IdeIdentify.IdentifiedAll | kernel/arch/i386/ide.cpp:462-475 | when every identification succeeded, every device is kept, in order |
| IdeIdentify.IdentifiedAppend | kernel/arch/i386/ide.cpp:462-465 | each probe appends its device exactly on success |
| Fat.BootRecordSize | kernel/fs/fat.cpp:36-56 | the boot record's layout is 90 bytes |
| Fat.Fat32HeaderSize | kernel/fs/fat.cpp:19-34 | the FAT32 extension is 54 bytes |
| Fat.Fat16HeaderSize | kernel/fs/fat.cpp:9-17 | the FAT16 extension is 26 bytes |
| Fat.FileEntrySize | kernel/fs/fat.cpp:82-96 | a directory entry is 32 bytes |
| Fat.LongNameEntrySize | kernel/fs/fat.cpp:98-108 | a long-name entry is 32 bytes |
| Fat.AttributesShareOffset | kernel/fs/fat.cpp:82-107 | both entry kinds keep their attributes at byte 11 |
| Fat.BootRecordRoundTrip | kernel/fs/fat.cpp:36-56 | encoding a boot record and reading it back gives it back |
| Fat.SectorRoundTrip | kernel/fs/fat.cpp:36-56 | reading the first 90 bytes of a sector and encoding them gives the bytes back |
| Fat.BootRecordClusterOffsets | kernel/fs/fat.cpp:39-40 | bytes per sector are bytes 11-12 and sectors per cluster byte 13 |
| Fat.BootRecordRegionOffsets | kernel/fs/fat.cpp:41-43 | reserved sectors, FAT count and root entries are at bytes 14, 16 and 17 |
| Fat.BootRecordSmallSizeOffsets | kernel/fs/fat.cpp:44-46 | the 16-bit sector count and sectors per FAT are at bytes 19 and 22 |
| Fat.BootRecordLargeSizeOffsets | kernel/fs/fat.cpp:50-54 | the 32-bit sector count is at byte 32, and the extension header is bytes 36 to 89 |
| Fat.Fat32SectorsPerFat | kernel/fs/fat.cpp:20 | the FAT32 sectors per FAT are the extension's first four bytes |
| Fat.FatTypeOf | kernel/fs/fat.cpp:148-154 | FAT12 below 4085 clusters, FAT32 from 65525, FAT16 between |
| Fat.FatTypeMonotone | kernel/fs/fat.cpp:148-154 | more clusters never give a smaller FAT type |
| Fat.FatTypeBoundaries | kernel/fs/fat.cpp:148-154 | the classification changes at exactly 4085 and 65525 |
| Fat.TotalSectors | kernel/fs/fat.cpp:120-122 | the 16-bit count unless it is 0, then the 32-bit count |
| Fat.FatSize | kernel/fs/fat.cpp:125-127 | the 16-bit sectors per FAT unless 0, then the FAT32 field |
| Fat.RootDirSectors | kernel/fs/fat.cpp:130-132 | the ceiling of the root directory's bytes over the sector size |
| Fat.ComputeGeometry | kernel/fs/fat.cpp:120-154 | the geometry `try_read` computes, with 32-bit wrap-around, and a divide fault when a divisor is 0 |
| Fat.GeometryWithoutWrap | kernel/fs/fat.cpp:135-145 | when the metadata fits, the regions add up and the clusters are the data sectors over the cluster size |
| Fat.OversizedMetadataWraps | kernel/fs/fat.cpp:142-154 | with one sector per cluster, metadata larger than the disk wraps the data-sector count and classifies the volume as FAT32 |
| Fat.FloppyExample | kernel/fs/fat.cpp:130-154 | the 1.44 MB floppy: 1 root-directory sector, data from sector 20, 715 clusters, FAT12 |
| Fat.TryRead | kernel/fs/fat.cpp:110-157 | it returns false in every case, with a geometry exactly when the read succeeded |
| Fat.FileEntryRoundTrip | kernel/fs/fat.cpp:82-96 | encoding a directory entry and decoding it gives it back |
| Fat.FileEntrySlotRoundTrip | kernel/fs/fat.cpp:82-96 | decoding 32 bytes and encoding them gives them back |
| Fat.FileEntryNameOffsets | kernel/fs/fat.cpp:83-84 | the name is bytes 0 to 10 and the attributes byte 11 |
| Fat.FileEntryClusterOffsets | kernel/fs/fat.cpp:90-94 | cluster high at byte 20, cluster low at byte 26, file size at byte 28 |
| Fat.LongNameEntryRoundTrip | kernel/fs/fat.cpp:98-108 | encoding a long-name entry and decoding it gives it back |
| Fat.LongNameSlotRoundTrip | kernel/fs/fat.cpp:98-108 | decoding 32 bytes as a long-name entry and encoding them gives them back |
| Fat.LongNameAttributesOffset | kernel/fs/fat.cpp:98-108 | a long-name entry's attributes are byte 11 of its slot |
| Fat.SlotKindByAttributes | kernel/fs/fat.cpp:58-67 | both readings of a 32-byte slot see the same attributes byte, byte 11, so the attributes can decide the slot's kind |

## Left out
- Port I/O, `io_wait`, `tiny_delay` and the 400 ns delays have no effect in the model. Values read from ports are parameters.
- Unbounded busy-waits become "the status the loop stopped on". A drive that never answers is outside the model.
- Inline assembly is not modelled: `lgdt`, `lidt`, the segment reloads, CR3 and CR0.
- The PCI configuration space is a function parameter.
- `check_bus` and `pci::init` are not modelled, and neither is `check_function`'s recursion into a bridge's secondary bus. Their recursion follows the hardware's bridge topology.
- `print_value` and its overloads are outside this model. `Format.Print` takes the rendering as the parameter `show`.
- `Bits.GetBit`, `Bits.SetBit`, `Bits.UnsetBit`: require `bit < 31`, because `1 << bit` is an `int` shift in the source.
- `Vectors.Copy`: copy assignment to itself is not modelled. The source frees its own buffer before copying from it.
- `Vectors.Move`: move-assigning a vector to itself is not modelled. The source frees the buffer and then empties the vector.
- `Vectors.Grown`: does not model `size_t` overflow of `capacity * 2`.
- Destructors and `kmalloc`/`krealloc` failure are not modelled.
- `Options.MoveAssign`: moving an option into itself is not modelled. In the source it leaves the option empty. Also not modelled: when the source option is empty, the target's old value is dropped without its destructor running, because the model has no destructors.
- `HeapHooks.Alloc`: assumes that `paging::map` takes no frames from the frame allocator and never fails. The body of `paging::map` is not part of this model. The heap window lies above the 4 MiB that `paging::init` maps, so a real `map` there may allocate a page table first. The run's frames could then be further apart than `count + k`, and exhaustion could come earlier.
- `fat::list_root` and the FAT timestamp bit-fields are not modelled. Timestamps are kept as raw 16-bit words.
- `Fat.TryRead`: logging is left out. Its `false` result follows the code (`return {}` on both paths).
- `IdeIdentify.DecodeModel`: requires the model array's last character to be NUL, as it is for a fresh device. `model[last + 1]` is then always in bounds.
- `IdeIdentify.IdentU32`: the left shift of a promoted `uint16_t` is modelled as unsigned. The source's `int` shift overflows when bit 15 of the high word is set.
- `FrameAllocator.CutRegionContains`: assumes the entry's 64-bit end does not wrap.
- The allocator's unaligned `first_frame` is modelled, not fixed. `Paging.AllocateTable` reports `Misaligned` when `PageTable`'s alignment `ASSERT` would fail.
- The keyboard, exception handlers, logging and the kernel's entry point are not modelled. None of them is part of this core.

## Findings

| source | as written | input that shows it | evidently intended | confidence | as-written member | corrected member |
|---|---|---|---|---|---|---|
| kernel/arch/i386/ide.cpp:192-196 | `read_sectors` stores every sector at `buffer[2 * j]`, ignoring the sector index `i` | a two-sector read whose sectors differ: only the second remains, at offset 0 | sector `i` stored at `buffer[512 * i + 2 * j]` | not executed | Ide.ReadSectorsAsWritten, Ide.ReadSectorsLosesData, IdeAccess.Access, IdeAccess.ReadDisk | Ide.ReadSectors, IdeAccess.AccessIntended, IdeAccess.ReadDiskIntended |
| kernel/arch/i386/ide.cpp:205-208 | `write_sectors` sends `buffer[2 * j]` for every sector | a two-sector write whose halves differ: the first 512 bytes are sent twice | sector `i` taken from `buffer[512 * i + 2 * j]` | not executed | Ide.WriteSectorsAsWritten, Ide.WriteSectorsRepeatsFirst, IdeAccess.Access, IdeAccess.WriteDisk | Ide.WriteSectors, IdeAccess.AccessIntended, IdeAccess.WriteDiskIntended |
| kernel/arch/i386/gdt.cpp:49 | `gdtr.size = sizeof(gdt)`, i.e. 24 | offset 24, one byte past the three descriptors, is within the limit | limit `sizeof(gdt) - 1`, the offset of the last byte | not executed | Gdt.GdtrAsWritten, Gdt.GdtrAsWrittenAdmitsExtraByte | Gdt.Gdtr |
| kernel/arch/i386/idt.cpp:42 | `idtr.size = sizeof(idt)`, i.e. 2048 | offset 2048, one byte past the 256 gates, is within the limit | limit `sizeof(idt) - 1` | not executed | Idt.IdtrAsWritten, Idt.IdtrAsWrittenAdmitsExtraByte | Idt.Idtr |
