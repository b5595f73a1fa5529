// What kpm_init is given: the memory size, the memory map and the kernel image.

module KpmBoot {
  import opened Words
  import opened Align
  import opened BuddyTree
  import opened Frames
  import opened KpmLayout
  import opened KpmRanges

  const MULTIBOOT_MEMORY_AVAILABLE: U32 := 1

  const KERNEL_VIRT_OFFSET: U32 := 0xC0000000

  // Address of the first byte of the kernel image (arch/i386/linker.ld, lines 7-9).
  const SK: U32 := 0x0010_0000

  datatype MmapEntry = MmapEntry(size: U32, addr: nat, len: nat, kind: U32)

  // The number of frames kpm_init manages: whole 4 MiB blocks of the memory size, in 32-bit words.
  function FramesOf(memkb: U32): nat {
    AlignDown(memkb * 1024 % 0x1_0000_0000 / 4096, 1024)
  }

  // They are all the whole 4 MiB blocks, so less than one block is lost; and they never reach the
  // last 4 MiB of the address space, whatever size is reported.
  lemma FramesBound(memkb: U32)
    ensures var b := memkb * 1024 % 0x1_0000_0000;
            FramesOf(memkb) % 1024 == 0 && FramesOf(memkb) * 4096 <= b < (FramesOf(memkb) + 1024) * 4096
    ensures FramesOf(memkb) <= 0xF_FC00
  {
  }

  // Where the allocator puts itself: the first page after the kernel (a virtual address).
  function BuddyAddress(ek: U32): U32 {
    AlignNext(ek, 4096)
  }

  // 32-bit subtraction.
  function Minus(a: U32, b: U32): U32 {
    if a >= b then a - b else a - b + 0x1_0000_0000
  }

  // The physical address behind a kernel virtual address, and the size of the kernel image.
  function Phys(a: U32): U32 {
    Minus(a, KERNEL_VIRT_OFFSET)
  }

  function KernelSize(ek: U32): U32 {
    Minus(Phys(ek), SK)
  }

  // The frames kpm_init enables, up to the entry of size 0 that ends the memory map. Addresses and
  // lengths have 64 bits there; the calls of kpm_enable keep the low 32.
  ghost function Available(nframes: nat, entries: seq<MmapEntry>): set<nat> {
    if entries == [] || entries[0].size == 0 then {}
    else EntryFrames(nframes, entries[0]) + Available(nframes, entries[1..])
  }

  ghost function EntryFrames(nframes: nat, entry: MmapEntry): set<nat> {
    var base, limit := entry.addr % 0x1_0000_0000, entry.len % 0x1_0000_0000;
    if entry.kind == MULTIBOOT_MEMORY_AVAILABLE && base % 4096 == 0 then Inside(nframes, base, limit) else {}
  }

  // The frames wholly inside the available regions the memory map reports.
  ghost function Reported(nframes: nat, entries: seq<MmapEntry>): set<nat> {
    if entries == [] || entries[0].size == 0 then {}
    else RegionFrames(nframes, entries[0]) + Reported(nframes, entries[1..])
  }

  ghost function RegionFrames(nframes: nat, entry: MmapEntry): set<nat> {
    if entry.kind == MULTIBOOT_MEMORY_AVAILABLE then Inside(nframes, entry.addr, entry.len) else {}
  }

  // Truncation does no harm to an entry: an unaligned region holds no whole frame below nframes; a
  // region from 4 GiB up has no frame left at the address its low word gives; and a region below
  // that keeps its length, or what is left of it still reaches the end of memory.
  predicate EntryFits(nframes: nat, entry: MmapEntry) {
    var first, limit := entry.addr % 0x1_0000_0000 / 4096, entry.len % 0x1_0000_0000;
    entry.kind == MULTIBOOT_MEMORY_AVAILABLE ==>
      if entry.addr % 4096 != 0 then
        entry.addr / 4096 + 1 >= nframes || (entry.addr / 4096 + 2) * 4096 > entry.addr + entry.len
      else if entry.addr >= 0x1_0000_0000 then
        first >= nframes || limit < 4096
      else
        entry.len < 0x1_0000_0000 || first + limit / 4096 >= nframes
  }

  predicate MapFits(nframes: nat, entries: seq<MmapEntry>) {
    entries == [] || entries[0].size == 0 || (EntryFits(nframes, entries[0]) && MapFits(nframes, entries[1..]))
  }

  // kpm_init enables the frames of a region, and no others, exactly when truncation does no harm.
  lemma EntryExact(nframes: nat, entry: MmapEntry)
    requires nframes <= 0xF_FC00
    ensures EntryFrames(nframes, entry) == RegionFrames(nframes, entry) <==> EntryFits(nframes, entry)
  {
    hide EntryFrames, RegionFrames, EntryFits, Inside;
    if entry.kind != MULTIBOOT_MEMORY_AVAILABLE {
      OtherEntry(nframes, entry);
    } else if entry.addr % 4096 != 0 {
      UnalignedEntry(nframes, entry);
    } else if entry.addr >= 0x1_0000_0000 {
      HighEntry(nframes, entry);
    } else {
      LowEntry(nframes, entry);
    }
  }

  lemma OtherEntry(nframes: nat, entry: MmapEntry)
    requires entry.kind != MULTIBOOT_MEMORY_AVAILABLE
    ensures EntryFrames(nframes, entry) == RegionFrames(nframes, entry) && EntryFits(nframes, entry)
  {
  }

  lemma UnalignedEntry(nframes: nat, entry: MmapEntry)
    requires entry.kind == MULTIBOOT_MEMORY_AVAILABLE && entry.addr % 4096 != 0
    ensures EntryFrames(nframes, entry) == RegionFrames(nframes, entry) <==> EntryFits(nframes, entry)
  {
    hide Inside;
    LowAligned(entry.addr);
    NoWholeFrame(nframes, entry.addr, entry.len);
  }

  lemma HighEntry(nframes: nat, entry: MmapEntry)
    requires nframes <= 0xF_FC00
    requires entry.kind == MULTIBOOT_MEMORY_AVAILABLE && entry.addr % 4096 == 0 && entry.addr >= 0x1_0000_0000
    ensures EntryFrames(nframes, entry) == RegionFrames(nframes, entry) <==> EntryFits(nframes, entry)
  {
    hide Inside;
    LowAligned(entry.addr);
    PastMemory(nframes, entry.addr, entry.len);
    WholeFrame(nframes, entry.addr % 0x1_0000_0000, entry.len % 0x1_0000_0000);
  }

  lemma LowEntry(nframes: nat, entry: MmapEntry)
    requires nframes <= 0xF_FC00
    requires entry.kind == MULTIBOOT_MEMORY_AVAILABLE && entry.addr % 4096 == 0 && entry.addr < 0x1_0000_0000
    ensures EntryFrames(nframes, entry) == RegionFrames(nframes, entry) <==> EntryFits(nframes, entry)
  {
    hide Inside;
    CutShort(nframes, entry.addr, entry.len % 0x1_0000_0000, entry.len);
  }

  lemma LowAligned(addr: nat)
    ensures addr % 0x1_0000_0000 % 4096 == addr % 4096
  {
  }

  lemma PastMemory(nframes: nat, base: nat, limit: nat)
    requires nframes <= 0xF_FC00 && base >= 0x1_0000_0000
    ensures Inside(nframes, base, limit) == {}
  {
  }

  lemma WholeFrame(nframes: nat, base: nat, limit: nat)
    requires base % 4096 == 0
    ensures Inside(nframes, base, limit) == {} <==> base / 4096 >= nframes || limit < 4096
  {
    if base / 4096 < nframes && limit >= 4096 {
      assert FrameInside(base / 4096, base, limit);
      assert base / 4096 in Inside(nframes, base, limit);
    }
  }

  lemma NoWholeFrame(nframes: nat, base: nat, limit: nat)
    requires base % 4096 != 0
    ensures Inside(nframes, base, limit) == {} <==> base / 4096 + 1 >= nframes || (base / 4096 + 2) * 4096 > base + limit
  {
    var j := base / 4096 + 1;
    if j < nframes && (j + 1) * 4096 <= base + limit {
      assert FrameInside(j, base, limit);
      assert j in Inside(nframes, base, limit);
    }
  }

  // A range cut short holds the same frames if it is not cut, or still reaches the end of memory.
  lemma CutShort(nframes: nat, base: nat, limit: nat, whole: nat)
    requires nframes <= 0xF_FC00 && base % 4096 == 0 && base < 0x1_0000_0000
    requires limit == whole % 0x1_0000_0000
    ensures Inside(nframes, base, limit) == Inside(nframes, base, whole) <==>
            whole < 0x1_0000_0000 || base / 4096 + limit / 4096 >= nframes
  {
    if whole >= 0x1_0000_0000 {
      var j := base / 4096 + limit / 4096;
      if j < nframes {
        assert FrameInside(j, base, whole) && !FrameInside(j, base, limit);
        assert j in Inside(nframes, base, whole) && j !in Inside(nframes, base, limit);
      }
    }
  }

  // So a memory map without such harm makes available what it reports.
  lemma {:induction false} MapReported(nframes: nat, entries: seq<MmapEntry>)
    requires nframes <= 0xF_FC00 && MapFits(nframes, entries)
    ensures Available(nframes, entries) == Reported(nframes, entries)
  {
    if entries != [] && entries[0].size != 0 {
      EntryExact(nframes, entries[0]);
      MapReported(nframes, entries[1..]);
    }
  }

  // No frame enabled for one entry lies in a region of another.
  ghost predicate Separate(nframes: nat, entries: seq<MmapEntry>) {
    entries == [] || entries[0].size == 0 ||
    (&& EntryFrames(nframes, entries[0]) !! Reported(nframes, entries[1..])
     && RegionFrames(nframes, entries[0]) !! Available(nframes, entries[1..])
     && Separate(nframes, entries[1..]))
  }

  // And only such a map, when no entry makes up for the harm done to another.
  lemma {:induction false} MapExact(nframes: nat, entries: seq<MmapEntry>)
    requires nframes <= 0xF_FC00 && Separate(nframes, entries)
    ensures Available(nframes, entries) == Reported(nframes, entries) <==> MapFits(nframes, entries)
  {
    if entries != [] && entries[0].size != 0 {
      EntryExact(nframes, entries[0]);
      MapExact(nframes, entries[1..]);
      Unmixed(EntryFrames(nframes, entries[0]), RegionFrames(nframes, entries[0]),
              Available(nframes, entries[1..]), Reported(nframes, entries[1..]));
    }
  }

  lemma Unmixed(a: set<nat>, b: set<nat>, c: set<nat>, d: set<nat>)
    requires a !! d && b !! c
    ensures a + c == b + d <==> a == b && c == d
  {
    if a + c == b + d {
      forall x: nat
        ensures (x in a <==> x in b) && (x in c <==> x in d)
      {
        assert x in a + c <==> x in b + d;
      }
    }
  }

  ghost predicate EntryOk(nframes: nat, entry: MmapEntry) {
    var base, limit := entry.addr % 0x1_0000_0000, entry.len % 0x1_0000_0000;
    entry.kind == MULTIBOOT_MEMORY_AVAILABLE && base % 4096 == 0 ==> RangeOk(nframes, base, AlignDown(limit, 4096))
  }

  ghost predicate MapOk(nframes: nat, entries: seq<MmapEntry>) {
    entries != [] && (entries[0].size != 0 ==> EntryOk(nframes, entries[0]) && MapOk(nframes, entries[1..]))
  }

  // Frame 0, the kernel image and the allocator itself.
  ghost function Reserved(nframes: nat, ek: U32, size: nat): set<nat> {
    Touching(nframes, 0, 4096)
    + Touching(nframes, SK, KernelSize(ek))
    + Touching(nframes, Phys(BuddyAddress(ek)), size)
  }

  // What kpm_init needs: a terminated memory map whose available ranges start inside memory, and
  // a kernel image, followed by the allocator, that lies inside memory.
  ghost predicate BootOk(entries: seq<MmapEntry>, memkb: U32, ek: U32) {
    var n := FramesOf(memkb);
    && MapOk(n, entries)
    && KERNEL_VIRT_OFFSET + SK <= ek <= 0xFFFF_F000
    && Phys(BuddyAddress(ek)) <= n * 4096
  }

  lemma ReservedOk(nframes: nat, ek: U32, size: nat)
    requires nframes <= 0xF_FC00 && size == Offset(nframes, NORDERS)
    requires KERNEL_VIRT_OFFSET + SK <= ek <= 0xFFFF_F000
    requires Phys(BuddyAddress(ek)) <= nframes * 4096
    ensures size <= 0x100_0000
    ensures Phys(BuddyAddress(ek)) % 4096 == 0
    ensures RangeOk(nframes, 0, AlignNext(4096, 4096))
    ensures RangeOk(nframes, SK, AlignNext(KernelSize(ek), 4096))
    ensures RangeOk(nframes, Phys(BuddyAddress(ek)), AlignNext(size, 4096))
  {
    hide AlignNext, Offset, NBlocks, Phys, KernelSize, BuddyAddress;
    OffsetBound(nframes, NORDERS);
    KernelInMemory(ek);
    NextPageBound(4096);
    NextPageBound(KernelSize(ek));
    NextPageBound(size);
  }

  lemma ReservedParts(nframes: nat, ek: U32, size: nat, s: set<nat>)
    ensures s - Touching(nframes, 0, 4096) - Touching(nframes, SK, KernelSize(ek)) - Touching(nframes, Phys(BuddyAddress(ek)), size)
         == s - Reserved(nframes, ek, size)
  {
    hide Touching, KernelSize, Phys, BuddyAddress;
  }

  // A frame is reserved when it is the first one, or a byte of it belongs to the kernel image, from
  // 1 MiB up to its end, or to the size bytes from the page boundary after it.
  lemma ReservedExact(nframes: nat, ek: U32, size: nat, j: nat)
    requires KERNEL_VIRT_OFFSET + SK <= ek <= 0xFFFF_F000
    ensures var end, buddy := ek - 0xC000_0000, (ek - 0xC000_0000 + 4095) / 4096 * 4096;
            j in Reserved(nframes, ek, size) <==>
            && j < nframes
            && (j == 0 || (0x10_0000 < (j + 1) * 4096 && j * 4096 < end) || (buddy < (j + 1) * 4096 && j * 4096 < buddy + size))
  {
    KernelInMemory(ek);
    hide Phys, KernelSize, BuddyAddress;
    assert FrameTouched(j, 0, 4096) <==> j == 0;
  }

  lemma KernelInMemory(ek: U32)
    requires KERNEL_VIRT_OFFSET + SK <= ek <= 0xFFFF_F000
    ensures KernelSize(ek) == ek - KERNEL_VIRT_OFFSET - SK
    ensures ek <= BuddyAddress(ek) < ek + 4096 && Phys(BuddyAddress(ek)) == BuddyAddress(ek) - KERNEL_VIRT_OFFSET
    ensures Phys(BuddyAddress(ek)) % 4096 == 0
  {
    hide AlignNext;
    NextPageBound(ek);
  }

  // A region at 4 GiB makes frames available that no region holds.
  const ALIASED: seq<MmapEntry> := [MmapEntry(20, 0x1_0000_0000, 0x10_0000, 1), MmapEntry(0, 0, 0, 0)]

  lemma AliasedRegion(size: nat)
    ensures var n := FramesOf(0x20_0000);
            && BootOk(ALIASED, 0x20_0000, 0xC020_0000)
            && 5 in Available(n, ALIASED) - Reserved(n, 0xC020_0000, size)
            && Reported(n, ALIASED) == {}
  {
    hide FramesOf, BuddyAddress, Phys, MapOk, Available, Reported, Reserved;
    AliasedAddresses();
    AliasedMap(0x8_0000);
    FrameFive(0x8_0000, size);
  }

  lemma AliasedAddresses()
    ensures FramesOf(0x20_0000) == 0x8_0000
    ensures BuddyAddress(0xC020_0000) == 0xC020_0000 && Phys(0xC020_0000) == 0x20_0000
  {
    hide FramesOf, AlignNext;
    FramesBound(0x20_0000);
    PageMacros(0xC020_0000);
  }

  lemma FrameFive(n: nat, size: nat)
    ensures 5 !in Reserved(n, 0xC020_0000, size)
  {
    hide BuddyAddress, Phys, KernelSize;
    AliasedAddresses();
    assert !FrameTouched(5, 0, 4096) && !FrameTouched(5, SK, KernelSize(0xC020_0000)) && !FrameTouched(5, 0x20_0000, size);
  }

  lemma AliasedMap(n: nat)
    requires 5 < n <= 0x10_0000
    ensures MapOk(n, ALIASED) && 5 in Available(n, ALIASED) && Reported(n, ALIASED) == {}
  {
    var e, rest := ALIASED[0], ALIASED[1..];
    assert rest[0].size == 0;
    assert EntryOk(n, e);
    assert FrameInside(5, 0, 0x10_0000);
    assert 5 in EntryFrames(n, e);
    assert RegionFrames(n, e) == {};
  }
}
