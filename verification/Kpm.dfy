// The physical page allocator: kernel/memory/kpm.c over the structures of include/kernel/kpm.h.

module Kpm {
  import opened Words
  import opened Align
  import opened Bits
  import opened BuddyTree
  import opened Frames
  import opened KpmBytes
  import opened KpmLayout
  import opened KpmRanges
  import opened KpmRepair
  import opened KpmBoot

  // struct kpm_chunk
  class Chunk {
    var addr: U32
    var size: U32

    constructor () {
      addr, size := 0, 0;
    }
  }

  class Buddy {
    // struct buddy, with the memory it heads: mem[k] is the byte at offset k from the structure.
    var nframes: nat
    var size: nat
    var enabledFrames: nat
    var orders: seq<Order>
    var mem: array<bv8>
    // The bitmaps as rows of bits: the enabled frames, and the eleven orders.
    ghost var en: seq<bool>
    ghost var rows: Rows

    // The structure describes the layout, and the bitmaps do not overlap.
    ghost predicate Laid()
      reads `nframes, `size, `enabledFrames, `orders, `mem
    {
      && nframes % 1024 == 0 && nframes < 0x10_0000
      && size == mem.Length
      && |orders| == NORDERS
      && (forall o :: 0 <= o < |orders| ==> orders[o].size == NBytes(NBlocks(nframes, o)))
      && Apart(orders)
      && forall o :: 0 <= o < |orders| ==> enabledFrames + NBytes(nframes) <= orders[o].bitmap
    }

    // The bytes hold the rows.
    ghost predicate Wired()
      reads this, mem
    {
      && Laid() && |en| == nframes
      && TiedTo(mem[..], enabledFrames, NBytes(nframes), en)
      && OrdersTied(mem[..], orders, rows)
    }

    // The invariant between calls: the bitmaps form a tree, and only enabled frames are free.
    ghost predicate Valid()
      reads this, mem
    {
      && Wired() && Tree(rows, nframes)
      && forall j :: 0 <= j < nframes && j < |rows[0]| && !rows[0][j] ==> en[j]
    }

    ghost function Free(): set<nat>
      reads `rows
    {
      if rows == [] then {} else ClearIn(rows[0])
    }

    ghost function Enabled(): set<nat>
      reads `en
    {
      SetIn(en)
    }

    constructor Init(entries: seq<MmapEntry>, memkb: U32, ek: U32)
      requires BootOk(entries, memkb, ek)
      ensures Valid() && fresh(mem)
      ensures nframes == FramesOf(memkb) && Tiled()
      ensures nframes % 1024 == 0 && nframes * 4096 <= memkb * 1024 % 0x1_0000_0000 < (nframes + 1024) * 4096
      ensures Enabled() == Free() == Available(nframes, entries) - Reserved(nframes, ek, size)
      ensures MapFits(nframes, entries) ==> Free() == Reported(nframes, entries) - Reserved(nframes, ek, size)
    {
      mem := new bv8[0];
      new;
      Boot(entries, memkb, ek);
    }

    // kpm_init. ek is the address of the linker symbol that ends the kernel image.
    method Boot(entries: seq<MmapEntry>, memkb: U32, ek: U32)
      requires BootOk(entries, memkb, ek)
      modifies this
      ensures Valid() && fresh(mem)
      ensures nframes == FramesOf(memkb) && Tiled()
      ensures nframes % 1024 == 0 && nframes * 4096 <= memkb * 1024 % 0x1_0000_0000 < (nframes + 1024) * 4096
      ensures Enabled() == Free() == Available(nframes, entries) - Reserved(nframes, ek, size)
      ensures MapFits(nframes, entries) ==> Free() == Reported(nframes, entries) - Reserved(nframes, ek, size)
    {
      hide *;
      InitBitmaps(memkb);
      FramesBound(memkb);
      BootFacts(entries, memkb, ek, this);
      EnableAvailable(entries);
      DisableReserved(ek);
    }

    // Lines 60-62 of kpm_init.
    method DisableReserved(ek: U32)
      requires Valid() && nframes <= 0xF_FC00 && size == Offset(nframes, NORDERS)
      requires KERNEL_VIRT_OFFSET + SK <= ek <= 0xFFFF_F000 && Phys(BuddyAddress(ek)) <= nframes * 4096
      modifies mem, `rows, `en
      ensures Valid()
      ensures Free() == old(Free()) - Reserved(nframes, ek, size)
      ensures Enabled() == old(Enabled()) - Reserved(nframes, ek, size)
    {
      hide Free, Enabled, Valid;
      ReservedOk(nframes, ek, size);
      hide *;
      Disable(0, 4096);
      Disable(SK, KernelSize(ek));
      Disable(Phys(BuddyAddress(ek)), size);
      ReservedParts(nframes, ek, size, old(Free()));
      ReservedParts(nframes, ek, size, old(Enabled()));
    }

    // Lines 56-59 of kpm_init.
    method EnableAvailable(entries: seq<MmapEntry>)
      requires Valid() && nframes <= 0xF_FC00 && MapOk(nframes, entries)
      requires Free() == Enabled() == {}
      modifies mem, `rows, `en
      ensures Valid() && Free() == Enabled() == Available(nframes, entries)
    {
      hide Valid, Free, Enabled, AlignDown, RangeOk, Inside;
      var e := 0;
      assert entries[0..] == entries;
      while entries[e].size != 0
        invariant e < |entries| && MapOk(nframes, entries[e..])
        invariant Valid() && Free() == Enabled()
        invariant Available(nframes, entries) == Enabled() + Available(nframes, entries[e..])
        decreases |entries| - e
      {
        assert entries[e..][1..] == entries[e + 1..];
        if entries[e].kind == MULTIBOOT_MEMORY_AVAILABLE {
          Enable(entries[e].addr % 0x1_0000_0000, entries[e].len % 0x1_0000_0000);
        }
        e := e + 1;
      }
    }

    // The bitmaps are laid out one after the other, from the end of the structure to `size`.
    ghost predicate Tiled()
      reads `nframes, `size, `enabledFrames, `orders
    {
      enabledFrames == SIZEOF_BUDDY && orders == Layout(nframes) && size == Offset(nframes, NORDERS)
    }

    // Lines 38-54 of kpm_init: the layout of the bitmaps and their initial contents.
    method InitBitmaps(memkb: U32)
      modifies this
      ensures Valid() && fresh(mem)
      ensures nframes == FramesOf(memkb) && Tiled()
      ensures nframes % 1024 == 0 && nframes * 4096 <= memkb * 1024 % 0x1_0000_0000 < (nframes + 1024) * 4096
      ensures Enabled() == Free() == {}
    {
      hide Valid, Free, Enabled, FramesOf, Layout, Offset, NBlocks, NBytes, NBytesFromNBits;
      FramesBound(memkb);
      nframes := FramesOf(memkb);
      var enabledFramesSize := NBytesFromNBits(nframes);
      enabledFrames := SIZEOF_BUDDY;
      NBytesMacro(nframes);
      LayoutStep(nframes, 0);
      var sized, totalOrdersSize := SizeOrders(nframes);
      orders := PlaceOrders(nframes, enabledFrames + enabledFramesSize, sized);
      LayoutSizes(nframes);
      size := SIZEOF_BUDDY + enabledFramesSize + totalOrdersSize;
      LayoutApart(nframes);
      FillBitmaps(enabledFramesSize, totalOrdersSize);
    }

    // The two memset calls of kpm_init.
    method FillBitmaps(enabledFramesSize: nat, totalOrdersSize: nat)
      requires nframes % 1024 == 0 && nframes < 0x10_0000 && |orders| == NORDERS && Apart(orders)
      requires enabledFramesSize == NBytes(nframes) && enabledFrames == SIZEOF_BUDDY
      requires size == SIZEOF_BUDDY + enabledFramesSize + totalOrdersSize
      requires forall o :: 0 <= o < NORDERS ==> orders[o].size == NBytes(NBlocks(nframes, o))
      requires forall o :: 0 <= o < NORDERS ==> enabledFrames + NBytes(nframes) <= orders[o].bitmap && orders[o].bitmap + orders[o].size <= size
      modifies `mem, `en, `rows
      ensures Valid() && fresh(mem)
      ensures Enabled() == Free() == {}
    {
      hide NBlocks, NBytes, Tree, AllTaken, NoneEnabled, TiedTo, OrdersTied;
      mem := new bv8[size];
      forall k | enabledFrames <= k < enabledFrames + enabledFramesSize {
        mem[k] := 0;
      }
      forall k | enabledFrames + enabledFramesSize <= k < enabledFrames + enabledFramesSize + totalOrdersSize {
        mem[k] := 0xff;
      }
      en := NoneEnabled(nframes);
      rows := AllTaken(nframes);
      UniformEnabled(mem[..], enabledFrames, nframes);
      UniformOrders(mem[..], orders, nframes);
      AllTakenTree(rows, nframes);
    }

    // KPM_ALLOC, KPM_FREE
    method MarkAllocated(o: nat, i: nat)
      requires Wired() && o < NORDERS && i < |rows[o]|
      modifies mem, `rows
      ensures Wired() && rows == old(rows)[o := old(rows)[o][i := true]]
    {
      WriteOrder(o, i, true);
    }

    method MarkFree(o: nat, i: nat)
      requires Wired() && o < NORDERS && i < |rows[o]|
      modifies mem, `rows
      ensures Wired() && rows == old(rows)[o := old(rows)[o][i := false]]
    {
      WriteOrder(o, i, false);
    }

    method WriteOrder(o: nat, i: nat, v: bool)
      requires Wired() && o < NORDERS && i < |rows[o]|
      modifies mem, `rows
      ensures Wired() && rows == old(rows)[o := old(rows)[o][i := v]]
    {
      WriteOneOrder(mem[..], orders, rows, o, i, v);
      ghost var bytes := mem[..];
      var p := orders[o].bitmap + i / 8;
      WriteElsewhere(bytes, p, Written(bytes[p], i % 8, v), enabledFrames, NBytes(nframes), en);
      var b := Written(mem[p], i % 8, v);
      mem[p] := b;
      rows := rows[o := rows[o][i := v]];
      assert mem[..] == bytes[p := b];
    }

    // KPM_ENABLE, KPM_DISABLE
    method MarkEnabled(i: nat)
      requires Wired() && i < nframes
      modifies mem, `en
      ensures Wired() && en == old(en)[i := true]
    {
      WriteEnabled(i, true);
    }

    method MarkDisabled(i: nat)
      requires Wired() && i < nframes
      modifies mem, `en
      ensures Wired() && en == old(en)[i := false]
    {
      WriteEnabled(i, false);
    }

    method WriteEnabled(i: nat, v: bool)
      requires Wired() && i < nframes
      modifies mem, `en
      ensures Wired() && en == old(en)[i := v]
    {
      ghost var bytes := mem[..];
      var p := enabledFrames + i / 8;
      WriteInside(bytes, enabledFrames, NBytes(nframes), en, i, v);
      WriteNoOrder(bytes, orders, rows, p, Written(bytes[p], i % 8, v));
      mem[p] := Written(mem[p], i % 8, v);
      en := en[i := v];
      assert mem[..] == bytes[p := Written(bytes[p], i % 8, v)];
    }

    // KPM_IS_ALLOCATED, KPM_IS_ENABLED
    method IsAllocated(o: nat, i: nat) returns (r: bool)
      requires Wired() && o < NORDERS && i < |rows[o]|
      ensures r == rows[o][i]
    {
      assert TiedTo(mem[..], orders[o].bitmap, orders[o].size, rows[o]);
      assert rows[o][i] == BitAt(mem[..], orders[o].bitmap, i);
      r := Bit(mem[orders[o].bitmap + i / 8], i % 8);
    }

    method IsEnabled(i: nat) returns (r: bool)
      requires Wired() && i < nframes
      ensures r == en[i]
    {
      assert en[i] == BitAt(mem[..], enabledFrames, i);
      r := Bit(mem[enabledFrames + i / 8], i % 8);
    }

    lemma MemoryBound()
      requires Wired()
      ensures nframes % 1024 == 0 && nframes < 0x10_0000
    {
    }

    lemma WiredShaped()
      requires Wired()
      ensures |rows| == NORDERS && Shaped(rows, nframes) && |rows[0]| == nframes
    {
      forall o | 0 <= o < NORDERS
        ensures |rows[o]| == 8 * NBytes(NBlocks(nframes, o))
      {
        assert TiedTo(mem[..], orders[o].bitmap, orders[o].size, rows[o]);
      }
    }

    // kpm_update_order: recompute one order over the blocks that meet [start, start + limit).
    method UpdateOrder(n: nat, start: U32, limit: U32)
      requires Wired() && 1 <= n < NORDERS
      requires WalkOk(nframes, start, limit)
      modifies mem, `rows
      ensures Wired()
      ensures var end := Sum(start, limit);
              rows == if start < end
                      then old(rows)[n := Repaired(old(rows)[n], old(rows)[n - 1],
                                                   BlockOf(start / 4096, n), BlockOf((end - 1) / 4096, n) + 1)]
                      else old(rows)
    {
      hide Laid, NBlocks, TiedTo, OrdersTied, Repaired, Sum, WalkOk, Idle;
      var orderBlockSize := 4096 * Pow2(n);
      var base: U32 := start;
      var end := Sum(start, limit);
      MemoryBound();
      WalkEnd(nframes, start, limit);
      WiredShaped();
      ghost var k := BlockOf(start / 4096, n);
      RepairNothing(rows, n, k);
      while base < end
        invariant Wired() && Shaped(rows, nframes)
        invariant Walk(nframes, start, end, n, base, k)
        invariant rows == old(rows)[n := Repaired(old(rows)[n], old(rows)[n - 1], BlockOf(start / 4096, n), k)]
        decreases 0x1_0000_0000 - base
      {
        NextBlock(nframes, start, end, n, base, k);
        var index := base / Pow2(n) / 4096;
        RowBounds(rows, nframes, n);
        RepairOneMore(old(rows), rows, n, BlockOf(start / 4096, n), k);
        UpdateBlock(n, index);
        base := AlignNextForce(base, orderBlockSize);
        k := k + 1;
      }
    }

    method UpdateBlock(n: nat, index: nat)
      requires Wired() && 1 <= n < NORDERS && index < |rows[n]| && 2 * index + 1 < |rows[n - 1]|
      modifies mem, `rows
      ensures Wired()
      ensures rows == old(rows)[n := old(rows)[n][index := old(rows)[n - 1][2 * index] || old(rows)[n - 1][2 * index + 1]]]
    {
      hide NBlocks, NBytes;
      var lchild := index * 2;
      var rchild := lchild + 1;
      var l := IsAllocated(n - 1, lchild);
      var r := IsAllocated(n - 1, rchild);
      if l || r {
        MarkAllocated(n, index);
      } else {
        MarkFree(n, index);
      }
    }

    // The loop `for (n = 1; n < KPM_NORDERS; n++) kpm_update_order(n, base, limit)` that ends each
    // operation: after an edit of order 0 within the range, the orders form a tree again.
    method UpdateOrders(start: U32, limit: U32, ghost before: Rows)
      requires Wired() && EditedWithin(rows, before, nframes, start, limit)
      modifies mem, `rows
      ensures Wired() && |rows| == NORDERS && Tree(rows, nframes) && rows[0] == old(rows)[0]
    {
      WiredShaped();
      RepairBegins(rows, before, nframes, start, limit);
      for n := 1 to NORDERS
        invariant Wired() && |rows| == NORDERS && rows[0] == old(rows)[0]
        invariant Repairing(rows, before, nframes, start, limit, n)
      {
        hide *;
        RepairContinues(rows, before, nframes, start, limit, n);
        UpdateOrder(n, start, limit);
      }
      RepairEnds(rows, before, nframes, start, limit);
    }

    // The frame loop of kpm_enable, and the repair of the orders after it.
    method EnableFrames(base: U32, lim: U32)
      requires Valid() && base % 4096 == 0 && lim % 4096 == 0 && base + lim <= nframes * 4096
      modifies mem, `rows, `en
      ensures Valid()
      ensures var frames := Range(base / 4096, base / 4096 + lim / 4096);
              Free() == old(Free()) + frames && Enabled() == old(Enabled()) + frames
    {
      hide Tree, Shaped, OrdersTied, TiedTo, NBlocks, Laid, EditedWithin;
      var baseIndex := base / 4096;
      WiredShaped();
      ghost var rows0, en0 := rows, en;
      FillNothing(rows0[0], baseIndex, false);
      FillNothing(en0, baseIndex, true);
      for i := 0 to lim / 4096
        invariant Wired()
        invariant |rows| == NORDERS && rows == rows0[0 := Fill(rows0[0], baseIndex, baseIndex + i, false)]
        invariant en == Fill(en0, baseIndex, baseIndex + i, true)
      {
        hide *;
        FillStep(rows0[0], baseIndex, baseIndex + i, false);
        FillStep(en0, baseIndex, baseIndex + i, true);
        MarkEnabled(baseIndex + i);
        MarkFree(0, baseIndex + i);
      }
      EditIsWithin(rows, rows0, nframes, base, lim, lim / 4096);
      UpdateOrders(base, lim, rows0);
      FillSets(rows0[0], baseIndex, baseIndex + lim / 4096);
      FillSets(en0, baseIndex, baseIndex + lim / 4096);
    }

    // kpm_enable
    method Enable(base: U32, limit: U32)
      requires Valid()
      requires base % 4096 == 0 ==> RangeOk(nframes, base, AlignDown(limit, 4096))
      modifies mem, `rows, `en
      ensures Valid()
      ensures var frames := if base % 4096 == 0 then Inside(nframes, base, limit) else {};
              Free() == old(Free()) + frames && Enabled() == old(Enabled()) + frames
    {
      hide Free, Enabled;
      MemoryBound();
      EnableRange(nframes, base, limit);
      ClampCode(nframes, base, AlignDown(limit, 4096));
      hide *;
      if !IsAligned(base, 4096) {
        assert old(Free()) + {} == old(Free()) && old(Enabled()) + {} == old(Enabled());
        return;
      }
      var lim := AlignDown(limit, 4096);
      if (base + lim) % 0x1_0000_0000 / 4096 > nframes {
        lim := (nframes * 4096 - base) % 0x1_0000_0000;
      }
      EnableFrames(base, lim);
    }

    // The frame loop of kpm_disable, and the repair of the orders after it.
    method DisableFrames(base: U32, lim: U32)
      requires Valid() && base % 4096 == 0 && lim % 4096 == 0 && base + lim <= nframes * 4096
      modifies mem, `rows, `en
      ensures Valid()
      ensures var frames := Range(base / 4096, base / 4096 + lim / 4096);
              Free() == old(Free()) - frames && Enabled() == old(Enabled()) - frames
    {
      hide Tree, Shaped, OrdersTied, TiedTo, NBlocks, Laid, EditedWithin;
      var baseIndex := base / 4096;
      WiredShaped();
      ghost var rows0, en0 := rows, en;
      FillNothing(rows0[0], baseIndex, true);
      FillNothing(en0, baseIndex, false);
      for i := 0 to lim / 4096
        invariant Wired()
        invariant |rows| == NORDERS && rows == rows0[0 := Fill(rows0[0], baseIndex, baseIndex + i, true)]
        invariant en == Fill(en0, baseIndex, baseIndex + i, false)
      {
        hide *;
        FillStep(rows0[0], baseIndex, baseIndex + i, true);
        FillStep(en0, baseIndex, baseIndex + i, false);
        MarkDisabled(baseIndex + i);
        MarkAllocated(0, baseIndex + i);
      }
      EditIsWithin(rows, rows0, nframes, base, lim, lim / 4096);
      UpdateOrders(base, lim, rows0);
      FillSets(rows0[0], baseIndex, baseIndex + lim / 4096);
      FillSets(en0, baseIndex, baseIndex + lim / 4096);
    }

    // kpm_disable
    method Disable(base: U32, limit: U32)
      requires Valid()
      requires base % 4096 == 0 ==> RangeOk(nframes, base, AlignNext(limit, 4096))
      modifies mem, `rows, `en
      ensures Valid()
      ensures var frames := if base % 4096 == 0 && limit <= 0xFFFFF000 then Touching(nframes, base, limit) else {};
              Free() == old(Free()) - frames && Enabled() == old(Enabled()) - frames
    {
      hide Free, Enabled;
      MemoryBound();
      DisableRange(nframes, base, limit);
      ClampCode(nframes, base, if IsAligned(limit, 4096) then limit else AlignNext(limit, 4096));
      hide *;
      if !IsAligned(base, 4096) {
        assert old(Free()) - {} == old(Free()) && old(Enabled()) - {} == old(Enabled());
        return;
      }
      var lim := limit;
      if !IsAligned(limit, 4096) {
        lim := AlignNext(limit, 4096);
      }
      if (base + lim) % 0x1_0000_0000 / 4096 > nframes {
        lim := (nframes * 4096 - base) % 0x1_0000_0000;
      }
      DisableFrames(base, lim);
    }

    // The frame loop of kpm_alloc, and the repair of the orders after it.
    method TakeFrames(first: nat, count: nat)
      requires Valid() && first + count <= nframes
      modifies mem, `rows
      ensures Valid() && Free() == old(Free()) - Range(first, first + count)
    {
      MemoryBound();
      WiredShaped();
      hide Tree, Shaped, OrdersTied, TiedTo, NBlocks, Laid, EditedWithin;
      ghost var rows0 := rows;
      FillNothing(rows0[0], first, true);
      for j := 0 to count
        invariant Wired()
        invariant |rows| == NORDERS && rows == rows0[0 := Fill(rows0[0], first, first + j, true)]
      {
        hide *;
        FillStep(rows0[0], first, first + j, true);
        MarkAllocated(0, first + j);
      }
      EditIsWithin(rows, rows0, nframes, first * 4096, count * 4096, count);
      UpdateOrders(first * 4096, count * 4096, rows0);
      FillSets(rows0[0], first, first + count);
    }

    // bitmap_ffu: the first clear bit of a bitmap, or -1.
    method BitmapFfu(bitmap: nat, len: nat, ghost row: seq<bool>) returns (r: int)
      requires TiedTo(mem[..], bitmap, len, row)
      ensures -1 <= r < |row|
      ensures r >= 0 ==> !row[r]
      ensures forall i :: 0 <= i < (if r == -1 then |row| else r) ==> row[i]
    {
      assert |row| == 8 * len;
      hide *;
      for i := 0 to len
        invariant forall k :: 0 <= k < 8 * i ==> row[k]
      {
        ghost var bytes := mem[..];
        FfsOfByte(bytes, bitmap, len, row, i);
        var cur := !mem[bitmap + i];
        assert cur == !bytes[bitmap + i];
        var ffu := Ffs(cur);
        if ffu != 0 {
          return ffu + i * 8 - 1;
        }
      }
      return -1;
    }

    // kpm_alloc. The ghost results name the block handed out: block i of order o.
    method Alloc(chunk: Chunk, size: U32) returns (ret: int, ghost o: nat, ghost i: nat)
      requires Valid()
      modifies mem, `rows, chunk
      ensures Valid() && nframes % 1024 == 0
      ensures ret == 0 || ret == -1
      ensures ret == -1 <==> old(Free()) == {}
      ensures ret == -1 ==> Free() == old(Free()) && chunk.addr == old(chunk.addr) && chunk.size == old(chunk.size)
      ensures ret == 0 ==>
                && IsPick(old(Free()), nframes, BestFit(AlignNext(size, 4096) / 4096), o, i)
                && chunk.addr == i * Pow2(o) * 4096 && chunk.size == Pow2(o) * 4096
                && Free() == old(Free()) - Span(i * Pow2(o), Pow2(o))
    {
      hide *;
      FreeInMemory();
      o, i := 0, 0;
      var best := FindBestFitOrder(size);
      ghost var free := Free();
      BestFitBound(AlignNext(size, 4096) / 4096);
      PickExists(free, nframes, best);
      for order := best + 1 downto 0
        invariant Valid() && Free() == free
        invariant chunk.addr == old(chunk.addr) && chunk.size == old(chunk.size)
        invariant forall o' :: order <= o' <= best ==> NoBlockFree(free, nframes, o')
      {
        var b := FreeBlockOf(order);
        if b >= 0 {
          PickIs(free, nframes, best, order, b);
          TakeBlock(chunk, order, b);
          return 0, order, b;
        }
      }
      return -1, 0, 0;
    }

    lemma FreeInMemory()
      requires Valid()
      ensures |rows| > 0 && nframes % 1024 == 0 && Free() <= Range(0, nframes)
    {
      WiredShaped();
    }

    // Nothing but the enabled and the free frames determines the bitmaps, byte for byte.
    lemma Determined(bytes: seq<bv8>, before: Rows)
      requires Valid() && Tiled() && |rows| == |before| == NORDERS
      requires Tree(before, nframes) && ClearIn(before[0]) == Free()
      requires TiedTo(bytes, enabledFrames, NBytes(nframes), en) && OrdersTied(bytes, orders, before)
      requires |bytes| == size
      ensures rows == before && size == mem.Length >= SIZEOF_BUDDY
      ensures mem[SIZEOF_BUDDY..] == bytes[SIZEOF_BUDDY..]
    {
      hide TiedTo, OrdersTied, Layout, Offset, Tree, Shaped, NBlocks, NBytes, ClearIn, Apart;
      TreesDetermined(rows, before, nframes);
      BytesDetermined(mem[..], bytes, nframes, en, rows);
    }

    // The body of kpm_alloc once a block is found.
    method TakeBlock(chunk: Chunk, o: nat, i: nat)
      requires Valid() && o < NORDERS && i < NBlocks(nframes, o)
      modifies mem, `rows, chunk
      ensures Valid() && Free() == old(Free()) - Span(i * Pow2(o), Pow2(o))
      ensures chunk.addr == i * Pow2(o) * 4096 && chunk.size == Pow2(o) * 4096
    {
      hide Tree, OrdersTied, TiedTo, Shaped, NBlocks, Pow2;
      MemoryBound();
      BlockFits(nframes, o, i);
      hide *;
      var framesPerBlock := Pow2(o);
      var baseIndex := i * framesPerBlock;
      TakeFrames(baseIndex, framesPerBlock);
      chunk.addr := i * 4096 * framesPerBlock;
      chunk.size := 4096 * framesPerBlock;
    }

    method FreeBlockOf(order: nat) returns (b: int)
      requires Valid() && order < NORDERS
      ensures b == -1 || 0 <= b < NBlocks(nframes, order)
      ensures b == -1 ==> NoBlockFree(Free(), nframes, order)
      ensures b >= 0 ==> BlockFree(Free(), order, b) && forall k :: 0 <= k < b ==> !BlockFree(Free(), order, k)
    {
      b := BitmapFfu(orders[order].bitmap, orders[order].size, rows[order]);
      FirstClearIsFirstFree(rows, nframes, order, b);
    }

    // The frame loop of kpm_free, and the repair of the orders after it.
    method ReleaseFrames(first: nat, count: nat, addr: U32, size: U32)
      requires Valid() && first == addr / 4096 && addr % 4096 == 0 && WalkOk(nframes, addr, size)
      requires if Idle(nframes, addr, size) then count == 0 else count == (size + 4095) / 4096 && first + count <= nframes
      modifies mem, `rows
      ensures Valid() && Free() == old(Free()) + Range(first, first + count) * Enabled()
    {
      hide Tree, OrdersTied, TiedTo, NBlocks, NBytes, EditedWithin, WalkOk, Idle;
      WiredShaped();
      ghost var rows0 := rows;
      ReleaseNothing(rows0[0], en, first);
      for k := first to first + count
        invariant Wired()
        invariant |rows| == NORDERS && |rows0[0]| == |en| && rows == rows0[0 := Released(rows0[0], en, first, k)]
      {
        hide *;
        ReleaseStep(rows0[0], en, first, k);
        var enabled := IsEnabled(k);
        if enabled {
          MarkFree(0, k);
        }
      }
      EditIsWithin(rows, rows0, nframes, addr, size, count);
      UpdateOrders(addr, size, rows0);
      if first + count <= nframes {
        ReleaseSet(rows0[0], en, first, first + count);
      }
    }

    // kpm_free
    method Release(chunk: Chunk)
      requires Valid()
      requires chunk.addr % 4096 == 0 ==> ReleaseOk(nframes, chunk.addr, chunk.size)
      modifies mem, `rows
      ensures Valid()
      ensures Free() == old(Free()) + if chunk.addr % 4096 == 0 && chunk.addr + chunk.size <= nframes * 4096
                                      then Touching(nframes, chunk.addr, chunk.size) * Enabled() else {}
    {
      hide Free, Enabled;
      MemoryBound();
      ReleaseRange(nframes, chunk.addr, chunk.size);
      hide *;
      if !IsAligned(chunk.addr, 4096) {
        assert old(Free()) + {} == old(Free());
        return;
      }
      var firstFrameIndex := chunk.addr / 4096;
      var count := AlignNext(chunk.size, 4096) / 4096;
      ReleaseFrames(firstFrameIndex, count, chunk.addr, chunk.size);
    }
  }

  lemma BootFacts(entries: seq<MmapEntry>, memkb: U32, ek: U32, buddy: Buddy)
    requires BootOk(entries, memkb, ek) && buddy.Tiled() && buddy.nframes == FramesOf(memkb)
    ensures buddy.size == Offset(buddy.nframes, NORDERS)
    ensures MapOk(FramesOf(memkb), entries)
    ensures KERNEL_VIRT_OFFSET + SK <= ek <= 0xFFFF_F000 && Phys(BuddyAddress(ek)) <= FramesOf(memkb) * 4096
    ensures MapFits(FramesOf(memkb), entries) ==> Available(FramesOf(memkb), entries) == Reported(FramesOf(memkb), entries)
  {
    hide FramesOf, Layout, Offset, AlignNext, AlignDown, BuddyAddress, MapOk, MapFits, Available, Reported;
    FramesBound(memkb);
    if MapFits(FramesOf(memkb), entries) {
      MapReported(FramesOf(memkb), entries);
    }
  }
}
