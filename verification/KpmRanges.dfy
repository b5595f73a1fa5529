// The arithmetic of kernel/memory/kpm.c: rounding to pages, the clamped frame ranges, the walk over
// the blocks of an order, and the choice of an order.

module KpmRanges {
  import opened Words
  import opened Align
  import opened BuddyTree
  import opened Frames

  lemma BlockSize(n: nat)
    requires n < NORDERS
    ensures 4096 * Pow2(n) == Pow2(12 + n) <= 0x40_0000
  {
    assert Pow2(4) == 16;
    Pow2Add(4, 4);
    Pow2Add(4, 8);
    Pow2Add(12, n);
    Pow2Monotone(n, 10);
    Pow2Add(4, 6);
  }

  lemma DivDiv(x: nat, a: nat, b: nat)
    requires a > 0 && b > 0
    ensures a * b > 0 && x / a / b == x / (a * b)
  {
    var y, q := x / a, x / a / b;
    DivBounds(x, a);
    DivBounds(y, b);
    Nested(x, a, b, y, q);
    DivUnique(x, a * b, q);
  }

  lemma Nested(x: nat, a: nat, b: nat, y: nat, q: nat)
    requires a > 0 && b > 0 && y * a <= x < y * a + a && q * b <= y < q * b + b
    ensures a * b > 0 && q * (a * b) <= x < q * (a * b) + a * b
  {
    MulLe(q * b, y, a);
    MulLe(y + 1, q * b + b, a);
    Regroup(q, a, b);
  }

  lemma Regroup(q: nat, a: nat, b: nat)
    ensures q * b * a == q * (a * b) && (q * b + b) * a == q * (a * b) + a * b
  {
    assert (q * b + b) * a == q * b * a + b * a;
  }

  lemma PageMacros(size: U32)
    ensures AlignDown(size, 4096) == size / 4096 * 4096
    ensures AlignNext(size, 4096) == if size > 0xFFFFF000 then 0 else (size + 4095) / 4096 * 4096
  {
  }

  lemma NextPageBound(x: U32)
    requires x <= 0xFFFFF000
    ensures x <= AlignNext(x, 4096) <= x + 4095 && AlignNext(x, 4096) % 4096 == 0
  {
    hide AlignNext;
    PageMacros(x);
  }

  // The frame range of kpm_enable and kpm_disable, with the 32-bit clamp to the end of memory.
  function ClampedLimit(nframes: nat, base: U32, limit: U32): U32 {
    if (base + limit) % 0x1_0000_0000 / 4096 > nframes then (nframes * 4096 - base) % 0x1_0000_0000 else limit
  }

  lemma ClampCode(nframes: nat, base: U32, limit: U32)
    ensures ClampedLimit(nframes, base, limit) ==
            if (base + limit) % 0x1_0000_0000 / 4096 > nframes then (nframes * 4096 - base) % 0x1_0000_0000 else limit
  {
  }

  predicate RangeOk(nframes: nat, base: U32, limit: U32) {
    base <= nframes * 4096 && base + limit < 0x1_0000_0000
  }

  lemma ClampStays(nframes: nat, base: U32, limit: U32)
    requires nframes < 0x10_0000 && base % 4096 == 0 && limit % 4096 == 0 && RangeOk(nframes, base, limit)
    ensures var lim := ClampedLimit(nframes, base, limit);
            && lim % 4096 == 0
            && base + lim == if base + limit <= nframes * 4096 then base + limit else nframes * 4096
  {
  }

  // The frames a call of kpm_enable visits are those entirely inside its range and memory.
  lemma EnableRange(nframes: nat, base: U32, limit: U32)
    requires nframes < 0x10_0000
    requires base % 4096 == 0 ==> RangeOk(nframes, base, AlignDown(limit, 4096))
    ensures IsAligned(base, 4096) <==> base % 4096 == 0
    ensures base % 4096 == 0 ==>
              var l := AlignDown(limit, 4096);
              var lim := ClampedLimit(nframes, base, l);
              && lim % 4096 == 0 && 0 <= base + lim <= nframes * 4096
              && Range(base / 4096, base / 4096 + lim / 4096) == Inside(nframes, base, limit)
  {
    hide AlignDown, AlignNext, ClampedLimit, Inside;
    PageMacros(base);
    PageMacros(limit);
    if base % 4096 == 0 {
      ClampStays(nframes, base, AlignDown(limit, 4096));
      InsideRange(nframes, base, limit);
    }
  }

  // Those of kpm_disable are the frames its range touches. A limit in the last page of addresses
  // rounds up to zero, and nothing is disabled.
  lemma DisableRange(nframes: nat, base: U32, limit: U32)
    requires nframes < 0x10_0000
    requires base % 4096 == 0 ==> RangeOk(nframes, base, AlignNext(limit, 4096))
    ensures IsAligned(base, 4096) <==> base % 4096 == 0
    ensures base % 4096 == 0 ==>
              var l := if IsAligned(limit, 4096) then limit else AlignNext(limit, 4096);
              var lim := ClampedLimit(nframes, base, l);
              && lim % 4096 == 0 && 0 <= base + lim <= nframes * 4096
              && Range(base / 4096, base / 4096 + lim / 4096) == if limit <= 0xFFFFF000 then Touching(nframes, base, limit) else {}
  {
    hide AlignDown, AlignNext, ClampedLimit, Touching;
    PageMacros(base);
    PageMacros(limit);
    if base % 4096 == 0 {
      ClampStays(nframes, base, AlignNext(limit, 4096));
      if limit <= 0xFFFFF000 {
        TouchingRange(nframes, base, limit);
      }
    }
  }

  // What kpm_free can be given: a chunk inside memory, an empty one, or one whose size wraps when
  // rounded up and whose end wraps too, for which nothing is done.
  predicate ReleaseOk(nframes: nat, addr: U32, size: U32) {
    addr + size <= nframes * 4096 || size == 0 || (size > 0xFFFFF000 && addr != 0)
  }

  // The frames a call of kpm_free visits are those its chunk touches.
  lemma ReleaseRange(nframes: nat, addr: U32, size: U32)
    requires nframes < 0x10_0000 && nframes % 1024 == 0
    requires addr % 4096 == 0 ==> ReleaseOk(nframes, addr, size)
    ensures IsAligned(addr, 4096) <==> addr % 4096 == 0
    ensures addr % 4096 == 0 ==>
              var count := AlignNext(size, 4096) / 4096;
              && WalkOk(nframes, addr, size)
              && (Idle(nframes, addr, size) ==> count == 0)
              && (!Idle(nframes, addr, size) ==> count == (size + 4095) / 4096 && addr / 4096 + count <= nframes)
              && Range(addr / 4096, addr / 4096 + count) ==
                 if addr + size <= nframes * 4096 then Touching(nframes, addr, size) else {}
  {
    hide AlignNext;
    PageMacros(size);
    if addr % 4096 == 0 && addr + size <= nframes * 4096 {
      TouchingRange(nframes, addr, size);
    }
  }

  predicate Visited(j: nat, addr: U32, size: U32) {
    addr / 4096 <= j < addr / 4096 + AlignNext(size, 4096) / 4096
  }

  // Every frame the loop of kpm_free visits exists, and so does every block its passes visit.
  ghost predicate ReleaseInBounds(nframes: nat, addr: U32, size: U32) {
    && (forall j: nat :: Visited(j, addr, size) ==> j < nframes)
    && (addr < Sum(addr, size) ==>
          forall n :: 1 <= n < NORDERS ==> BlockOf((Sum(addr, size) - 1) / 4096, n) < NBlocks(nframes, n))
  }

  // kpm_free checks nothing but alignment: it keeps to its bitmaps exactly for these chunks.
  lemma ReleaseOkExact(nframes: nat, addr: U32, size: U32)
    requires nframes % 1024 == 0 && nframes < 0x10_0000 && addr % 4096 == 0
    ensures ReleaseInBounds(nframes, addr, size) <==> ReleaseOk(nframes, addr, size)
  {
    hide ReleaseInBounds;
    if ReleaseOk(nframes, addr, size) {
      ReleaseStays(nframes, addr, size);
    } else if size <= 0xFFFFF000 {
      FrameStrays(nframes, addr, size);
    } else {
      BlockStrays(nframes, size);
    }
  }

  lemma ReleaseStays(nframes: nat, addr: U32, size: U32)
    requires nframes % 1024 == 0 && nframes < 0x10_0000 && addr % 4096 == 0 && ReleaseOk(nframes, addr, size)
    ensures ReleaseInBounds(nframes, addr, size)
  {
    hide AlignNext, NBlocks, Sum, BlockOf;
    PageMacros(size);
    SumWraps(addr, size);
    var end := Sum(addr, size);
    if addr < end {
      forall n | 1 <= n < NORDERS
        ensures BlockOf((end - 1) / 4096, n) < NBlocks(nframes, n)
      {
        BlockInRange(nframes, (end - 1) / 4096, n);
      }
    }
  }

  lemma FrameStrays(nframes: nat, addr: U32, size: U32)
    requires addr % 4096 == 0 && 0 < size <= 0xFFFFF000 && addr + size > nframes * 4096
    ensures !ReleaseInBounds(nframes, addr, size)
  {
    hide AlignNext, NBlocks, Sum, BlockOf;
    PageMacros(size);
    assert Visited(addr / 4096 + (size + 4095) / 4096 - 1, addr, size);
  }

  lemma BlockStrays(nframes: nat, size: U32)
    requires nframes % 1024 == 0 && nframes < 0x10_0000 && size > 0xFFFFF000
    ensures !ReleaseInBounds(nframes, 0, size)
  {
    hide AlignNext, NBlocks, Sum, BlockOf;
    SumWraps(0, size);
    LastBlock(nframes, size);
  }

  lemma SumWraps(a: U32, b: U32)
    ensures Sum(a, b) == if a + b < 0x1_0000_0000 then a + b else a + b - 0x1_0000_0000
  {
  }

  lemma LastBlock(nframes: nat, size: U32)
    requires nframes % 1024 == 0 && nframes < 0x10_0000 && size > 0xFFFFF000
    ensures BlockOf((size - 1) / 4096, 10) >= NBlocks(nframes, 10)
  {
    NBlocksExact(nframes, 10, nframes / 1024);
    assert Pow2(5) == 32;
    Pow2Add(5, 5);
    hide NBlocks, Pow2;
  }

  // Every index the loops of kpm_enable and kpm_disable use is below nframes exactly when the
  // range starts inside memory and its end does not wrap a 32-bit word.
  lemma RangeOkExact(nframes: nat, base: U32, limit: U32)
    requires nframes < 0x10_0000 && base % 4096 == 0 && limit % 4096 == 0
    ensures RangeOk(nframes, base, limit) <==> base / 4096 + ClampedLimit(nframes, base, limit) / 4096 <= nframes
  {
  }

  // A sum of addresses, in 32 bits.
  function Sum(a: U32, b: U32): U32 {
    (a + b) % 0x1_0000_0000
  }

  // The walk of kpm_update_order stays in memory, or is empty.
  predicate WalkOk(nframes: nat, start: U32, limit: U32) {
    start + limit <= nframes * 4096 || Sum(start, limit) <= start
  }

  predicate Idle(nframes: nat, start: U32, limit: U32) {
    limit == 0 || start + limit > nframes * 4096
  }

  lemma WalkEnd(nframes: nat, start: U32, limit: U32)
    requires nframes < 0x10_0000 && WalkOk(nframes, start, limit)
    ensures Idle(nframes, start, limit) ==> Sum(start, limit) <= start
    ensures !Idle(nframes, start, limit) ==> start < Sum(start, limit) == start + limit <= nframes * 4096
  {
  }

  // The walk of kpm_update_order over the blocks that meet [start, end): base lies in block k,
  // or past the end when block k - 1 was the last one.
  ghost predicate Walk(nframes: nat, start: U32, end: U32, n: nat, base: U32, k: nat) {
    && nframes % 1024 == 0 && nframes < 0x10_0000 && 1 <= n < NORDERS
    && (start < end ==> end <= nframes * 4096)
    && BlockOf(start / 4096, n) <= k
    && (base < end ==> k == BlockOf(base / 4096, n))
    && (base >= end ==> if start < end then k == BlockOf((end - 1) / 4096, n) + 1
                        else k == BlockOf(start / 4096, n))
    && (start >= end ==> base == start)
  }

  lemma NextBlock(nframes: nat, start: U32, end: U32, n: nat, base: U32, k: nat)
    requires Walk(nframes, start, end, n, base, k) && base < end
    ensures base / Pow2(n) / 4096 == k < NBlocks(nframes, n)
    ensures base < AlignNextForce(base, 4096 * Pow2(n)) < 0x1_0000_0000
    ensures Walk(nframes, start, end, n, AlignNextForce(base, 4096 * Pow2(n)), k + 1)
  {
    var d := 4096 * Pow2(n);
    DivDiv(base, 4096, Pow2(n));
    DivDiv(base, Pow2(n), 4096);
    DivDiv(end - 1, 4096, Pow2(n));
    BlockInRange(nframes, base / 4096, n);
    NextMultiple(base, n);
    var next := AlignNextForce(base, d);
    DivDiv(next, 4096, Pow2(n));
    StepOver(base, end, d);
  }

  lemma NextMultiple(base: U32, n: nat)
    requires n < NORDERS && base < 0xFFC0_0000
    ensures 4096 * Pow2(n) > 0
    ensures AlignNextForce(base, 4096 * Pow2(n)) == (base / (4096 * Pow2(n)) + 1) * (4096 * Pow2(n))
    ensures AlignNextForce(base, 4096 * Pow2(n)) < 0x1_0000_0000
  {
    BlockSize(n);
    SumRounds(base, 4096 * Pow2(n));
  }

  lemma SumRounds(base: U32, d: nat)
    requires d > 0 && base + d < 0x1_0000_0000
    ensures (base + d) % 0x1_0000_0000 - (base + d) % 0x1_0000_0000 % d == (base / d + 1) * d < 0x1_0000_0000
  {
    assert (base + d) % 0x1_0000_0000 == base + d;
    DivBounds(base, d);
    assert (base / d + 1) * d == base / d * d + d;
    DivUnique(base + d, d, base / d + 1);
  }

  lemma StepOver(base: nat, end: nat, d: nat)
    requires d > 0 && base < end
    ensures var next := (base / d + 1) * d;
            && base < next && next / d == base / d + 1
            && (next >= end ==> (end - 1) / d == base / d)
  {
    var k := base / d;
    DivBounds(base, d);
    assert (k + 1) * d == k * d + d;
    DivUnique((k + 1) * d, d, k + 1);
    if (k + 1) * d >= end {
      DivUnique(end - 1, d, k);
    }
  }

  // find_best_fit_order
  method FindBestFitOrder(size: U32) returns (order: nat)
    ensures order == BestFit(AlignNext(size, 4096) / 4096)
  {
    var need := AlignNext(size, 4096) / 4096;
    for n := 0 to NORDERS
      invariant n <= 10 ==> BestFit(need) == BestFit(need, n)
      invariant n == 11 ==> BestFit(need) == 10
    {
      if Pow2(n) >= need {
        return n;
      }
    }
    return NORDERS - 1;
  }

  // The order chosen is the least whose blocks cover the request, or the largest; exactly for
  // requests that do not wrap when rounded up to pages.
  ghost predicate CoversBest(size: U32, order: nat) {
    && order <= 10
    && (order == 10 || 4096 * Pow2(order) >= size)
    && forall m :: 0 <= m < order ==> 4096 * Pow2(m) < size
  }

  lemma BestFitExact(size: U32)
    ensures CoversBest(size, BestFit(AlignNext(size, 4096) / 4096)) <==> size <= 0xFFFFF000
  {
    PageMacros(size);
    if size <= 0xFFFFF000 {
      var need := AlignNext(size, 4096) / 4096;
      assert need == (size + 4095) / 4096;
      forall m | 0 <= m < BestFit(need)
        ensures 4096 * Pow2(m) < size
      {
      }
    } else {
      assert BestFit(0) == 0;
      assert Pow2(0) == 1;
    }
  }

  lemma Distribute(i: nat, p: nat)
    ensures (i + 1) * p == i * p + p && i * 4096 * p == i * p * 4096
  {
  }

  lemma BlockFits(nframes: nat, o: nat, i: nat)
    requires nframes % 1024 == 0 && o < NORDERS && i < NBlocks(nframes, o)
    ensures i * Pow2(o) + Pow2(o) == (i + 1) * Pow2(o) <= nframes
    ensures i * 4096 * Pow2(o) == i * Pow2(o) * 4096
    ensures Span(i * Pow2(o), Pow2(o)) == Range(i * Pow2(o), i * Pow2(o) + Pow2(o))
  {
    NBlocksExact(nframes, o, nframes / 1024);
    MulLe(i + 1, NBlocks(nframes, o), Pow2(o));
    hide NBlocks, Pow2;
    Distribute(i, Pow2(o));
  }
}
