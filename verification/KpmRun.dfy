// Whole runs of the page allocator: what every sequence of allocations and releases keeps, and the
// client loop of kernel/nsh/builtins/alloc.c.

module Blocks {
  import opened Frames

  // A run of frames handed out by one call of kpm_alloc.
  datatype Block = Block(first: nat, count: nat) {
    ghost function Frames(): set<nat> {
      Span(first, count)
    }
  }

  function Total(bs: seq<Block>): nat {
    if bs == [] then 0 else Total(bs[..|bs| - 1]) + bs[|bs| - 1].count
  }

  ghost function Covered(bs: seq<Block>): set<nat> {
    set k, f | 0 <= k < |bs| && f in bs[k].Frames() :: f
  }

  ghost predicate Disjoint(bs: seq<Block>) {
    forall j, k :: 0 <= j < k < |bs| ==> bs[j].Frames() !! bs[k].Frames()
  }

  lemma CoveredAppend(bs: seq<Block>, b: Block)
    ensures Covered(bs + [b]) == Covered(bs) + b.Frames()
    ensures Total(bs + [b]) == Total(bs) + b.count
    ensures Disjoint(bs) && b.Frames() !! Covered(bs) ==> Disjoint(bs + [b])
  {
    var cs := bs + [b];
    assert cs[..|cs| - 1] == bs && cs[|cs| - 1] == b;
    forall f
      ensures f in Covered(cs) <==> f in Covered(bs) + b.Frames()
    {
      if f in b.Frames() {
        assert f in cs[|bs|].Frames();
      }
      if f in Covered(bs) {
        var k :| 0 <= k < |bs| && f in bs[k].Frames();
        assert f in cs[k].Frames();
      }
    }
    if Disjoint(bs) && b.Frames() !! Covered(bs) {
      forall j, k | 0 <= j < k < |cs|
        ensures cs[j].Frames() !! cs[k].Frames()
      {
        assert cs[j] == bs[j];
        assert cs[j].Frames() <= Covered(bs);
      }
    }
  }

  function Without(bs: seq<Block>, k: nat): seq<Block>
    requires k < |bs|
  {
    bs[..k] + bs[k + 1..]
  }

  lemma CoveredWithout(bs: seq<Block>, k: nat)
    requires Disjoint(bs) && k < |bs|
    ensures Covered(Without(bs, k)) == Covered(bs) - bs[k].Frames()
    ensures bs[k].Frames() <= Covered(bs)
    ensures Disjoint(Without(bs, k))
  {
    var cs := Without(bs, k);
    forall f
      ensures f in Covered(cs) <==> f in Covered(bs) - bs[k].Frames()
    {
      if f in Covered(cs) {
        var j :| 0 <= j < |cs| && f in cs[j].Frames();
        var j' := if j < k then j else j + 1;
        assert cs[j] == bs[j'] && bs[j'].Frames() !! bs[k].Frames();
      }
      if f in Covered(bs) - bs[k].Frames() {
        var j :| 0 <= j < |bs| && f in bs[j].Frames();
        assert cs[if j < k then j else j - 1] == bs[j];
      }
    }
  }

  lemma DisjointPrefix(bs: seq<Block>, n: nat)
    requires Disjoint(bs) && n < |bs|
    ensures Disjoint(bs[..n]) && Covered(bs[..n]) !! bs[n].Frames()
  {
    var init := bs[..n];
    assert forall j :: 0 <= j < n ==> init[j] == bs[j];
  }

  // Disjoint blocks cover as many frames as their sizes add up to.
  lemma {:induction false} CoveredSize(bs: seq<Block>)
    requires Disjoint(bs)
    ensures |Covered(bs)| == Total(bs)
  {
    if bs == [] {
      assert Covered(bs) == {};
    } else {
      var n := |bs| - 1;
      DisjointPrefix(bs, n);
      SpanSize(bs[n].first, bs[n].count);
      CoveredAppend(bs[..n], bs[n]);
      assert bs[..n] + [bs[n]] == bs;
      hide Covered, Disjoint, Total;
      CoveredSize(bs[..n]);
    }
  }
}

module KpmRun {
  import opened Words
  import opened Align
  import opened BuddyTree
  import opened Frames
  import opened Blocks
  import opened KpmBytes
  import opened KpmLayout
  import opened KpmRanges
  import opened KpmBoot
  import opened Kpm

  // The allocator as its callers see it, with the chunks they hold.
  datatype World = World(nframes: nat, enabled: set<nat>, free: set<nat>, live: seq<Block>)

  // A request: allocate, or give back the k-th live chunk.
  datatype Op = Allocate(size: U32) | GiveBack(k: nat)

  function BestFitOf(size: U32): (r: nat)
    ensures r < NORDERS
  {
    BestFit(AlignNext(size, 4096) / 4096)
  }

  ghost predicate Sane(w: World) {
    w.nframes % 1024 == 0 && w.free <= Range(0, w.nframes)
  }

  // Block i of order o.
  function BuddyBlock(o: nat, i: nat): Block {
    Block(i * Pow2(o), Pow2(o))
  }

  // The block kpm_alloc would hand out for this request.
  ghost function Picked(w: World, size: U32): (b: Block)
    requires Sane(w) && w.free != {}
    ensures exists o, i :: IsPick(w.free, w.nframes, BestFitOf(size), o, i) && b == BuddyBlock(o, i)
  {
    PickExists(w.free, w.nframes, BestFitOf(size));
    var o, i :| IsPick(w.free, w.nframes, BestFitOf(size), o, i);
    BuddyBlock(o, i)
  }

  ghost function Step(w: World, op: Op): World
    requires Sane(w)
  {
    match op
    case Allocate(size) =>
      if w.free == {} then w
      else
        var b := Picked(w, size);
        w.(free := w.free - b.Frames(), live := w.live + [b])
    case GiveBack(k) =>
      if k >= |w.live| then w
      else w.(free := w.free + w.live[k].Frames() * w.enabled, live := Without(w.live, k))
  }

  ghost predicate IsBuddyBlock(b: Block) {
    exists o: nat, i: nat :: o < NORDERS && b == BuddyBlock(o, i)
  }

  // Such a block is a power of two of frames, up to 1024, and aligned to its size.
  lemma BuddyBlockAligned(b: Block)
    requires IsBuddyBlock(b)
    ensures 1 <= b.count <= 1024 && b.first % b.count == 0
    ensures exists o: nat :: o <= 10 && b.count == Pow2(o)
  {
    var o: nat, i: nat :| o < NORDERS && b == BuddyBlock(o, i);
    BlockSize(o);
    DivUnique(b.first, b.count, i);
  }

  // What every run keeps: live chunks are aligned powers of two, pairwise disjoint, and together
  // with the free frames they partition the frames enabled at the start.
  ghost predicate Safe(w: World) {
    && Sane(w) && w.enabled <= Range(0, w.nframes)
    && Disjoint(w.live)
    && (forall k :: 0 <= k < |w.live| ==> IsBuddyBlock(w.live[k]))
    && Covered(w.live) !! w.free
    && Covered(w.live) + w.free == w.enabled
  }

  lemma StepSafe(w: World, op: Op)
    requires Safe(w)
    ensures Safe(Step(w, op)) && Step(w, op).enabled == w.enabled && Step(w, op).nframes == w.nframes
  {
    match op
    case Allocate(size) =>
      if w.free != {} {
        var b := Picked(w, size);
        PickedBlock(w, size);
        CoveredAppend(w.live, b);
        var live := w.live + [b];
        forall k | 0 <= k < |live|
          ensures IsBuddyBlock(live[k])
        {
          assert k < |w.live| ==> live[k] == w.live[k];
        }
      }
    case GiveBack(k) =>
      if k < |w.live| {
        CoveredWithout(w.live, k);
        var live := Without(w.live, k);
        forall j | 0 <= j < |live|
          ensures IsBuddyBlock(live[j])
        {
          assert live[j] == w.live[if j < k then j else j + 1];
        }
      }
  }

  lemma PickedBlock(w: World, size: U32)
    requires Sane(w) && w.free != {}
    ensures IsBuddyBlock(Picked(w, size)) && Picked(w, size).Frames() <= w.free && Picked(w, size).count > 0
  {
    hide BestFitOf;
    var b := Picked(w, size);
    var o, i :| IsPick(w.free, w.nframes, BestFitOf(size), o, i) && b == BuddyBlock(o, i);
    Distribute(i, Pow2(o));
  }

  ghost function Run(w: World, ops: seq<Op>): World
    requires Safe(w)
    decreases |ops|
  {
    if ops == [] then w else StepSafe(w, ops[0]); Run(Step(w, ops[0]), ops[1..])
  }

  // Over any run from a boot in which exactly the enabled frames are free: every live chunk is
  // aligned to its size, chunks are pairwise disjoint and made only of enabled frames, no frame is
  // both free and live, the frame count is conserved, and once every chunk has been given back the
  // free frames are those of the start.
  lemma {:induction false} RunSafe(w: World, ops: seq<Op>)
    requires Safe(w)
    ensures var w' := Run(w, ops);
            && Safe(w') && w'.enabled == w.enabled
            && |w'.free| + Total(w'.live) == |w.enabled|
            && (w'.live == [] ==> w'.free == w.enabled)
    decreases |ops|
  {
    if ops == [] {
      CoveredSize(w.live);
      assert |Covered(w.live) + w.free| == |Covered(w.live)| + |w.free|;
    } else {
      StepSafe(w, ops[0]);
      RunSafe(Step(w, ops[0]), ops[1..]);
    }
  }

  // Frame 0, the kernel image and the allocator's own bitmaps are never handed out.
  lemma NeverHandsOutReserved(entries: seq<MmapEntry>, memkb: U32, ek: U32, size: nat, ops: seq<Op>)
    ensures var n := FramesOf(memkb);
            var start := Available(n, entries) - Reserved(n, ek, size);
            && Safe(World(n, start, start, []))
            && forall b :: b in Run(World(n, start, start, []), ops).live ==> b.Frames() <= start
  {
    var n := FramesOf(memkb);
    var start := Available(n, entries) - Reserved(n, ek, size);
    FramesBound(memkb);
    AvailableInMemory(n, entries);
    var w := World(n, start, start, []);
    assert Covered(w.live) == {};
    assert Safe(w);
    RunSafe(w, ops);
    var w' := Run(w, ops);
    forall b | b in w'.live
      ensures b.Frames() <= start
    {
      var k :| 0 <= k < |w'.live| && w'.live[k] == b;
      assert b.Frames() <= Covered(w'.live);
    }
  }

  lemma {:induction false} AvailableInMemory(n: nat, entries: seq<MmapEntry>)
    ensures Available(n, entries) <= Range(0, n)
  {
    if entries != [] && entries[0].size != 0 {
      AvailableInMemory(n, entries[1..]);
    }
  }

  // A caller that replays any list of requests on the allocator sees exactly the run above.
  method Replay(buddy: Buddy, ops: seq<Op>) returns (ghost w: World)
    requires buddy.Valid() && buddy.Free() == buddy.Enabled()
    modifies buddy.mem, buddy`rows
    ensures buddy.Valid() && buddy.Enabled() == old(buddy.Enabled())
    ensures var start := World(buddy.nframes, old(buddy.Enabled()), old(buddy.Enabled()), []);
            Safe(start) && w == Run(start, ops) && buddy.Free() == w.free
  {
    buddy.FreeInMemory();
    hide *;
    StartSafe(buddy.nframes, buddy.Free());
    w := World(buddy.nframes, buddy.Free(), buddy.Free(), []);
    ghost var start := w;
    RunNil(start);
    var held: seq<Block> := [];
    var chunk := new Chunk();
    assert ops[..0] == [];
    for k := 0 to |ops|
      invariant buddy.Valid() && buddy.Enabled() == w.enabled == start.enabled && buddy.Free() == w.free
      invariant Safe(start) && Safe(w) && w == Run(start, ops[..k]) && w.nframes == start.nframes == buddy.nframes
      invariant held == w.live
    {
      RunSnoc(start, ops, k);
      StepSafe(w, ops[k]);
      match ops[k] {
        case Allocate(size) =>
          var ret; ghost var o, i;
          ret, o, i := buddy.Alloc(chunk, size);
          StepAllocates(w, size, o, i);
          if ret == 0 {
            BlockOfChunk(chunk.addr, chunk.size, o, i);
            held := held + [Block(chunk.addr / 4096, chunk.size / 4096)];
          }
        case GiveBack(j) =>
          StepGivesBack(w, j);
          if j < |held| {
            chunk.addr := held[j].first * 4096;
            chunk.size := held[j].count * 4096;
            buddy.Release(chunk);
            held := Without(held, j);
          }
      }
      w := Step(w, ops[k]);
    }
    assert ops[..|ops|] == ops;
  }

  lemma StartSafe(nframes: nat, free: set<nat>)
    requires nframes % 1024 == 0 && free <= Range(0, nframes)
    ensures Safe(World(nframes, free, free, []))
  {
    assert Covered([]) == {};
  }

  lemma RunNil(w: World)
    requires Safe(w)
    ensures Run(w, []) == w
  {
  }

  lemma {:induction false} RunSnoc(w: World, ops: seq<Op>, k: nat)
    requires Safe(w) && k < |ops|
    ensures var v := Run(w, ops[..k]); Safe(v) && Run(w, ops[..k + 1]) == Step(v, ops[k])
    decreases k
  {
    if k == 0 {
      assert ops[..0] == [] && ops[..1] == [ops[0]];
      StepSafe(w, ops[0]);
      assert Run(Step(w, ops[0]), []) == Step(w, ops[0]);
    } else {
      StepSafe(w, ops[0]);
      RunSnoc(Step(w, ops[0]), ops[1..], k - 1);
      assert ops[..k][1..] == ops[1..][..k - 1];
      assert ops[..k + 1][1..] == ops[1..][..k];
    }
  }

  lemma StepAllocates(w: World, size: U32, o: nat, i: nat)
    requires Safe(w)
    ensures w.free == {} ==> Step(w, Allocate(size)) == w
    ensures w.free != {} && IsPick(w.free, w.nframes, BestFitOf(size), o, i) ==>
              Step(w, Allocate(size)) == w.(free := w.free - BuddyBlock(o, i).Frames(), live := w.live + [BuddyBlock(o, i)])
  {
    hide BestFitOf, IsPick, BuddyBlock;
    if w.free != {} && IsPick(w.free, w.nframes, BestFitOf(size), o, i) {
      var b := Picked(w, size);
      var o', i' :| IsPick(w.free, w.nframes, BestFitOf(size), o', i') && b == BuddyBlock(o', i');
      PickUnique(w.free, w.nframes, BestFitOf(size), o, i, o', i');
    }
  }

  lemma BlockOfChunk(addr: nat, size: nat, o: nat, i: nat)
    requires addr == i * Pow2(o) * 4096 && size == Pow2(o) * 4096
    ensures Block(addr / 4096, size / 4096) == BuddyBlock(o, i)
    ensures BuddyBlock(o, i).Frames() == Span(i * Pow2(o), Pow2(o))
  {
  }

  lemma StepGivesBack(w: World, j: nat)
    requires Safe(w)
    ensures j >= |w.live| ==> Step(w, GiveBack(j)) == w
    ensures j < |w.live| ==>
              var b := w.live[j];
              && b.first * 4096 + b.count * 4096 <= w.nframes * 4096
              && b.first * 4096 % 4096 == 0
              && Step(w, GiveBack(j)) ==
                 w.(free := w.free + Touching(w.nframes, b.first * 4096, b.count * 4096) * w.enabled, live := Without(w.live, j))
  {
    if j < |w.live| {
      var b := w.live[j];
      assert IsBuddyBlock(b);
      CoveredWithout(w.live, j);
      assert b.first + b.count - 1 in Span(b.first, b.count);
      assert b.first + b.count <= w.nframes;
      TouchingRange(w.nframes, b.first * 4096, b.count * 4096);
    }
  }

  // Allocating and giving the chunk back restores every bitmap byte.
  method AllocThenRelease(buddy: Buddy, chunk: Chunk, size: U32) returns (ret: int)
    requires buddy.Valid() && buddy.Tiled()
    modifies buddy.mem, buddy`rows, chunk
    ensures buddy.Valid() && buddy.rows == old(buddy.rows)
    ensures ret == 0 <==> old(buddy.Free()) != {}
    ensures buddy.size == buddy.mem.Length >= SIZEOF_BUDDY
    ensures buddy.mem[SIZEOF_BUDDY..] == old(buddy.mem[SIZEOF_BUDDY..])
  {
    hide TiedTo, Layout, Offset, Tree, Shaped, NBlocks, NBytes, IsPick, BestFit, Touching, Pow2, Span;
    ghost var bytes, rows := buddy.mem[..], buddy.rows;
    buddy.FreeInMemory();
    ghost var o, i;
    ret, o, i := buddy.Alloc(chunk, size);
    if ret == 0 {
      RestoresFree(old(buddy.Free()), buddy.Enabled(), buddy.nframes, size, o, i, i * Pow2(o), Pow2(o));
      buddy.Release(chunk);
    }
    buddy.Determined(bytes, rows);
  }

  lemma RestoresFree(free: set<nat>, enabled: set<nat>, nframes: nat, size: U32, o: nat, i: nat, first: nat, count: nat)
    requires nframes % 1024 == 0 && IsPick(free, nframes, BestFitOf(size), o, i) && free <= enabled
    requires first == i * Pow2(o) && count == Pow2(o)
    ensures first + count <= nframes
    ensures free - Span(first, count) + Touching(nframes, first * 4096, count * 4096) * enabled == free
  {
    hide BestFitOf, Pow2, NBlocks;
    BlockFits(nframes, o, i);
    TouchingRange(nframes, first * 4096, count * 4096);
  }
}
