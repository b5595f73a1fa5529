// alloc_loop of kernel/nsh/builtins/alloc.c: repeated calls of kpm_alloc until a size is covered.

module AllocLoop {
  import opened Words
  import opened Align
  import opened BuddyTree
  import opened Frames
  import opened Blocks
  import opened KpmRanges
  import opened Kpm
  import opened KpmRun

  function Pages(size: nat): nat {
    (size + 4095) / 4096
  }

  // The pages needed: all are, and together they are enough.
  lemma PagesExact(size: nat)
    ensures size <= Pages(size) * 4096 < size + 4096
  {
  }

  // The loop succeeds exactly when enough frames are free, however they are scattered; the chunks
  // are disjoint blocks taken from the free frames, at most 2 * Pages(size) - 1 frames in all.
  method AllocLoop(buddy: Buddy, chunk: Chunk, request: U32) returns (ret: int, ghost taken: seq<Block>)
    requires buddy.Valid()
    modifies buddy.mem, buddy`rows, chunk
    ensures buddy.Valid()
    ensures ret == 0 || ret == -1
    ensures ret == 0 <==> |old(buddy.Free())| * 4096 >= request
    ensures Disjoint(taken) && forall k :: 0 <= k < |taken| ==> IsBuddyBlock(taken[k])
    ensures Covered(taken) <= old(buddy.Free()) && buddy.Free() == old(buddy.Free()) - Covered(taken)
    ensures ret == -1 ==> buddy.Free() == {}
    ensures ret == 0 ==> Total(taken) * 4096 >= request && (request == 0 ==> taken == [])
    ensures ret == 0 && request > 0 ==> Total(taken) <= 2 * Pages(request) - 1
  {
    hide Buddy.Valid, Buddy.Free, AlignNext, BestFit, IsPick, BuddyBlock, IsBuddyBlock, Covered, Total, Disjoint;
    ghost var free := buddy.Free();
    taken := [];
    var size: U32 := request;
    NothingTaken(free);
    while size > 0
      invariant buddy.Valid() && Taking(free, taken, buddy.Free())
      invariant Total(taken) * 4096 + size == request
      invariant size == 0 ==> request == 0 && taken == []
    {
      var r; ghost var o, i;
      r, o, i := buddy.Alloc(chunk, size);
      if r < 0 {
        TakenSize(free, taken);
        return -1, taken;
      }
      TakeOne(free, taken, buddy.nframes, size, o, i);
      taken := taken + [BuddyBlock(o, i)];
      if chunk.size >= size {
        LastChunk(size, o, Total(taken) - Pow2(o), request);
        TakenSize(free, taken);
        return 0, taken;
      }
      size := size - chunk.size;
    }
    return 0, taken;
  }

  // The chunks taken so far, against the frames that were free at the start.
  ghost predicate Taking(free: set<nat>, taken: seq<Block>, rest: set<nat>) {
    && Disjoint(taken) && Covered(taken) <= free && rest == free - Covered(taken)
    && forall k :: 0 <= k < |taken| ==> IsBuddyBlock(taken[k])
  }

  lemma NothingTaken(free: set<nat>)
    ensures Taking(free, [], free) && Total([]) == 0
  {
    assert Covered([]) == {};
  }

  lemma TakeOne(free: set<nat>, taken: seq<Block>, nframes: nat, size: U32, o: nat, i: nat)
    requires Taking(free, taken, free - Covered(taken)) && nframes % 1024 == 0
    requires IsPick(free - Covered(taken), nframes, BestFit(AlignNext(size, 4096) / 4096), o, i)
    ensures Taking(free, taken + [BuddyBlock(o, i)], free - Covered(taken) - Span(i * Pow2(o), Pow2(o)))
    ensures Total(taken + [BuddyBlock(o, i)]) == Total(taken) + Pow2(o)
    ensures o <= BestFit(AlignNext(size, 4096) / 4096)
  {
    hide AlignNext, BestFit, IsPick, Pow2, Covered, Total, Disjoint, Range;
    var b := BuddyBlock(o, i);
    PickIsFree(free - Covered(taken), nframes, BestFit(AlignNext(size, 4096) / 4096), o, i);
    CoveredAppend(taken, b);
    var all := taken + [b];
    forall k | 0 <= k < |all|
      ensures IsBuddyBlock(all[k])
    {
      assert k < |taken| ==> all[k] == taken[k];
    }
  }

  lemma TakenSize(free: set<nat>, taken: seq<Block>)
    requires Disjoint(taken) && Covered(taken) <= free
    ensures Total(taken) <= |free|
    ensures free - Covered(taken) == {} ==> Total(taken) == |free|
  {
    CoveredSize(taken);
    assert free == Covered(taken) + (free - Covered(taken));
    assert |free| == |Covered(taken)| + |free - Covered(taken)|;
  }

  // The chunk that completes a request is less than twice what is still needed.
  lemma LastChunk(size: U32, o: nat, before: nat, request: nat)
    requires 0 < size <= Pow2(o) * 4096 && o <= BestFit(AlignNext(size, 4096) / 4096)
    requires before * 4096 + size == request
    ensures before + Pow2(o) <= 2 * Pages(request) - 1
  {
    PageMacros(size);
    var need := AlignNext(size, 4096) / 4096;
    var best := BestFit(need);
    Pow2Monotone(o, best);
    BlockSize(best);
    assert size <= 0x40_0000 by { Pow2Monotone(o, best); }
    assert need == Pages(size);
    if best > 0 {
      assert Pow2(best - 1) < need;
    }
  }
}
