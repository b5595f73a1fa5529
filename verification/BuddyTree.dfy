// The bitmaps of the buddy allocator as rows of bits, one row for each order: the layout of the
// rows, the tree they form, and how one pass over the rows restores that tree after an edit of
// order 0.

module BuddyTree {
  import opened Words
  import opened Frames

  const NORDERS: nat := 11

  // rows[o][i] is the bit of block i at order o: set when the block is not entirely free.
  type Rows = seq<seq<bool>>

  // The number of blocks at each order, halved from one order to the next.
  function NBlocks(nframes: nat, o: nat): nat {
    if o == 0 then nframes else NBlocks(nframes, o - 1) / 2
  }

  function NBytes(nbits: nat): nat {
    (nbits + 7) / 8
  }

  lemma {:induction false} NBlocksExact(nframes: nat, o: nat, k: nat)
    requires nframes == k * 1024 && o <= 10
    ensures NBlocks(nframes, o) == k * Pow2(10 - o)
    ensures NBlocks(nframes, o) * Pow2(o) == nframes
  {
    assert Pow2(10) == 1024 by { assert Pow2(5) == 32; Pow2Add(5, 5); }
    if o > 0 {
      NBlocksExact(nframes, o - 1, k);
      Half(k, Pow2(10 - o));
      Twice(NBlocks(nframes, o), Pow2(o - 1));
    }
  }

  lemma Half(k: nat, p: nat)
    ensures k * (2 * p) / 2 == k * p && k * (2 * p) == k * p * 2
  {
    assert k * (2 * p) == 2 * (k * p);
  }

  lemma Twice(b: nat, p: nat)
    ensures b * (2 * p) == 2 * b * p
  {
  }

  // Index of the block of order n that holds frame x; one order up, the index is halved.
  function BlockOf(x: nat, n: nat): nat {
    DivNonNegative(x, Pow2(n));
    x / Pow2(n)
  }

  lemma BlockOfParent(x: nat, n: nat)
    requires n > 0
    ensures BlockOf(x, n) == BlockOf(x, n - 1) / 2
  {
    var p := Pow2(n - 1);
    var q := x / p / 2;
    DivBounds(x, p);
    DivBounds(x / p, 2);
    var r := x / p - 2 * q;
    assert x / p == 2 * q + r && 0 <= r <= 1;
    assert (x / p) * p == q * (2 * p) + r * p;
    assert 0 <= r * p <= p;
    DivUnique(x, 2 * p, q);
  }

  ghost predicate Shaped(rows: Rows, nframes: nat) {
    && nframes % 1024 == 0
    && |rows| == NORDERS
    && forall o :: 0 <= o < NORDERS ==> |rows[o]| == 8 * NBytes(NBlocks(nframes, o))
  }

  lemma RowBounds(rows: Rows, nframes: nat, o: nat)
    requires Shaped(rows, nframes) && o < NORDERS
    ensures NBlocks(nframes, o) <= |rows[o]|
    ensures o > 0 ==> NBlocks(nframes, o - 1) == 2 * NBlocks(nframes, o)
    ensures |rows[0]| == nframes
    ensures NBlocks(nframes, o) * Pow2(o) == nframes
  {
    hide NBlocks, Pow2, NBytes;
    BlockCounts(nframes, o);
    BytesCover(NBlocks(nframes, o));
    BytesCover(NBlocks(nframes, 0));
  }

  lemma BytesCover(n: nat)
    ensures n <= 8 * NBytes(n) && (n % 8 == 0 ==> 8 * NBytes(n) == n)
  {
  }

  lemma BlockCounts(nframes: nat, o: nat)
    requires nframes % 1024 == 0 && o < NORDERS
    ensures o > 0 ==> NBlocks(nframes, o - 1) == 2 * NBlocks(nframes, o)
    ensures NBlocks(nframes, o) * Pow2(o) == nframes
    ensures NBlocks(nframes, 0) == nframes
  {
    var k := nframes / 1024;
    NBlocksExact(nframes, o, k);
    if o > 0 {
      NBlocksExact(nframes, o - 1, k);
      Half(k, Pow2(10 - o));
    }
  }

  // Order o agrees with order o - 1: a block is marked iff one of its halves is.
  ghost predicate Agrees(parent: seq<bool>, child: seq<bool>, nblocks: nat) {
    && nblocks <= |parent| && 2 * nblocks <= |child|
    && forall i :: 0 <= i < nblocks ==> parent[i] == (child[2 * i] || child[2 * i + 1])
  }

  // The invariant of the allocator's bitmaps: every order agrees with the one below it, and the
  // bits past the last block of an order stay set.
  ghost predicate Tree(rows: Rows, nframes: nat) {
    && Shaped(rows, nframes)
    && (forall o :: 1 <= o < NORDERS ==> Agrees(rows[o], rows[o - 1], NBlocks(nframes, o)))
    && (forall o, i :: 0 <= o < NORDERS && NBlocks(nframes, o) <= i < |rows[o]| ==> rows[o][i])
  }

  ghost function AllTaken(nframes: nat): Rows {
    seq(NORDERS, o requires 0 <= o < NORDERS => seq(8 * NBytes(NBlocks(nframes, o)), _ => true))
  }

  lemma AllTakenTree(rows: Rows, nframes: nat)
    requires nframes % 1024 == 0 && rows == AllTaken(nframes)
    ensures Tree(rows, nframes) && |rows| == NORDERS && |rows[0]| == nframes && ClearIn(rows[0]) == {}
    ensures forall j :: 0 <= j < nframes ==> rows[0][j]
  {
    AllTakenShape(rows, nframes);
    hide AllTaken;
    RowBounds(rows, nframes, 0);
    forall o | 1 <= o < NORDERS
      ensures Agrees(rows[o], rows[o - 1], NBlocks(nframes, o))
    {
      RowBounds(rows, nframes, o);
      RowBounds(rows, nframes, o - 1);
      hide NBlocks;
    }
    hide NBlocks;
  }

  lemma AllTakenShape(rows: Rows, nframes: nat)
    requires nframes % 1024 == 0 && rows == AllTaken(nframes)
    ensures Shaped(rows, nframes)
    ensures forall o, i :: 0 <= o < NORDERS && 0 <= i < |rows[o]| ==> rows[o][i]
  {
    hide NBlocks, NBytes;
  }

  // kpm_update_order recomputes the blocks lo..end-1 of one order from the order below.
  function Repaired(parent: seq<bool>, child: seq<bool>, lo: nat, end: nat): (r: seq<bool>)
    ensures |r| == |parent|
  {
    seq(|parent|, i requires 0 <= i < |parent| =>
      if lo <= i < end && 2 * i + 1 < |child| then child[2 * i] || child[2 * i + 1] else parent[i])
  }

  ghost predicate SameOutside(a: seq<bool>, b: seq<bool>, lo: nat, hi: nat) {
    |a| == |b| && forall i :: 0 <= i < |a| && !(lo <= i <= hi) ==> a[i] == b[i]
  }

  // The state of the repair after orders 1..n-1 have been visited: these orders agree with the
  // order below, every order has changed only on the blocks that meet frames first..last, and the
  // orders from n up are still those of the tree before the edit.
  ghost predicate RepairedBelow(rows: Rows, before: Rows, nframes: nat, first: nat, last: nat, n: nat)
    requires 1 <= n <= NORDERS
  {
    && Tree(before, nframes) && Shaped(rows, nframes)
    && first <= last < nframes
    && (forall o :: 1 <= o < n ==> Agrees(rows[o], rows[o - 1], NBlocks(nframes, o)))
    && (forall o :: 0 <= o < n ==> SameOutside(rows[o], before[o], BlockOf(first, o), BlockOf(last, o)))
    && (forall o :: n <= o < NORDERS ==> rows[o] == before[o])
  }

  lemma RepairStarts(rows: Rows, before: Rows, nframes: nat, first: nat, last: nat)
    requires Tree(before, nframes) && first <= last < nframes
    requires Shaped(rows, nframes) && rows == before[0 := rows[0]]
    requires SameOutside(rows[0], before[0], first, last)
    ensures RepairedBelow(rows, before, nframes, first, last, 1)
  {
    assert BlockOf(first, 0) == first && BlockOf(last, 0) == last;
  }

  lemma BlockInRange(nframes: nat, x: nat, o: nat)
    requires nframes % 1024 == 0 && x < nframes && o < NORDERS
    ensures BlockOf(x, o) < NBlocks(nframes, o)
  {
    NBlocksExact(nframes, o, nframes / 1024);
    DivBounds(x, Pow2(o));
    if BlockOf(x, o) >= NBlocks(nframes, o) {
      MulLe(NBlocks(nframes, o), BlockOf(x, o), Pow2(o));
    }
  }

  lemma MulLe(a: nat, b: nat, p: nat)
    requires a <= b
    ensures a * p <= b * p
  {
  }

  lemma RepairOrder(rows: Rows, before: Rows, nframes: nat, first: nat, last: nat, n: nat)
    requires 1 <= n < NORDERS
    requires RepairedBelow(rows, before, nframes, first, last, n)
    ensures var row := Repaired(rows[n], rows[n - 1], BlockOf(first, n), BlockOf(last, n) + 1);
            RepairedBelow(rows[n := row], before, nframes, first, last, n + 1)
  {
    hide BlockOf, NBlocks, NBytes, Pow2, Repaired, Agrees, SameOutside;
    RowBounds(rows, nframes, n);
    RowBounds(rows, nframes, n - 1);
    BlockOfParent(first, n);
    BlockOfParent(last, n);
    RepairRow(before[n], rows[n - 1], before[n - 1], NBlocks(nframes, n), BlockOf(first, n - 1), BlockOf(last, n - 1));
    var rows' := rows[n := Repaired(rows[n], rows[n - 1], BlockOf(first, n), BlockOf(last, n) + 1)];
    forall o | 1 <= o < n + 1
      ensures Agrees(rows'[o], rows'[o - 1], NBlocks(nframes, o))
    {
      assert o < n ==> Agrees(rows[o], rows[o - 1], NBlocks(nframes, o));
    }
  }

  // One order: recomputing the blocks above the part of the order below that changed.
  lemma RepairRow(parent: seq<bool>, child: seq<bool>, before: seq<bool>, nblocks: nat, first: nat, last: nat)
    requires Agrees(parent, before, nblocks) && SameOutside(child, before, first, last)
    ensures var row := Repaired(parent, child, first / 2, last / 2 + 1);
            Agrees(row, child, nblocks) && SameOutside(row, parent, first / 2, last / 2)
  {
    var row := Repaired(parent, child, first / 2, last / 2 + 1);
    forall i | 0 <= i < nblocks
      ensures row[i] == (child[2 * i] || child[2 * i + 1])
    {
      if !(first / 2 <= i <= last / 2) {
        assert parent[i] == (before[2 * i] || before[2 * i + 1]);
      }
    }
  }

  lemma RepairDone(rows: Rows, before: Rows, nframes: nat, first: nat, last: nat)
    requires RepairedBelow(rows, before, nframes, first, last, NORDERS)
    ensures Tree(rows, nframes)
  {
    forall o, i | 0 <= o < NORDERS && NBlocks(nframes, o) <= i < |rows[o]|
      ensures rows[o][i]
    {
      BlockInRange(nframes, last, o);
      assert SameOutside(rows[o], before[o], BlockOf(first, o), BlockOf(last, o));
      assert before[o][i];
    }
  }

  // What a bit means: it is set iff some frame of its block is taken.
  lemma {:induction false} BitMeansTaken(rows: Rows, nframes: nat, o: nat, i: nat)
    requires Tree(rows, nframes) && o < NORDERS && i < NBlocks(nframes, o)
    ensures (i + 1) * Pow2(o) <= nframes == |rows[0]|
    ensures rows[o][i] <==> exists j :: i * Pow2(o) <= j < (i + 1) * Pow2(o) && rows[0][j]
  {
    hide NBytes;
    RowBounds(rows, nframes, o);
    MulLe(i + 1, NBlocks(nframes, o), Pow2(o));
    if o == 0 {
    } else {
      var p := Pow2(o - 1);
      BitMeansTaken(rows, nframes, o - 1, 2 * i);
      BitMeansTaken(rows, nframes, o - 1, 2 * i + 1);
      Twice(i, p);
      Twice(i + 1, p);
      assert i * Pow2(o) == 2 * i * p && (2 * i + 1) * p == 2 * i * p + p;
      assert (i + 1) * Pow2(o) == (2 * i + 2) * p == (2 * i + 1 + 1) * p;
      assert Agrees(rows[o], rows[o - 1], NBlocks(nframes, o));
      assert rows[o][i] == (rows[o - 1][2 * i] || rows[o - 1][2 * i + 1]);
    }
  }

  // The orders above 0 carry no information of their own.
  lemma {:induction false} TreeDetermined(a: Rows, b: Rows, nframes: nat, o: nat)
    requires Tree(a, nframes) && Tree(b, nframes) && a[0] == b[0] && o < NORDERS
    ensures a[o] == b[o]
  {
    if o > 0 {
      TreeDetermined(a, b, nframes, o - 1);
      RowBounds(a, nframes, o);
      assert Agrees(a[o], a[o - 1], NBlocks(nframes, o)) && Agrees(b[o], b[o - 1], NBlocks(nframes, o));
      forall i | 0 <= i < |a[o]|
        ensures a[o][i] == b[o][i]
      {
        if i >= NBlocks(nframes, o) {
          assert a[o][i] && b[o][i];
        }
      }
    }
  }

  // So the free frames determine every row.
  lemma TreesDetermined(a: Rows, b: Rows, nframes: nat)
    requires Tree(a, nframes) && Tree(b, nframes) && |a| == |b| == NORDERS && ClearIn(a[0]) == ClearIn(b[0])
    ensures a == b
  {
    RowBounds(a, nframes, 0);
    RowBounds(b, nframes, 0);
    hide Tree, Shaped;
    ClearInInjective(a[0], b[0]);
    forall o | 0 <= o < NORDERS
      ensures a[o] == b[o]
    {
      TreeDetermined(a, b, nframes, o);
    }
  }

  // The frames of the block picked are free.
  lemma PickIsFree(free: set<nat>, nframes: nat, best: nat, o: nat, i: nat)
    requires IsPick(free, nframes, best, o, i)
    ensures o <= best && i < NBlocks(nframes, o) && Span(i * Pow2(o), Pow2(o)) <= free
  {
    hide NoBlockFree, NBlocks, Pow2;
    assert (i + 1) * Pow2(o) == i * Pow2(o) + Pow2(o);
  }

  // Block i of order o is free: all its frames are.
  ghost predicate BlockFree(free: set<nat>, o: nat, i: nat) {
    Range(i * Pow2(o), (i + 1) * Pow2(o)) <= free
  }

  ghost predicate NoBlockFree(free: set<nat>, nframes: nat, o: nat) {
    forall i :: 0 <= i < NBlocks(nframes, o) ==> !BlockFree(free, o, i)
  }

  // The block kpm_alloc hands out: the lowest free block of the largest order, up to the best fit,
  // that has one.
  ghost predicate IsPick(free: set<nat>, nframes: nat, best: nat, o: nat, i: nat) {
    && o <= best && i < NBlocks(nframes, o)
    && BlockFree(free, o, i)
    && (forall i' :: 0 <= i' < i ==> !BlockFree(free, o, i'))
    && (forall o' :: o < o' <= best ==> NoBlockFree(free, nframes, o'))
  }

  lemma BitMeansFree(rows: Rows, nframes: nat, o: nat, i: nat)
    requires Tree(rows, nframes) && |rows| == NORDERS && o < NORDERS && i < NBlocks(nframes, o)
    ensures i < |rows[o]|
    ensures !rows[o][i] <==> BlockFree(ClearIn(rows[0]), o, i)
  {
    hide Shaped, Agrees, NBlocks, NBytes, Pow2, BlockOf, Range, ClearIn;
    RowBounds(rows, nframes, o);
    BitMeansTaken(rows, nframes, o, i);
    RangeClear(rows[0], i * Pow2(o), (i + 1) * Pow2(o));
  }

  // What a search of one row for its first clear bit says about free blocks.
  lemma FirstClearIsFirstFree(rows: Rows, nframes: nat, o: nat, r: int)
    requires Tree(rows, nframes) && o < NORDERS
    requires -1 <= r < |rows[o]|
    requires r >= 0 ==> !rows[o][r]
    requires forall i :: 0 <= i < (if r == -1 then |rows[o]| else r) ==> rows[o][i]
    ensures r == -1 ==> NoBlockFree(ClearIn(rows[0]), nframes, o)
    ensures r >= 0 ==> r < NBlocks(nframes, o) && BlockFree(ClearIn(rows[0]), o, r)
    ensures r >= 0 ==> forall i :: 0 <= i < r ==> !BlockFree(ClearIn(rows[0]), o, i)
  {
    RowBounds(rows, nframes, o);
    forall i | 0 <= i < (if r == -1 then NBlocks(nframes, o) else r)
      ensures !BlockFree(ClearIn(rows[0]), o, i)
    {
      BitMeansFree(rows, nframes, o, i);
    }
    if r >= 0 {
      BitMeansFree(rows, nframes, o, r);
    }
  }

  lemma PickExists(free: set<nat>, nframes: nat, best: nat)
    requires nframes % 1024 == 0 && best < NORDERS && free <= Range(0, nframes)
    ensures NoBlockFree(free, nframes, 0) <==> free == {}
    ensures free != {} ==> exists o, i :: IsPick(free, nframes, best, o, i)
  {
    if x :| x in free {
      assert Range(x * Pow2(0), (x + 1) * Pow2(0)) == {x};
      assert BlockFree(free, 0, x);
      var o := best;
      while NoBlockFree(free, nframes, o)
        invariant 0 <= o <= best
        invariant forall o' :: o < o' <= best ==> NoBlockFree(free, nframes, o')
        decreases o
      {
        o := o - 1;
      }
      var i := 0;
      while !BlockFree(free, o, i)
        invariant i < NBlocks(nframes, o)
        invariant exists k :: i <= k < NBlocks(nframes, o) && BlockFree(free, o, k)
        invariant forall i' :: 0 <= i' < i ==> !BlockFree(free, o, i')
        decreases NBlocks(nframes, o) - i
      {
        i := i + 1;
      }
      assert IsPick(free, nframes, best, o, i);
    } else {
      forall i | 0 <= i < NBlocks(nframes, 0)
        ensures !BlockFree(free, 0, i)
      {
        assert i in Range(i * Pow2(0), (i + 1) * Pow2(0));
      }
    }
  }

  lemma PickIs(free: set<nat>, nframes: nat, best: nat, o: nat, i: nat)
    requires o <= best && i < NBlocks(nframes, o) && BlockFree(free, o, i)
    requires forall i' :: 0 <= i' < i ==> !BlockFree(free, o, i')
    requires forall o' :: o < o' <= best ==> NoBlockFree(free, nframes, o')
    ensures IsPick(free, nframes, best, o, i) && free != {}
  {
    Pow2Monotone(0, o);
    assert (i + 1) * Pow2(o) == i * Pow2(o) + Pow2(o);
    assert i * Pow2(o) in Range(i * Pow2(o), (i + 1) * Pow2(o));
  }

  lemma PickUnique(free: set<nat>, nframes: nat, best: nat, o: nat, i: nat, o': nat, i': nat)
    requires IsPick(free, nframes, best, o, i) && IsPick(free, nframes, best, o', i')
    ensures o == o' && i == i'
  {
    hide NoBlockFree, BlockFree;
    if o < o' {
      NoneFree(free, nframes, o', i');
    } else if o' < o {
      NoneFree(free, nframes, o, i);
    }
  }

  lemma NoneFree(free: set<nat>, nframes: nat, o: nat, i: nat)
    requires NoBlockFree(free, nframes, o) && i < NBlocks(nframes, o)
    ensures !BlockFree(free, o, i)
  {
  }

  // The least order whose blocks hold `need` frames, or the largest order.
  function BestFit(need: nat, n: nat := 0): (r: nat)
    requires n <= 10
    ensures n <= r <= 10
    ensures r < 10 ==> Pow2(r) >= need
    ensures forall m :: n <= m < r ==> Pow2(m) < need
    decreases 10 - n
  {
    if n == 10 || Pow2(n) >= need then n else BestFit(need, n + 1)
  }

  lemma BestFitBound(need: nat)
    ensures BestFit(need) < NORDERS
  {
  }
}
