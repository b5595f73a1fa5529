// The repair of the orders after an edit of order 0, in terms of the address range edited.

module KpmRepair {
  import opened Words
  import opened BuddyTree
  import opened KpmRanges

  // Order 0 has been edited, only on frames that meet [start, start + limit).
  ghost predicate EditedWithin(rows: Rows, before: Rows, nframes: nat, start: U32, limit: U32) {
    && Tree(before, nframes)
    && WalkOk(nframes, start, limit)
    && |rows| == NORDERS && rows == before[0 := rows[0]]
    && if Idle(nframes, start, limit) then rows[0] == before[0]
       else SameOutside(rows[0], before[0], start / 4096, (start + limit - 1) / 4096)
  }

  lemma EditIsWithin(rows: Rows, before: Rows, nframes: nat, base: U32, lim: U32, count: nat)
    requires Tree(before, nframes) && |rows| == NORDERS && rows == before[0 := rows[0]]
    requires base % 4096 == 0 && WalkOk(nframes, base, lim)
    requires count == if Idle(nframes, base, lim) then 0 else (lim + 4095) / 4096
    requires |rows[0]| == |before[0]|
    requires forall j :: 0 <= j < |rows[0]| && !(base / 4096 <= j < base / 4096 + count) ==> rows[0][j] == before[0][j]
    ensures EditedWithin(rows, before, nframes, base, lim)
  {
    if count == 0 {
      assert rows[0] == before[0];
    }
  }

  ghost predicate Repairing(rows: Rows, before: Rows, nframes: nat, start: U32, limit: U32, n: nat)
    requires 1 <= n <= NORDERS
  {
    && WalkOk(nframes, start, limit) && |rows| == NORDERS
    && if Idle(nframes, start, limit) then rows == before && Tree(rows, nframes)
       else RepairedBelow(rows, before, nframes, start / 4096, (start + limit - 1) / 4096, n)
  }

  lemma RepairBegins(rows: Rows, before: Rows, nframes: nat, start: U32, limit: U32)
    requires EditedWithin(rows, before, nframes, start, limit) && Shaped(rows, nframes)
    ensures Repairing(rows, before, nframes, start, limit, 1)
  {
    if !Idle(nframes, start, limit) {
      RepairStarts(rows, before, nframes, start / 4096, (start + limit - 1) / 4096);
    } else {
      assert rows == before;
    }
  }

  lemma RepairContinues(rows: Rows, before: Rows, nframes: nat, start: U32, limit: U32, n: nat)
    requires nframes < 0x10_0000 && 1 <= n < NORDERS && Repairing(rows, before, nframes, start, limit, n)
    ensures |rows| == NORDERS && WalkOk(nframes, start, limit)
    ensures var end := Sum(start, limit);
            Repairing(if start < end
                      then rows[n := Repaired(rows[n], rows[n - 1], BlockOf(start / 4096, n), BlockOf((end - 1) / 4096, n) + 1)]
                      else rows,
                      before, nframes, start, limit, n + 1)
  {
    hide BlockOf, NBlocks, NBytes, Pow2, Sum, Repaired, RepairedBelow, Tree, Shaped;
    WalkEnd(nframes, start, limit);
    if !Idle(nframes, start, limit) {
      RepairOrder(rows, before, nframes, start / 4096, (start + limit - 1) / 4096, n);
    }
  }

  lemma RepairEnds(rows: Rows, before: Rows, nframes: nat, start: U32, limit: U32)
    requires Repairing(rows, before, nframes, start, limit, NORDERS)
    ensures Tree(rows, nframes)
  {
    if !Idle(nframes, start, limit) {
      RepairDone(rows, before, nframes, start / 4096, (start + limit - 1) / 4096);
    }
  }

  lemma RepairNothing(rows: Rows, n: nat, lo: nat)
    requires 1 <= n < |rows|
    ensures rows == rows[n := Repaired(rows[n], rows[n - 1], lo, lo)]
  {
    assert Repaired(rows[n], rows[n - 1], lo, lo) == rows[n];
  }

  lemma RepairOneMore(before: Rows, rows: Rows, n: nat, lo: nat, k: nat)
    requires 1 <= n < |before| && lo <= k < |before[n]| && 2 * k + 1 < |before[n - 1]|
    requires rows == before[n := Repaired(before[n], before[n - 1], lo, k)]
    ensures rows[n := rows[n][k := rows[n - 1][2 * k] || rows[n - 1][2 * k + 1]]]
         == before[n := Repaired(before[n], before[n - 1], lo, k + 1)]
  {
    var parent, child := before[n], before[n - 1];
    assert Repaired(parent, child, lo, k)[k := child[2 * k] || child[2 * k + 1]] == Repaired(parent, child, lo, k + 1);
  }
}
