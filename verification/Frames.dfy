// Sets of page frames.

module Frames {
  predicate Within(j: nat, lo: nat, hi: nat) {
    lo <= j < hi
  }

  ghost function Range(lo: nat, hi: nat): set<nat> {
    set j: nat | j < hi && Within(j, lo, hi)
  }

  // The frames first .. first + count - 1.
  ghost function Span(first: nat, count: nat): set<nat> {
    Range(first, first + count)
  }

  lemma {:induction false} SpanSize(first: nat, count: nat)
    ensures |Span(first, count)| == count
  {
    if count > 0 {
      SpanSize(first, count - 1);
      assert Span(first, count) == Span(first, count - 1) + {first + count - 1};
    } else {
      assert Span(first, count) == {};
    }
  }

  // Frames whose bit is clear in a row, and frames whose bit is set.
  ghost function ClearIn(row: seq<bool>): set<nat> {
    set j: nat | j < |row| && !row[j]
  }

  ghost function SetIn(row: seq<bool>): set<nat> {
    set j: nat | j < |row| && row[j]
  }

  lemma ClearInInjective(a: seq<bool>, b: seq<bool>)
    requires |a| == |b| && ClearIn(a) == ClearIn(b)
    ensures a == b
  {
    forall j | 0 <= j < |a|
      ensures a[j] == b[j]
    {
      assert j in ClearIn(a) <==> j in ClearIn(b);
    }
  }

  // A row with the bits lo .. hi - 1 set to v.
  ghost function Fill(row: seq<bool>, lo: nat, hi: nat, v: bool): (r: seq<bool>)
    ensures |r| == |row|
  {
    seq(|row|, k requires 0 <= k < |row| => if lo <= k < hi then v else row[k])
  }

  // A row with the bits lo .. hi - 1 cleared where the frame is enabled.
  ghost function Released(row: seq<bool>, en: seq<bool>, lo: nat, hi: nat): (r: seq<bool>)
    requires |en| == |row|
    ensures |r| == |row|
  {
    seq(|row|, k requires 0 <= k < |row| => if lo <= k < hi && en[k] then false else row[k])
  }

  // Frames entirely inside an address range, and frames a range touches.
  predicate FrameInside(j: nat, base: nat, limit: nat) {
    base <= j * 4096 && (j + 1) * 4096 <= base + limit
  }

  predicate FrameTouched(j: nat, base: nat, limit: nat) {
    j * 4096 < base + limit && base < (j + 1) * 4096
  }

  ghost function Inside(nframes: nat, base: nat, limit: nat): set<nat> {
    set j: nat | j < nframes && FrameInside(j, base, limit)
  }

  ghost function Touching(nframes: nat, base: nat, limit: nat): set<nat> {
    set j: nat | j < nframes && FrameTouched(j, base, limit)
  }

  lemma RangeClear(row: seq<bool>, lo: nat, hi: nat)
    requires hi <= |row|
    ensures Range(lo, hi) <= ClearIn(row) <==> !exists j :: lo <= j < hi && row[j]
  {
    if Range(lo, hi) <= ClearIn(row) {
      forall j | lo <= j < hi
        ensures !row[j]
      {
        assert j in Range(lo, hi);
      }
    }
  }

  lemma FillSets(row: seq<bool>, lo: nat, hi: nat)
    requires lo <= hi <= |row|
    ensures ClearIn(Fill(row, lo, hi, false)) == ClearIn(row) + Range(lo, hi)
    ensures ClearIn(Fill(row, lo, hi, true)) == ClearIn(row) - Range(lo, hi)
    ensures SetIn(Fill(row, lo, hi, true)) == SetIn(row) + Range(lo, hi)
    ensures SetIn(Fill(row, lo, hi, false)) == SetIn(row) - Range(lo, hi)
  {
  }

  lemma ReleaseSet(row: seq<bool>, en: seq<bool>, lo: nat, hi: nat)
    requires lo <= hi <= |row| == |en|
    ensures ClearIn(Released(row, en, lo, hi)) == ClearIn(row) + Range(lo, hi) * SetIn(en)
  {
  }

  lemma FillNothing(row: seq<bool>, lo: nat, v: bool)
    ensures Fill(row, lo, lo, v) == row
  {
  }

  lemma FillStep(row: seq<bool>, lo: nat, k: nat, v: bool)
    requires lo <= k < |row|
    ensures Fill(row, lo, k, v)[k := v] == Fill(row, lo, k + 1, v)
  {
  }

  lemma ReleaseNothing(row: seq<bool>, en: seq<bool>, lo: nat)
    requires |en| == |row|
    ensures Released(row, en, lo, lo) == row
  {
  }

  lemma ReleaseStep(row: seq<bool>, en: seq<bool>, lo: nat, k: nat)
    requires lo <= k < |row| == |en|
    ensures (if en[k] then Released(row, en, lo, k)[k := false] else Released(row, en, lo, k)) == Released(row, en, lo, k + 1)
  {
  }

  lemma InsideRange(nframes: nat, base: nat, limit: nat)
    requires base % 4096 == 0 && base <= nframes * 4096
    ensures base / 4096 <= nframes
    ensures Inside(nframes, base, limit) ==
            Range(base / 4096, if base / 4096 + limit / 4096 <= nframes then base / 4096 + limit / 4096 else nframes)
  {
  }

  lemma TouchingRange(nframes: nat, base: nat, limit: nat)
    requires base % 4096 == 0 && base <= nframes * 4096
    ensures base / 4096 <= nframes
    ensures Touching(nframes, base, limit) ==
            Range(base / 4096, if base / 4096 + (limit + 4095) / 4096 <= nframes then base / 4096 + (limit + 4095) / 4096 else nframes)
  {
  }
}
