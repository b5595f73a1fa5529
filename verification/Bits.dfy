// The bit-level part of the bitmap macros of include/kernel/kpm.h (lines 36-43).

module Bits {
  predicate Bit(b: bv8, k: nat)
    requires k < 8
  {
    b & (1 << k) != 0
  }

  function SetBit(b: bv8, k: nat): bv8
    requires k < 8
  {
    b | (1 << k)
  }

  function ClearBit(b: bv8, k: nat): bv8
    requires k < 8
  {
    b & !(1 << k)
  }

  lemma Masks(k: nat)
    requires k < 8
    ensures (1 as bv8 << k) ==
            if k == 0 then 1 else if k == 1 then 2 else if k == 2 then 4 else if k == 3 then 8
            else if k == 4 then 16 else if k == 5 then 32 else if k == 6 then 64 else 128
  {
    if k == 0 {} else if k == 1 {} else if k == 2 {} else if k == 3 {}
    else if k == 4 {} else if k == 5 {} else if k == 6 {} else {}
  }

  // Writing one bit of a byte leaves the other seven alone.
  lemma BitAfterWrite(b: bv8, k: nat, j: nat)
    requires k < 8 && j < 8
    ensures Bit(SetBit(b, k), j) == (j == k || Bit(b, j))
    ensures Bit(ClearBit(b, k), j) == (j != k && Bit(b, j))
  {
    Masks(k);
    Masks(j);
  }

  // A byte is determined by its eight bits.
  lemma ByteExtensional(a: bv8, b: bv8)
    requires forall j :: 0 <= j < 8 ==> Bit(a, j) == Bit(b, j)
    ensures a == b
  {
    assert Bit(a, 0) == Bit(b, 0) && Bit(a, 1) == Bit(b, 1) && Bit(a, 2) == Bit(b, 2) && Bit(a, 3) == Bit(b, 3);
    assert Bit(a, 4) == Bit(b, 4) && Bit(a, 5) == Bit(b, 5) && Bit(a, 6) == Bit(b, 6) && Bit(a, 7) == Bit(b, 7);
    Masks(0); Masks(1); Masks(2); Masks(3); Masks(4); Masks(5); Masks(6); Masks(7);
  }

  lemma ByteUniform(j: nat)
    requires j < 8
    ensures Bit(0xff, j) && !Bit(0, j)
  {
    Masks(j);
  }

  // __builtin_ffs on a byte: one plus the index of the lowest set bit, zero for a zero byte.
  function FfsFrom(b: bv8, k: nat): (r: nat)
    requires k <= 8
    requires forall j :: 0 <= j < k ==> !Bit(b, j)
    ensures r == 0 <==> forall j :: 0 <= j < 8 ==> !Bit(b, j)
    ensures r > 0 ==> r <= 8 && Bit(b, r - 1) && forall j :: 0 <= j < r - 1 ==> !Bit(b, j)
    decreases 8 - k
  {
    if k == 8 then 0 else if Bit(b, k) then k + 1 else FfsFrom(b, k + 1)
  }

  function Ffs(b: bv8): nat {
    FfsFrom(b, 0)
  }

  lemma BitOfComplement(b: bv8, j: nat)
    requires j < 8
    ensures Bit(!b, j) == !Bit(b, j)
  {
    Masks(j);
  }

  // The lowest clear bit of a byte is the lowest set bit of its complement.
  lemma FfsComplement(b: bv8)
    ensures var f := Ffs(!b);
            && f <= 8
            && (f == 0 ==> forall j :: 0 <= j < 8 ==> Bit(b, j))
            && (f > 0 ==> !Bit(b, f - 1) && forall j :: 0 <= j < f - 1 ==> Bit(b, j))
  {
    hide Bit;
    forall j | 0 <= j < 8
      ensures Bit(!b, j) == !Bit(b, j)
    {
      BitOfComplement(b, j);
    }
  }
}
