// Address arithmetic of include/kernel/kpm.h: the 32-bit alignment macros, written with the
// bitwise operations the macros use, and the rounding they perform.

module Words {
  // A 32-bit unsigned machine word (size_t, uint32_t and pointers on the i686 target).
  type U32 = x: int | 0 <= x < 0x1_0000_0000

  // A signed one (int and long).
  type I32 = x: int | -0x8000_0000 <= x < 0x8000_0000

  function Pow2(n: nat): (p: nat)
    ensures p >= 1
  {
    if n == 0 then 1 else 2 * Pow2(n - 1)
  }

  lemma {:induction false} Pow2Add(a: nat, b: nat)
    ensures Pow2(a + b) == Pow2(a) * Pow2(b)
  {
    if a > 0 {
      Pow2Add(a - 1, b);
      assert Pow2(a + b) == 2 * Pow2(a - 1 + b);
    }
  }

  lemma {:induction false} Pow2Monotone(a: nat, b: nat)
    requires a <= b
    ensures Pow2(a) <= Pow2(b)
  {
    if a < b {
      Pow2Monotone(a, b - 1);
    }
  }

  // Euclidean division is determined by its bounds.
  lemma DivUnique(x: int, d: int, q: int)
    requires d > 0 && q * d <= x < q * d + d
    ensures x / d == q && x % d == x - q * d
  {
    assert x == d * (x / d) + x % d;
    MulOrder(d, x / d, q);
    MulOrder(d, q, x / d);
  }

  lemma MulOrder(d: int, a: int, b: int)
    requires d > 0
    ensures a < b ==> d * a + d <= d * b
  {
    if a < b {
      var c := b - a - 1;
      assert d * c >= 0;
      assert d * b == d * (a + 1 + c) == d * a + d + d * c;
    }
  }

  lemma DivNonNegative(x: nat, d: nat)
    requires d > 0
    ensures x / d >= 0
  {
    if x / d < 0 {
      assert x == d * (x / d) + x % d;
      MulOrder(d, x / d, 0);
    }
  }

  lemma DivBounds(x: int, d: int)
    requires d > 0
    ensures x / d * d <= x < x / d * d + d
  {
    assert x == d * (x / d) + x % d;
  }
}

module Align {
  import opened Words

  function BitAnd(x: nat, y: nat): (r: nat)
    ensures r <= x
  {
    if x == 0 || y == 0 then 0 else (x % 2) * (y % 2) + 2 * BitAnd(x / 2, y / 2)
  }

  function BitXor(x: nat, y: nat): nat
    decreases x + y
  {
    if x == 0 then y else if y == 0 then x
    else (x % 2 + y % 2) % 2 + 2 * BitXor(x / 2, y / 2)
  }

  lemma ModBounds(x: nat, d: nat)
    requires d > 0
    ensures 0 <= x % d <= x
  {
    DivNonNegative(x, d);
    assert x == d * (x / d) + x % d;
  }

  // The mask of the macros, for a power of two.
  function Mask(align: nat): nat
    requires align >= 1
  {
    BitXor(0xffffffff, align - 1)
  }

  // ALIGN, ALIGNNEXT, ALIGNNEXTFORCE and ISALIGNED, as the rounding they perform; additions are
  // 32-bit. Lemma AlignMacros ties them to the bitwise expressions of the header.
  function AlignDown(size: U32, align: nat): U32
    requires align >= 1
  {
    ModBounds(size, align);
    size - size % align
  }

  function AlignNext(size: U32, align: nat): U32
    requires align >= 1
  {
    AlignDown((size + (align - 1)) % 0x1_0000_0000, align)
  }

  function AlignNextForce(size: U32, align: nat): U32
    requires align >= 1
  {
    AlignDown((size + align) % 0x1_0000_0000, align)
  }

  predicate IsAligned(size: U32, align: nat)
    requires align >= 1
  {
    size % align == 0
  }

  lemma {:induction false} XorOnes(w: nat, k: nat)
    requires k <= w
    ensures BitXor(Pow2(w) - 1, Pow2(k) - 1) == Pow2(w) - Pow2(k)
  {
    hide Pow2;
    LowMask(w);
    LowMask(k);
    if k > 0 {
      XorOnes(w - 1, k - 1);
    }
  }

  lemma {:induction false} AndHigh(x: nat, w: nat, k: nat)
    requires k <= w && x < Pow2(w) && Pow2(k) <= Pow2(w)
    ensures BitAnd(x, Pow2(w) - Pow2(k)) == x - x % Pow2(k)
  {
    hide Pow2;
    HighMask(w, k);
    if w > 0 {
      if k == 0 {
        AndHigh(x / 2, w - 1, 0);
      } else {
        AndHigh(x / 2, w - 1, k - 1);
        HalfMod(x, Pow2(k - 1));
      }
    }
  }

  // Halving the mask, and the power of two under it.
  lemma HighMask(w: nat, k: nat)
    requires k <= w
    ensures Pow2(0) == 1 && Pow2(w) >= 1 && Pow2(k) >= 1 && Pow2(w) - Pow2(k) >= 0
    ensures w > 0 ==> Pow2(w) == 2 * Pow2(w - 1)
    ensures k > 0 ==> Pow2(k) == 2 * Pow2(k - 1) && Pow2(w - 1) >= Pow2(k - 1) >= 1
    ensures w > 0 ==> (Pow2(w) - Pow2(k)) / 2 == Pow2(w - 1) - if k == 0 then 1 else Pow2(k - 1)
    ensures w > 0 ==> (Pow2(w) - Pow2(k)) % 2 == if k == 0 then 1 else 0
  {
    Pow2Monotone(k, w);
  }

  lemma {:induction false} AndLow(x: nat, k: nat)
    ensures BitAnd(x, Pow2(k) - 1) == x % Pow2(k)
  {
    hide Pow2;
    LowMask(k);
    if k > 0 {
      AndLow(x / 2, k - 1);
      HalfMod(x, Pow2(k - 1));
    }
  }

  lemma LowMask(k: nat)
    ensures Pow2(0) == 1 && Pow2(k) >= 1
    ensures k > 0 ==> Pow2(k) == 2 * Pow2(k - 1) && Pow2(k - 1) >= 1
    ensures k > 0 ==> (Pow2(k) - 1) / 2 == Pow2(k - 1) - 1 && (Pow2(k) - 1) % 2 == 1
  {
  }

  lemma HalfMod(x: nat, p: nat)
    requires p >= 1
    ensures x % (2 * p) == 2 * ((x / 2) % p) + x % 2
  {
    DivBounds(x / 2, p);
    var q := x / 2 / p;
    assert x / 2 == q * p + (x / 2) % p;
    assert q * (2 * p) == 2 * (q * p);
    DivUnique(x, 2 * p, q);
  }

  lemma MaskRounds(x: U32, k: nat)
    requires k <= 31
    ensures BitAnd(x, Mask(Pow2(k))) == x - x % Pow2(k)
  {
    Pow2At32();
    Pow2Monotone(k, 32);
    XorOnes(32, k);
    AndHigh(x, 32, k);
  }

  lemma Pow2At32()
    ensures Pow2(32) == 0x1_0000_0000 && Pow2(31) == 0x8000_0000
  {
    assert Pow2(4) == 16;
    Pow2Add(4, 4);
    Pow2Add(8, 8);
    Pow2Add(16, 16);
  }

  // For every power of two, masking rounds as claimed.
  lemma AlignMacros(size: U32, k: nat)
    requires k <= 31
    ensures BitAnd(size, Mask(Pow2(k))) == AlignDown(size, Pow2(k))
    ensures BitAnd((size + (Pow2(k) - 1)) % 0x1_0000_0000, Mask(Pow2(k))) == AlignNext(size, Pow2(k))
    ensures BitAnd((size + Pow2(k)) % 0x1_0000_0000, Mask(Pow2(k))) == AlignNextForce(size, Pow2(k))
    ensures BitAnd(size, Pow2(k) - 1) == 0 <==> IsAligned(size, Pow2(k))
  {
    hide BitAnd, Mask, Pow2;
    AndLow(size, k);
    MaskRounds(size, k);
    MaskRounds((size + (Pow2(k) - 1)) % 0x1_0000_0000, k);
    MaskRounds((size + Pow2(k)) % 0x1_0000_0000, k);
  }
}
