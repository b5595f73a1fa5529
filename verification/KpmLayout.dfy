// The layout of the bitmaps behind the buddy structure (kernel/memory/kpm.c, lines 37-54).

module KpmLayout {
  import opened Words
  import opened Align
  import opened BuddyTree
  import opened KpmBytes

  const SIZEOF_BUDDY: nat := 100

  // KPM_NBYTES_FROM_NBITS
  function NBytesFromNBits(n: U32): nat {
    AlignNext(n, 8) / 8
  }

  lemma NBytesMacro(n: U32)
    requires n <= 0x10_0000
    ensures NBytesFromNBits(n) == NBytes(n)
  {
  }

  // The layout of the bitmaps behind the structure: where the bitmap of order o starts.
  function Offset(nframes: nat, o: nat): (off: nat)
    ensures off >= SIZEOF_BUDDY + NBytes(nframes)
  {
    if o == 0 then SIZEOF_BUDDY + NBytes(nframes)
    else Offset(nframes, o - 1) + NBytes(NBlocks(nframes, o - 1))
  }

  function Layout(nframes: nat): seq<Order> {
    seq(NORDERS, o requires 0 <= o < NORDERS => Order(Offset(nframes, o), NBytes(NBlocks(nframes, o))))
  }

  lemma {:induction false} OffsetAfter(nframes: nat, a: nat, b: nat)
    requires a < b
    ensures Offset(nframes, a) + NBytes(NBlocks(nframes, a)) <= Offset(nframes, b)
    decreases b
  {
    if a + 1 < b {
      OffsetAfter(nframes, a, b - 1);
    }
  }

  // The allocator's own size: far below what the address arithmetic can hold.
  lemma {:induction false} OffsetBound(nframes: nat, o: nat)
    requires nframes <= 0xF_FC00
    ensures NBlocks(nframes, o) <= nframes
    ensures Offset(nframes, o) <= 0x2_0100 + o * 0x2_0000
  {
    if o > 0 {
      OffsetBound(nframes, o - 1);
    }
  }

  lemma LayoutStep(nframes: nat, i: nat)
    requires nframes < 0x10_0000 && (i == 0 || NBlocks(nframes, i) <= nframes)
    ensures NBytesFromNBits(NBlocks(nframes, i)) == NBytes(NBlocks(nframes, i))
    ensures NBlocks(nframes, i + 1) == NBlocks(nframes, i) / 2 <= nframes
    ensures Offset(nframes, i + 1) == Offset(nframes, i) + NBytes(NBlocks(nframes, i))
    ensures Offset(nframes, 0) == SIZEOF_BUDDY + NBytes(nframes)
  {
    NBytesMacro(NBlocks(nframes, i));
    hide NBytesFromNBits;
  }

  lemma NoBlocksBefore(nframes: nat)
    ensures NBlocks(nframes, 0) == nframes && 0 < NORDERS
  {
  }

  // The first layout loop of kpm_init: the size of each bitmap, and of all of them.
  method SizeOrders(nframes: nat) returns (orders: seq<Order>, totalOrdersSize: nat)
    requires nframes < 0x10_0000
    ensures |orders| == NORDERS
    ensures forall o :: 0 <= o < NORDERS ==> orders[o].size == NBytes(NBlocks(nframes, o))
    ensures Offset(nframes, 0) + totalOrdersSize == Offset(nframes, NORDERS)
  {
    assert NBlocks(nframes, 0) == nframes;
    totalOrdersSize := 0;
    var none := Order(0, 0);
    orders := [none, none, none, none, none, none, none, none, none, none, none];
    var nblocks := nframes;
    for i := 0 to NORDERS
      invariant nblocks == NBlocks(nframes, i) <= nframes
      invariant |orders| == NORDERS
      invariant forall o :: 0 <= o < i ==> orders[o].size == NBytes(NBlocks(nframes, o))
      invariant Offset(nframes, 0) + totalOrdersSize == Offset(nframes, i)
    {
      LayoutStep(nframes, i);
      hide *;
      var orderSize := NBytesFromNBits(nblocks);
      orders := orders[i := orders[i].(size := orderSize)];
      totalOrdersSize := totalOrdersSize + orderSize;
      nblocks := nblocks / 2;
    }
  }

  lemma PlaceStep(nframes: nat, sized: seq<Order>, i: nat)
    requires i < NORDERS == |sized| && sized[i].size == NBytes(NBlocks(nframes, i))
    ensures |Layout(nframes)| == NORDERS
    ensures i > 0 ==> (Layout(nframes)[..i] + sized[i..])[i - 1].bitmap == Offset(nframes, i - 1)
    ensures (Layout(nframes)[..i] + sized[i..])[i] == sized[i]
    ensures (Layout(nframes)[..i] + sized[i..])[i := Order(Offset(nframes, i), sized[i].size)]
         == Layout(nframes)[..i + 1] + sized[i + 1..]
  {
    hide Offset, NBlocks, NBytes;
  }

  lemma LayoutEnds(nframes: nat, sized: seq<Order>)
    requires |sized| == NORDERS && |Layout(nframes)| == NORDERS
    ensures Layout(nframes)[..NORDERS] + sized[NORDERS..] == Layout(nframes)
    ensures Layout(nframes)[..0] + sized[0..] == sized
  {
    hide Layout;
  }

  // The second: each bitmap starts right after the one before it.
  method PlaceOrders(nframes: nat, firstBitmap: nat, sized: seq<Order>) returns (orders: seq<Order>)
    requires nframes < 0x10_0000 && firstBitmap == Offset(nframes, 0)
    requires |sized| == NORDERS
    requires forall o :: 0 <= o < NORDERS ==> sized[o].size == NBytes(NBlocks(nframes, o))
    ensures orders == Layout(nframes)
  {
    hide *;
    NoBlocksBefore(nframes);
    PlaceStep(nframes, sized, 0);
    LayoutEnds(nframes, sized);
    orders := sized[0 := sized[0].(bitmap := firstBitmap)];
    var prevNblocks := nframes;
    for i := 1 to NORDERS
      invariant prevNblocks == NBlocks(nframes, i - 1) <= nframes
      invariant |Layout(nframes)| == NORDERS && orders == Layout(nframes)[..i] + sized[i..]
    {
      LayoutStep(nframes, i - 1);
      PlaceStep(nframes, sized, i);
      var bitmap := orders[i - 1].bitmap + NBytesFromNBits(prevNblocks);
      orders := orders[i := Order(bitmap, orders[i].size)];
      prevNblocks := prevNblocks / 2;
    }
  }

  lemma LayoutSizes(nframes: nat)
    ensures |Layout(nframes)| == NORDERS
    ensures forall o :: 0 <= o < NORDERS ==> Layout(nframes)[o].size == NBytes(NBlocks(nframes, o))
  {
  }

  lemma LayoutApart(nframes: nat)
    requires nframes % 8 == 0
    ensures Apart(Layout(nframes))
    ensures forall o :: 0 <= o < NORDERS ==>
              && SIZEOF_BUDDY + NBytes(nframes) <= Layout(nframes)[o].bitmap
              && Layout(nframes)[o].bitmap + Layout(nframes)[o].size <= Offset(nframes, NORDERS)
  {
    forall a, b | 0 <= a < b < NORDERS
      ensures Layout(nframes)[a].bitmap + Layout(nframes)[a].size <= Layout(nframes)[b].bitmap
    {
      OffsetAfter(nframes, a, b);
    }
    forall o | 0 <= o < NORDERS
      ensures Layout(nframes)[o].bitmap + Layout(nframes)[o].size <= Offset(nframes, NORDERS)
    {
      OffsetAfter(nframes, o, NORDERS);
    }
  }

  predicate InBitmap(nframes: nat, o: nat, k: nat) {
    Offset(nframes, o) <= k < Offset(nframes, o) + NBytes(NBlocks(nframes, o))
  }

  lemma {:induction false} FindBitmap(nframes: nat, n: nat, k: nat) returns (o: nat)
    requires SIZEOF_BUDDY + NBytes(nframes) <= k < Offset(nframes, n)
    ensures o < n && InBitmap(nframes, o, k)
  {
    if k >= Offset(nframes, n - 1) {
      o := n - 1;
    } else {
      o := FindBitmap(nframes, n - 1, k);
    }
  }

  // Together the bitmaps cover every byte behind the structure, each byte once.
  lemma LayoutTiles(nframes: nat, k: nat)
    requires nframes % 8 == 0 && SIZEOF_BUDDY <= k < Offset(nframes, NORDERS)
    ensures k < SIZEOF_BUDDY + NBytes(nframes) <==> forall o :: 0 <= o < NORDERS ==> !InBitmap(nframes, o, k)
    ensures forall a, b :: 0 <= a < b < NORDERS ==> !(InBitmap(nframes, a, k) && InBitmap(nframes, b, k))
  {
    LayoutApart(nframes);
    forall a, b | 0 <= a < b < NORDERS
      ensures !(InBitmap(nframes, a, k) && InBitmap(nframes, b, k))
    {
      assert Layout(nframes)[a].bitmap + Layout(nframes)[a].size <= Layout(nframes)[b].bitmap;
    }
    if k < SIZEOF_BUDDY + NBytes(nframes) {
      forall o | 0 <= o < NORDERS
        ensures !InBitmap(nframes, o, k)
      {
        assert SIZEOF_BUDDY + NBytes(nframes) <= Layout(nframes)[o].bitmap;
      }
    } else {
      var o := FindBitmap(nframes, NORDERS, k);
      assert InBitmap(nframes, o, k);
    }
  }

  // The bytes are determined by the rows.
  lemma BytesDetermined(a: seq<bv8>, b: seq<bv8>, nframes: nat, en: seq<bool>, rows: Rows)
    requires nframes % 8 == 0 && |a| == |b| == Offset(nframes, NORDERS)
    requires TiedTo(a, SIZEOF_BUDDY, NBytes(nframes), en) && TiedTo(b, SIZEOF_BUDDY, NBytes(nframes), en)
    requires OrdersTied(a, Layout(nframes), rows) && OrdersTied(b, Layout(nframes), rows)
    ensures a[SIZEOF_BUDDY..] == b[SIZEOF_BUDDY..]
  {
    forall k | SIZEOF_BUDDY <= k < |a|
      ensures a[k] == b[k]
    {
      if k < SIZEOF_BUDDY + NBytes(nframes) {
        SameByte(a, b, SIZEOF_BUDDY, NBytes(nframes), en, k);
      } else {
        var o := FindBitmap(nframes, NORDERS, k);
        var order := Layout(nframes)[o];
        assert order == Order(Offset(nframes, o), NBytes(NBlocks(nframes, o)));
        SameByte(a, b, order.bitmap, order.size, rows[o], k);
      }
    }
  }
}
