// Bitmaps in memory: how the bytes of the buddy structure hold the rows of bits, and what one write
// changes.

module KpmBytes {
  import opened Bits
  import opened BuddyTree
  import opened Frames

  // struct order: a bitmap pointer, as an offset from the buddy structure, and a size in bytes.
  datatype Order = Order(bitmap: nat, size: nat)

  predicate BitAt(bytes: seq<bv8>, off: nat, i: nat)
    requires off + i / 8 < |bytes|
  {
    Bit(bytes[off + i / 8], i % 8)
  }

  // The len bytes at off hold the bits of row.
  ghost predicate TiedTo(bytes: seq<bv8>, off: nat, len: nat, row: seq<bool>) {
    && off + len <= |bytes| && |row| == 8 * len
    && forall i {:trigger BitAt(bytes, off, i)} :: 0 <= i < |row| ==> row[i] == BitAt(bytes, off, i)
  }

  function Written(b: bv8, k: nat, v: bool): bv8
    requires k < 8
  {
    if v then SetBit(b, k) else ClearBit(b, k)
  }

  lemma WriteInside(bytes: seq<bv8>, off: nat, len: nat, row: seq<bool>, i: nat, v: bool)
    requires TiedTo(bytes, off, len, row) && i < |row|
    ensures var p := off + i / 8; TiedTo(bytes[p := Written(bytes[p], i % 8, v)], off, len, row[i := v])
  {
    var p := off + i / 8;
    var bytes' := bytes[p := Written(bytes[p], i % 8, v)];
    forall j {:trigger BitAt(bytes', off, j)} | 0 <= j < |row|
      ensures row[i := v][j] == BitAt(bytes', off, j)
    {
      BitAfterWrite(bytes[p], i % 8, j % 8);
      assert row[j] == BitAt(bytes, off, j);
    }
  }

  lemma WriteElsewhere(bytes: seq<bv8>, p: nat, b: bv8, off: nat, len: nat, row: seq<bool>)
    requires TiedTo(bytes, off, len, row) && p < |bytes| && !(off <= p < off + len)
    ensures TiedTo(bytes[p := b], off, len, row)
  {
    forall j {:trigger BitAt(bytes[p := b], off, j)} | 0 <= j < |row|
      ensures row[j] == BitAt(bytes[p := b], off, j)
    {
      assert row[j] == BitAt(bytes, off, j);
    }
  }

  ghost predicate OrdersTied(bytes: seq<bv8>, orders: seq<Order>, rows: Rows) {
    && |orders| == |rows| == NORDERS
    && forall o :: 0 <= o < NORDERS ==> TiedTo(bytes, orders[o].bitmap, orders[o].size, rows[o])
  }

  ghost predicate Apart(orders: seq<Order>) {
    forall a, b :: 0 <= a < b < |orders| ==> orders[a].bitmap + orders[a].size <= orders[b].bitmap
  }

  lemma WriteOneOrder(bytes: seq<bv8>, orders: seq<Order>, rows: Rows, o: nat, i: nat, v: bool)
    requires OrdersTied(bytes, orders, rows) && Apart(orders) && o < NORDERS && i < |rows[o]|
    ensures var p := orders[o].bitmap + i / 8;
            p < |bytes| && OrdersTied(bytes[p := Written(bytes[p], i % 8, v)], orders, rows[o := rows[o][i := v]])
  {
    assert TiedTo(bytes, orders[o].bitmap, orders[o].size, rows[o]);
    WriteInside(bytes, orders[o].bitmap, orders[o].size, rows[o], i, v);
    var p := orders[o].bitmap + i / 8;
    forall q | 0 <= q < NORDERS && q != o
      ensures TiedTo(bytes[p := Written(bytes[p], i % 8, v)], orders[q].bitmap, orders[q].size, rows[q])
    {
      assert q < o ==> orders[q].bitmap + orders[q].size <= orders[o].bitmap;
      assert o < q ==> orders[o].bitmap + orders[o].size <= orders[q].bitmap;
      WriteElsewhere(bytes, p, Written(bytes[p], i % 8, v), orders[q].bitmap, orders[q].size, rows[q]);
    }
  }

  lemma WriteNoOrder(bytes: seq<bv8>, orders: seq<Order>, rows: Rows, p: nat, b: bv8)
    requires OrdersTied(bytes, orders, rows) && p < |bytes|
    requires forall o :: 0 <= o < NORDERS ==> p < orders[o].bitmap
    ensures OrdersTied(bytes[p := b], orders, rows)
  {
    forall q | 0 <= q < NORDERS
      ensures TiedTo(bytes[p := b], orders[q].bitmap, orders[q].size, rows[q])
    {
      WriteElsewhere(bytes, p, b, orders[q].bitmap, orders[q].size, rows[q]);
    }
  }

  lemma UniformBytes(bytes: seq<bv8>, off: nat, len: nat, row: seq<bool>, v: bool)
    requires off + len <= |bytes| && |row| == 8 * len
    requires forall k :: off <= k < off + len ==> bytes[k] == if v then 0xff else 0
    requires forall i :: 0 <= i < |row| ==> row[i] == v
    ensures TiedTo(bytes, off, len, row)
  {
    forall i {:trigger BitAt(bytes, off, i)} | 0 <= i < |row|
      ensures row[i] == BitAt(bytes, off, i)
    {
      ByteUniform(i % 8);
      assert bytes[off + i / 8] == if v then 0xff else 0;
    }
  }

  ghost function NoneEnabled(nframes: nat): seq<bool> {
    seq(nframes, _ => false)
  }

  lemma UniformEnabled(bytes: seq<bv8>, off: nat, nframes: nat)
    requires nframes % 8 == 0 && off + NBytes(nframes) <= |bytes|
    requires forall k :: off <= k < off + NBytes(nframes) ==> bytes[k] == 0
    ensures TiedTo(bytes, off, NBytes(nframes), NoneEnabled(nframes))
    ensures |NoneEnabled(nframes)| == nframes && SetIn(NoneEnabled(nframes)) == {}
  {
    UniformBytes(bytes, off, NBytes(nframes), NoneEnabled(nframes), false);
  }

  lemma UniformOrders(bytes: seq<bv8>, orders: seq<Order>, nframes: nat)
    requires |orders| == NORDERS
    requires forall o :: 0 <= o < NORDERS ==> orders[o].size == NBytes(NBlocks(nframes, o)) && orders[o].bitmap + orders[o].size <= |bytes|
    requires forall o, k :: 0 <= o < NORDERS && orders[o].bitmap <= k < |bytes| ==> bytes[k] == 0xff
    ensures OrdersTied(bytes, orders, AllTaken(nframes))
  {
    forall o | 0 <= o < NORDERS
      ensures TiedTo(bytes, orders[o].bitmap, orders[o].size, AllTaken(nframes)[o])
    {
      UniformBytes(bytes, orders[o].bitmap, orders[o].size, AllTaken(nframes)[o], true);
    }
  }

  lemma SameByte(a: seq<bv8>, b: seq<bv8>, off: nat, len: nat, row: seq<bool>, k: nat)
    requires TiedTo(a, off, len, row) && TiedTo(b, off, len, row) && off <= k < off + len
    ensures a[k] == b[k]
  {
    forall j | 0 <= j < 8
      ensures Bit(a[k], j) == Bit(b[k], j)
    {
      var i := 8 * (k - off) + j;
      assert row[i] == BitAt(a, off, i) == BitAt(b, off, i);
    }
    ByteExtensional(a[k], b[k]);
  }

  lemma FfsOfByte(bytes: seq<bv8>, off: nat, len: nat, row: seq<bool>, i: nat)
    requires TiedTo(bytes, off, len, row) && i < len
    ensures |row| == 8 * len && off + i < |bytes|
    ensures var f := Ffs(!bytes[off + i]);
            && f <= 8
            && (f == 0 ==> forall k :: 8 * i <= k < 8 * i + 8 ==> row[k])
            && (f > 0 ==> !row[8 * i + f - 1] && forall k :: 8 * i <= k < 8 * i + f - 1 ==> row[k])
  {
    hide Ffs, Bit;
    var b := bytes[off + i];
    FfsComplement(b);
    forall k | 8 * i <= k < 8 * i + 8
      ensures row[k] == Bit(b, k - 8 * i)
    {
      assert row[k] == BitAt(bytes, off, k);
    }
  }
}
