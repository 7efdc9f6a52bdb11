/** rebuild_bitmap_from_file_table of kernel/fs.cpp on whatever table the disk holds: which bits it
    sets, and when it stays inside the bitmap. */
module FsRebuild {
  import opened FsModel

  const BITMAP_BITS: nat := 32768

  /** The block number bit_set is called with for block i of an extent: 32-bit arithmetic. */
  function Block32(x: Extent, i: nat): nat {
    (x.startLba + TWO_32 - DATA_START_LBA + i) % TWO_32
  }

  function ExtentMarks(x: Extent): set<nat> {
    set i | 0 <= i < x.blockCount :: Block32(x, i)
  }

  function ExtentsMarks(xs: seq<Extent>): set<nat> {
    if xs == [] then {} else ExtentsMarks(xs[..|xs| - 1]) + ExtentMarks(xs[|xs| - 1])
  }

  /** All block numbers bit_set is called with. */
  function Marks(t: seq<Entry>): set<nat> {
    if t == [] then {}
    else
      var n := |t| - 1;
      Marks(t[..n]) + if t[n].used then ExtentsMarks(t[n].extents) else {}
  }

  // ----- inside the bitmap

  predicate ExtentInside(x: Extent) {
    x.blockCount == 0 || Block32(x, 0) + x.blockCount <= BITMAP_BITS
  }

  /** Every extent of every used entry ends within the bitmap. */
  predicate InBitmap(t: seq<Entry>) {
    forall i | 0 <= i < |t| && t[i].used :: forall x | x in t[i].extents :: ExtentInside(x)
  }

  predicate ByteInside(b: nat) {
    b / 8 < BITMAP_BYTES
  }

  lemma {:induction false} NextBlock(x: Extent, i: nat)
    requires Block32(x, 0) + i < TWO_32
    ensures Block32(x, i) == Block32(x, 0) + i
  {
    var a := x.startLba + TWO_32 - DATA_START_LBA;
    var q := a / TWO_32;
    assert a + i == q * TWO_32 + (Block32(x, 0) + i);
  }

  function Sum32(a: nat, b: nat): nat {
    (a + b) % TWO_32
  }

  /** The loop of set_extent reaches the same block numbers by adding to a start reduced already. */
  lemma {:induction false} BlockNumber(x: Extent, i: nat)
    requires ExtentInside(x) && i < x.blockCount
    ensures Sum32(Block32(x, 0), i) == Block32(x, i) && ByteInside(Block32(x, i))
  {
    NextBlock(x, i);
  }

  lemma {:induction false} MarksGrow(x: Extent, i: nat)
    ensures ExtentMarks(x.(blockCount := i + 1)) == ExtentMarks(x.(blockCount := i)) + {Block32(x, i)}
  {
    var y, z := x.(blockCount := i), x.(blockCount := i + 1);
    forall b: nat ensures b in ExtentMarks(z) <==> b in ExtentMarks(y) || b == Block32(x, i) {
      if b in ExtentMarks(z) {
        var k :| 0 <= k < i + 1 && Block32(z, k) == b;
        assert Block32(y, k) == b && (k < i ==> b in ExtentMarks(y));
      }
      if b in ExtentMarks(y) {
        var k :| 0 <= k < i && Block32(y, k) == b;
        assert Block32(z, k) == b;
      }
      assert Block32(z, i) == Block32(x, i);
    }
  }

  lemma {:induction false} ExtentExact(x: Extent)
    ensures (forall b | b in ExtentMarks(x) :: ByteInside(b)) <==> ExtentInside(x)
  {
    var first := Block32(x, 0);
    if x.blockCount > 0 {
      assert first in ExtentMarks(x);
      if first < BITMAP_BITS < first + x.blockCount {
        var i := BITMAP_BITS - first;
        NextBlock(x, i);
        assert Block32(x, i) in ExtentMarks(x) && !ByteInside(BITMAP_BITS);
      }
    }
    if ExtentInside(x) {
      forall b | b in ExtentMarks(x) ensures ByteInside(b) {
        var i :| 0 <= i < x.blockCount && Block32(x, i) == b;
        NextBlock(x, i);
      }
    }
  }

  lemma {:induction false} ExtentsExact(xs: seq<Extent>)
    ensures (forall b | b in ExtentsMarks(xs) :: ByteInside(b)) <==> forall x | x in xs :: ExtentInside(x)
  {
    if xs != [] {
      var n := |xs| - 1;
      ExtentsExact(xs[..n]);
      ExtentExact(xs[n]);
      assert xs == xs[..n] + [xs[n]];
    }
  }

  /** The rebuild writes only bytes of the bitmap exactly if every extent of every used entry ends
      within it, counted from the data region modulo 2^32. */
  lemma {:induction false} InsideExact(t: seq<Entry>)
    ensures (forall b | b in Marks(t) :: ByteInside(b)) <==> InBitmap(t)
  {
    if t != [] {
      var n := |t| - 1;
      InsideExact(t[..n]);
      ExtentsExact(t[n].extents);
      assert t == t[..n] + [t[n]];
      assert forall i | 0 <= i < n :: t[..n][i] == t[i];
    }
  }

  /** An entry that starts before the data region: the subtraction wraps, and the byte written lies
      half a gigabyte behind the bitmap. A block just past the data region is harmless. */
  lemma {:induction false} EscapingEntry()
    ensures var e := Entry("A", 1, [Extent(0, 1)], true);
            !InBitmap([e]) && TWO_32 - DATA_START_LBA in Marks([e]) && !ByteInside(TWO_32 - DATA_START_LBA)
    ensures var x := Extent(DATA_START_LBA + TOTAL_DATA_BLOCKS, 1);
            !ExtentOk(x) && InBitmap([Entry("A", 1, [x], true)])
  {
    var x := Extent(0, 1);
    var e := Entry("A", 1, [x], true);
    assert [e][0] == e && x in e.extents;
    assert Block32(x, 0) == TWO_32 - DATA_START_LBA;
    assert Block32(x, 0) in ExtentMarks(x);
    assert ExtentsMarks([x]) == ExtentMarks(x);
    assert Marks([e]) == ExtentsMarks([x]);
  }

  // ----- well-formed entries

  lemma {:induction false} OkExtent(x: Extent)
    requires ExtentOk(x)
    ensures ExtentInside(x) && ExtentMarks(x) == set b | b in ExtentBlocks(x)
  {
    var first := FirstBlock(x);
    assert Block32(x, 0) == first;
    forall i: nat | i < x.blockCount ensures Block32(x, i) == first + i { NextBlock(x, i); }
    forall b: nat ensures b in ExtentMarks(x) <==> b in ExtentBlocks(x) {
      if b in ExtentBlocks(x) {
        var i: nat :| i < x.blockCount && ExtentBlocks(x)[i] == b;
        assert Block32(x, i) == b;
      }
      if b in ExtentMarks(x) {
        var i :| 0 <= i < x.blockCount && Block32(x, i) == b;
        assert ExtentBlocks(x)[i] == b;
      }
    }
  }

  lemma {:induction false} OkExtents(xs: seq<Extent>)
    requires forall x | x in xs :: ExtentOk(x)
    ensures (forall x | x in xs :: ExtentInside(x)) && ExtentsMarks(xs) == BlockSet(xs)
  {
    if xs == [] {
      assert BlockSet(xs) == {};
    } else {
      var n := |xs| - 1;
      OkExtents(xs[..n]);
      assert xs == xs[..n] + [xs[n]] && ExtentOk(xs[n]);
      OkExtent(xs[n]);
      assert BlockSet(xs) == BlockSet(xs[..n]) + set b | b in ExtentBlocks(xs[n]);
    }
  }

  /** For well-formed entries the rebuilt bitmap is the index of the table. */
  lemma {:induction false} RebuiltIndexes(t: seq<Entry>)
    requires EntriesOk(t)
    ensures InBitmap(t) && Indexes(Marks(t), t)
  {
    if t != [] {
      var n := |t| - 1;
      assert EntryOk(t[n]) && forall i | 0 <= i < n :: t[..n][i] == t[i];
      RebuiltIndexes(t[..n]);
      OkExtents(t[n].extents);
      assert Blocks([]) == [];
      forall b: nat ensures b in Marks(t) <==> Covers(t, b) {
        assert b in Marks(t[..n]) <==> Covers(t[..n], b);
        assert Covers(t, b) <==> Covers(t[..n], b) || b in Blocks(t[n].extents) by { CoversLast(t, b); }
      }
    }
  }

  lemma {:induction false} CoversLast(t: seq<Entry>, b: nat)
    requires t != []
    ensures Covers(t, b) <==> Covers(t[..|t| - 1], b) || b in Blocks(t[|t| - 1].extents)
  {
    var n := |t| - 1;
    if i :| 0 <= i < n && b in Blocks(t[..n][i].extents) { assert t[i] == t[..n][i]; }
    if i :| 0 <= i < |t| && b in Blocks(t[i].extents) {
      if i < n { assert t[..n][i] == t[i]; }
    }
  }
}
