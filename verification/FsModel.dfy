/** VenomFS (kernel/fs.cpp) as values: file entries, the blocks they own, their contents. */
module FsModel {

  const SECTOR_SIZE: nat := 512
  const DATA_START_LBA: nat := 274
  const TOTAL_DATA_BLOCKS: nat := 32494
  const BITMAP_BYTES: nat := 4096
  const SUPERBLOCK_LBA: nat := 256
  const FILE_TABLE_LBA: nat := 257
  const FILE_TABLE_SECTORS: nat := 9
  const BITMAP_LBA: nat := 266
  const BITMAP_SECTORS: nat := 8
  const MAX_FILENAME: nat := 32
  const MAX_FILES: nat := 64
  const MAX_EXTENTS: nat := 4
  const TWO_32: nat := 0x1_0000_0000
  const TWO_64: nat := 0x1_0000_0000_0000_0000

  type Sector = seq<bv8>

  /** The disk sectors by logical block address. */
  type Sectors = map<nat, Sector>

  datatype Option<T> = None | Some(value: T)

  datatype Extent = Extent(startLba: nat, blockCount: nat)

  /** A file table entry; `extents` are the first extent_count of its extents. */
  datatype Entry = Entry(name: string, sizeBytes: nat, extents: seq<Extent>, used: bool)

  const BLANK := Entry("", 0, [], false)

  // ----- blocks

  /** The data blocks n, n + 1, ... of an extent. */
  function Run(first: nat, count: nat): (r: seq<nat>)
    ensures |r| == count && forall i | 0 <= i < count :: r[i] == first + i
  {
    seq(count, (i: nat) => first + i)
  }

  function FirstBlock(x: Extent): nat {
    if x.startLba < DATA_START_LBA then 0 else x.startLba - DATA_START_LBA
  }

  function ExtentBlocks(x: Extent): seq<nat> {
    Run(FirstBlock(x), x.blockCount)
  }

  /** The blocks of a file in file order. */
  function Blocks(xs: seq<Extent>): seq<nat> {
    if xs == [] then [] else Blocks(xs[..|xs| - 1]) + ExtentBlocks(xs[|xs| - 1])
  }

  predicate ExtentOk(x: Extent) {
    DATA_START_LBA <= x.startLba && x.startLba + x.blockCount <= DATA_START_LBA + TOTAL_DATA_BLOCKS
  }

  /** Sector l is one that block i of the extent is stored in. */
  predicate StoredIn(x: Extent, i: nat, l: nat) {
    i < x.blockCount && l == x.startLba + i
  }

  /** No block of a file lies where the superblock, the table or the bitmap is saved, none of which
      share a sector, or past the disk's 32768 sectors; a table of 64 entries of 72 bytes and a bit for
      every block fit their places. So the four can be told apart, as the disk of this model does. */
  lemma {:induction false} RegionsApart(x: Extent, i: nat, l: nat)
    requires ExtentOk(x) && StoredIn(x, i, l)
    ensures l < 32768 && l != SUPERBLOCK_LBA && !(FILE_TABLE_LBA <= l < FILE_TABLE_LBA + FILE_TABLE_SECTORS)
            && !(BITMAP_LBA <= l < BITMAP_LBA + BITMAP_SECTORS)
    ensures SUPERBLOCK_LBA < FILE_TABLE_LBA && FILE_TABLE_LBA + FILE_TABLE_SECTORS <= BITMAP_LBA
            && MAX_FILES * 72 <= FILE_TABLE_SECTORS * SECTOR_SIZE
            && TOTAL_DATA_BLOCKS <= 8 * BITMAP_BYTES == 8 * BITMAP_SECTORS * SECTOR_SIZE
  {
  }

  predicate Unique(bs: seq<nat>) {
    forall i, j | 0 <= i < j < |bs| :: bs[i] != bs[j]
  }

  predicate ExtentsOk(xs: seq<Extent>) {
    |xs| <= MAX_EXTENTS && (forall x | x in xs :: ExtentOk(x)) && Unique(Blocks(xs))
  }

  function CeilDiv(size: nat): nat {
    (size + SECTOR_SIZE - 1) / SECTOR_SIZE
  }

  predicate EntryOk(e: Entry) {
    if e.used then
      |e.name| < MAX_FILENAME && ExtentsOk(e.extents) && |Blocks(e.extents)| == CeilDiv(e.sizeBytes)
    else e.extents == []
  }

  /** Two entries neither share a name nor a block. */
  ghost predicate Apart(d: Entry, e: Entry) {
    && (d.used && e.used ==> d.name != e.name)
    && forall b | b in Blocks(d.extents) :: b !in Blocks(e.extents)
  }

  ghost predicate ApartAt(t: seq<Entry>, i: int, j: int) {
    0 <= i < |t| && 0 <= j < |t| && i != j ==> Apart(t[i], t[j])
  }

  /** Each entry is well formed on its own. */
  predicate EntriesOk(t: seq<Entry>) {
    forall i | 0 <= i < |t| :: EntryOk(t[i])
  }

  ghost predicate Consistent(t: seq<Entry>) {
    && EntriesOk(t)
    && forall i, j {:trigger ApartAt(t, i, j)} :: ApartAt(t, i, j)
  }

  predicate Covers(t: seq<Entry>, b: nat) {
    exists i | 0 <= i < |t| :: b in Blocks(t[i].extents)
  }

  /** The bitmap is the index of the table: a bit is set exactly if an entry owns the block. */
  ghost predicate Indexes(bits: set<nat>, t: seq<Entry>) {
    forall b: nat {:trigger Covers(t, b)} :: b in bits <==> Covers(t, b)
  }

  /** The table determines its bitmap: one rebuilt from it is the one kept up to date. */
  lemma {:induction false} IndexUnique(bits: set<nat>, bits': set<nat>, t: seq<Entry>)
    requires Indexes(bits, t) && Indexes(bits', t)
    ensures bits == bits'
  {
    forall b: nat ensures b in bits <==> b in bits' { assert b in bits <==> Covers(t, b); }
  }

  lemma {:induction false} BlocksInRegion(xs: seq<Extent>, b: nat)
    requires (forall x | x in xs :: ExtentOk(x)) && b in Blocks(xs)
    ensures b < TOTAL_DATA_BLOCKS
  {
    var n := |xs| - 1;
    if b in Blocks(xs[..n]) {
      BlocksInRegion(xs[..n], b);
    } else {
      assert ExtentOk(xs[n]);
    }
  }

  lemma {:induction false} BlocksGrow(xs: seq<Extent>, x: Extent)
    ensures Blocks(xs + [x]) == Blocks(xs) + ExtentBlocks(x)
  {
    assert (xs + [x])[..|xs|] == xs;
  }

  lemma {:induction false} BlocksPrefix(xs: seq<Extent>, n: nat)
    requires n <= |xs|
    ensures |Blocks(xs[..n])| <= |Blocks(xs)| && Blocks(xs)[..|Blocks(xs[..n])|] == Blocks(xs[..n])
    decreases |xs| - n
  {
    if n < |xs| {
      BlocksPrefix(xs, n + 1);
      assert xs[..n + 1][..n] == xs[..n];
      assert Blocks(xs[..n + 1]) == Blocks(xs[..n]) + ExtentBlocks(xs[n]);
    } else {
      assert xs[..n] == xs;
    }
  }

  /** Position k in the file, i blocks into extent e. */
  lemma {:induction false} BlockAt(xs: seq<Extent>, e: nat, i: nat)
    requires e < |xs| && i < xs[e].blockCount
    ensures var k := |Blocks(xs[..e])| + i; k < |Blocks(xs)| && Blocks(xs)[k] == FirstBlock(xs[e]) + i
  {
    BlocksPrefix(xs, e + 1);
    assert xs[..e + 1][..e] == xs[..e];
  }

  // ----- contents

  /** The bytes of blocks one after the other. */
  function Bytes(s: Sectors, bs: seq<nat>): seq<bv8> {
    if bs == [] then []
    else Bytes(s, bs[..|bs| - 1]) + SectorAt(s, bs[|bs| - 1])
  }

  function SectorAt(s: Sectors, b: nat): Sector {
    if DATA_START_LBA + b in s then s[DATA_START_LBA + b] else []
  }

  predicate SectorOk(s: Sectors, b: nat) {
    DATA_START_LBA + b in s && |s[DATA_START_LBA + b]| == SECTOR_SIZE
  }

  ghost predicate SectorsOk(s: Sectors) {
    forall b: nat {:trigger SectorOk(s, b)} | b < TOTAL_DATA_BLOCKS :: SectorOk(s, b)
  }

  ghost predicate SameOn(s: Sectors, s': Sectors, bs: seq<nat>) {
    forall b | b in bs :: SectorAt(s', b) == SectorAt(s, b)
  }

  lemma {:induction false} BytesSame(s: Sectors, s': Sectors, bs: seq<nat>)
    requires SameOn(s, s', bs)
    ensures Bytes(s', bs) == Bytes(s, bs)
  {
    if bs != [] {
      assert bs[|bs| - 1] in bs;
      BytesSame(s, s', bs[..|bs| - 1]);
    }
  }

  lemma {:induction false} BytesGrow(s: Sectors, bs: seq<nat>, b: nat)
    ensures Bytes(s, bs + [b]) == Bytes(s, bs) + SectorAt(s, b)
  {
    assert (bs + [b])[..|bs|] == bs;
  }

  lemma {:induction false} BytesLength(s: Sectors, bs: seq<nat>)
    requires SectorsOk(s) && forall i | 0 <= i < |bs| :: bs[i] < TOTAL_DATA_BLOCKS
    ensures |Bytes(s, bs)| == SECTOR_SIZE * |bs|
  {
    if bs != [] {
      assert SectorOk(s, bs[|bs| - 1]);
      BytesLength(s, bs[..|bs| - 1]);
    }
  }

  /** The first n bytes of a sequence, all of it if it is shorter. */
  function Take<T>(s: seq<T>, n: nat): seq<T> {
    if n <= |s| then s[..n] else s
  }

  function Content(s: Sectors, e: Entry): seq<bv8> {
    Take(Bytes(s, Blocks(e.extents)), e.sizeBytes)
  }

  // ----- names

  /** The first used entry with a name, |t| if there is none. */
  function Slot(t: seq<Entry>, name: string): (i: nat)
    ensures i <= |t| && (i < |t| ==> t[i].used && t[i].name == name)
    ensures i == |t| ==> forall j | 0 <= j < |t| :: !(t[j].used && t[j].name == name)
  {
    if t == [] then 0 else if t[0].used && t[0].name == name then 0 else 1 + Slot(t[1..], name)
  }

  /** The file system as a partial map from names to bytes. */
  function FileOf(t: seq<Entry>, s: Sectors, name: string): Option<seq<bv8>> {
    var i := Slot(t, name);
    if i < |t| then Some(Content(s, t[i])) else None
  }

  lemma {:induction false} SlotIs(t: seq<Entry>, i: nat)
    requires Consistent(t) && i < |t| && t[i].used
    ensures Slot(t, t[i].name) == i
  {
    var k := Slot(t, t[i].name);
    assert k < |t|;
    assert ApartAt(t, k, i);
  }

  /** One entry replaced: files under other names, whose blocks were not written, are unchanged. */
  lemma {:induction false} OtherFile(t: seq<Entry>, s: Sectors, i: nat, e: Entry, s': Sectors, name: string)
    requires i < |t| && Consistent(t) && Consistent(t[i := e])
    requires (t[i].used ==> t[i].name != name) && (e.used ==> e.name != name)
    requires forall j | 0 <= j < |t| && j != i :: SameOn(s, s', Blocks(t[j].extents))
    ensures FileOf(t[i := e], s', name) == FileOf(t, s, name)
  {
    var t' := t[i := e];
    var k, k' := Slot(t, name), Slot(t', name);
    if k < |t| {
      SlotIs(t', k);
      BytesSame(s, s', Blocks(t[k].extents));
    }
  }

  // ----- one entry freed or filled

  lemma {:induction false} ReplaceConsistent(t: seq<Entry>, i: nat, e: Entry)
    requires Consistent(t) && i < |t| && EntryOk(e)
    requires forall j | 0 <= j < |t| && j != i :: Apart(e, t[j])
    ensures Consistent(t[i := e])
  {
    var t' := t[i := e];
    forall j, k ensures ApartAt(t', j, k) {
      assert ApartAt(t, j, k);
      if 0 <= j < |t| && j != i { assert Apart(e, t[j]); }
      if 0 <= k < |t| && k != i { assert Apart(e, t[k]); }
    }
  }

  lemma {:induction false} BlankConsistent(t: seq<Entry>, i: nat)
    requires Consistent(t) && i < |t|
    ensures Consistent(t[i := BLANK])
  {
    ReplaceConsistent(t, i, BLANK);
  }

  function BlockSet(xs: seq<Extent>): set<nat> {
    set b | b in Blocks(xs)
  }

  lemma {:induction false} BlankIndexes(bits: set<nat>, t: seq<Entry>, i: nat)
    requires Consistent(t) && i < |t| && Indexes(bits, t)
    ensures Indexes(bits - BlockSet(t[i].extents), t[i := BLANK])
  {
    var t' := t[i := BLANK];
    forall b: nat ensures b in bits - BlockSet(t[i].extents) <==> Covers(t', b) {
      assert b in bits <==> Covers(t, b);
      if Covers(t, b) && b !in BlockSet(t[i].extents) {
        var k :| 0 <= k < |t| && b in Blocks(t[k].extents);
        assert t'[k] == t[k];
      }
      if Covers(t', b) {
        var k :| 0 <= k < |t'| && b in Blocks(t'[k].extents);
        assert k != i && t[k] == t'[k];
        assert ApartAt(t, i, k);
      }
    }
  }

  lemma {:induction false} FillIndexes(bits: set<nat>, t: seq<Entry>, i: nat, e: Entry)
    requires i < |t| && t[i].extents == [] && Indexes(bits, t)
    ensures Indexes(bits + BlockSet(e.extents), t[i := e])
  {
    var t' := t[i := e];
    forall b: nat ensures b in bits + BlockSet(e.extents) <==> Covers(t', b) {
      assert b in bits <==> Covers(t, b);
      if Covers(t, b) {
        var k :| 0 <= k < |t| && b in Blocks(t[k].extents);
        assert t'[k] == t[k];
      }
      if b in BlockSet(e.extents) { assert t'[i] == e; }
      if Covers(t', b) {
        var k :| 0 <= k < |t'| && b in Blocks(t'[k].extents);
        assert k != i ==> t[k] == t'[k];
      }
    }
  }

  /** A file in blocks nobody owns, under a name nobody uses, fits any free slot. */
  lemma {:induction false} FillConsistent(bits: set<nat>, t: seq<Entry>, i: nat, e: Entry)
    requires Consistent(t) && Indexes(bits, t) && i < |t| && EntryOk(e) && e.used && Slot(t, e.name) == |t|
    requires forall b | b in Blocks(e.extents) :: b !in bits
    ensures Consistent(t[i := e])
  {
    forall j | 0 <= j < |t| && j != i ensures Apart(e, t[j]) {
      forall b | b in Blocks(e.extents) ensures b !in Blocks(t[j].extents) {
        assert b in bits <==> Covers(t, b);
      }
    }
    ReplaceConsistent(t, i, e);
  }

  // ----- a file cut into sectors

  /** Sector k of a file, the last one filled up with zeros. */
  function Chunk(data: seq<bv8>, k: nat): (r: Sector)
    ensures |r| == SECTOR_SIZE
  {
    seq(SECTOR_SIZE, (i: nat) => if SECTOR_SIZE * k + i < |data| then data[SECTOR_SIZE * k + i] else 0)
  }

  function Chunks(data: seq<bv8>, n: nat): (r: seq<bv8>)
    ensures |r| == SECTOR_SIZE * n
  {
    if n == 0 then [] else Chunks(data, n - 1) + Chunk(data, n - 1)
  }

  lemma {:induction false} ChunksAt(data: seq<bv8>, n: nat, i: nat)
    requires i < SECTOR_SIZE * n && i < |data|
    ensures Chunks(data, n)[i] == data[i]
  {
    if i < SECTOR_SIZE * (n - 1) {
      ChunksAt(data, n - 1, i);
    }
  }

  /** Cutting into sectors loses nothing: cutting the sectors off at the size gives the data back. */
  lemma {:induction false} ChunksTake(data: seq<bv8>)
    ensures |data| <= SECTOR_SIZE * CeilDiv(|data|)
    ensures Take(Chunks(data, CeilDiv(|data|)), |data|) == data
  {
    forall i | 0 <= i < |data| ensures Chunks(data, CeilDiv(|data|))[i] == data[i] {
      ChunksAt(data, CeilDiv(|data|), i);
    }
  }

  // ----- sizes

  /** blocks_needed and size_bytes as the code computes them, in 64 and 32 bits. */
  function BlocksNeeded(size: nat): nat {
    (size + SECTOR_SIZE - 1) % TWO_64 / SECTOR_SIZE % TWO_32
  }

  function SizeBytes(size: nat): nat {
    size % TWO_32
  }

  const MAX_SIZE: nat := 0x1FF_FFFF_FE00  // 2^41 - 512

  /** A write that passes the space check records its true size and owns enough blocks exactly
      when the size is at most 2^41 - 512; above that the block count wraps. */
  lemma {:induction false} SizesExact(size: nat)
    requires size < TWO_64 && BlocksNeeded(size) <= TOTAL_DATA_BLOCKS
    ensures SizeBytes(size) == size && BlocksNeeded(size) == CeilDiv(size) <==> size <= MAX_SIZE
  {
    if size <= MAX_SIZE {
      assert size + SECTOR_SIZE - 1 < TWO_64;
      assert CeilDiv(size) < TWO_32;
    }
  }

  /** 2^41 - 511 bytes: no block at all, and a size that is not zero. */
  lemma {:induction false} SizeWraps()
    ensures BlocksNeeded(MAX_SIZE + 1) == 0 && SizeBytes(MAX_SIZE + 1) == 0xFFFF_FE01
  {
  }
}
