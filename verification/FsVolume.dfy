/** VenomFS as kernel/fs.cpp keeps it: the file table and the bitmap in memory, the sectors and
    a copy of the table on a disk whose writes may fail. */
module FsVolume {
  import opened Bitmap
  import opened FsModel
  import opened FsRebuild
  import opened FsSpace

  /** A disk as ata::write_sectors shows it: true means the target holds the data, false
      leaves it arbitrary; a read may fail too. */
  class Disk {
    var magic: string
    var table: seq<Entry>
    var bitmap: seq<bv8>
    var sectors: Sectors
    const fails: nat -> bool
    var ops: nat           // reads and writes so far
    ghost var faults: nat  // those that failed

    /** Operation number n fails if fails(n) says so; every pattern of faults is some such function. */
    constructor (magic: string, table: seq<Entry>, sectors: Sectors, fails: nat -> bool)
      ensures this.magic == magic && this.table == table && this.sectors == sectors && this.fails == fails
      ensures ops == faults == 0
    {
      this.magic, this.table, this.sectors, this.fails := magic, table, sectors, fails;
      bitmap, ops, faults := *, 0, 0;
    }

    /** The next operation: does it go through? */
    method Attempt() returns (ok: bool)
      modifies `ops, `faults
      ensures ok == !fails(old(ops)) && ops == old(ops) + 1
      ensures faults == old(faults) + if ok then 0 else 1
    {
      ok := !fails(ops);
      ops := ops + 1;
      if !ok { faults := faults + 1; }
    }

    method WriteSector(lba: nat, data: Sector) returns (ok: bool, ghost stored: Sector)
      modifies `sectors, `ops, `faults
      ensures sectors == old(sectors)[lba := stored] && |stored| == |data| && (ok ==> stored == data)
      ensures faults == old(faults) + if ok then 0 else 1
    {
      var junk: Sector :| |junk| == |data|;
      ok := Attempt();
      stored := if ok then data else junk;
      sectors := sectors[lba := if ok then data else junk];
    }

    /** A sector the disk does not have cannot be read either. */
    method ReadSector(lba: nat) returns (ok: bool, data: Sector)
      modifies `ops, `faults
      ensures ok ==> lba in sectors && data == sectors[lba]
      ensures faults == old(faults) + if ok then 0 else 1
    {
      data := *;
      ok := Attempt();
      if ok {
        if lba in sectors { data := sectors[lba]; } else { ok, faults := false, faults + 1; }
      }
    }

    method WriteTable(t: seq<Entry>) returns (ok: bool)
      modifies `table, `ops, `faults
      ensures ok == !fails(old(ops)) && ops == old(ops) + 1
      ensures ok ==> table == t
      ensures faults == old(faults) + if ok then 0 else 1
    {
      ok := Attempt();
      if ok { table := t; } else { table := *; }
    }

    method ReadTable(size: nat) returns (ok: bool, t: seq<Entry>)
      modifies `ops, `faults
      ensures ok == !fails(old(ops)) && ops == old(ops) + 1
      ensures |t| == size && (ok && |table| == size ==> t == table)
      ensures faults == old(faults) + if ok then 0 else 1
    {
      t :| |t| == size by { assert |seq(size, _ => BLANK)| == size; }
      ok := Attempt();
      if ok && |table| == size { t := table; }
    }

    method ReadMagic() returns (ok: bool, m: string)
      modifies `ops, `faults
      ensures ok == !fails(old(ops)) && ops == old(ops) + 1
      ensures ok ==> m == magic
      ensures faults == old(faults) + if ok then 0 else 1
    {
      m := *;
      ok := Attempt();
      if ok { m := magic; }
    }

    method WriteMagic(m: string) returns (ok: bool)
      modifies `magic, `ops, `faults
      ensures ok ==> magic == m
      ensures faults == old(faults) + if ok then 0 else 1
    {
      ok := Attempt();
      if ok { magic := m; } else { magic := *; }
    }

    method WriteBitmap(b: seq<bv8>) returns (ok: bool)
      modifies `bitmap, `ops, `faults
      ensures ok == !fails(old(ops)) && ops == old(ops) + 1
      ensures ok ==> bitmap == b
      ensures faults == old(faults) + if ok then 0 else 1
    {
      ok := Attempt();
      if ok { bitmap := b; } else { bitmap := *; }
    }
  }

  /** File `name` became r, every other name kept what it had. */
  ghost predicate Became(t: seq<Entry>, s: Sectors, t': seq<Entry>, s': Sectors, name: string, r: Option<seq<bv8>>) {
    forall n: string :: FileOf(t', s', n) == if n == name then r else FileOf(t, s, n)
  }

  class Volume {
    const fileTable: array<Entry>
    const bitmap: array<bv8>
    const disk: Disk

    ghost function Bits(): set<nat>
      reads bitmap
    {
      Ones(bitmap[..])
    }

    ghost function Table(): seq<Entry>
      reads fileTable
    {
      fileTable[..]
    }

    ghost predicate Shape()
    {
      fileTable.Length == MAX_FILES && bitmap.Length == BITMAP_BYTES
    }

    ghost predicate Valid()
      reads fileTable, bitmap, disk
    {
      Shape() && Consistent(Table()) && Indexes(Bits(), Table()) && SectorsOk(disk.sectors)
    }

    /** Before init both are zero, as static data is. */
    constructor (disk: Disk)
      requires SectorsOk(disk.sectors)
      ensures Valid() && this.disk == disk && fresh(fileTable) && fresh(bitmap)
      ensures forall n :: FileOf(Table(), disk.sectors, n) == None
    {
      fileTable := new Entry[MAX_FILES](_ => BLANK);
      bitmap := new bv8[BITMAP_BYTES](_ => 0);
      this.disk := disk;
      new;
      NoBits(bitmap[..]);
      BlankTable(Table(), disk.sectors);
    }

    // ----- the bitmap

    method BitTest(block: nat) returns (marked: bool)
      requires Shape() && block < TOTAL_DATA_BLOCKS
      ensures marked <==> block in Bits()
    {
      marked := bitmap[block / 8] & Mask(block % 8) != 0;
      assert marked == Test(bitmap[..], block);
    }

    method BitSet(block: nat)
      requires Shape() && ByteInside(block)
      modifies bitmap
      ensures Bits() == old(Bits()) + {block}
    {
      SetOnes(bitmap[..], block);
      bitmap[block / 8] := bitmap[block / 8] | Mask(block % 8);
      assert bitmap[..] == Set(old(bitmap[..]), block);
    }

    method BitClear(block: nat)
      requires Shape() && block < TOTAL_DATA_BLOCKS
      modifies bitmap
      ensures Bits() == old(Bits()) - {block}
    {
      SetOnes(bitmap[..], block);
      bitmap[block / 8] := bitmap[block / 8] & !Mask(block % 8);
      assert bitmap[..] == Clear(old(bitmap[..]), block);
    }

    method SetExtent(x: Extent)
      requires Shape() && ExtentInside(x)
      modifies bitmap
      ensures Bits() == old(Bits()) + ExtentMarks(x)
    {
      var start := Block32(x, 0);
      ghost var was := Bits();
      for i := 0 to x.blockCount
        invariant Bits() == was + ExtentMarks(x.(blockCount := i))
      {
        BlockNumber(x, i);
        BitSet(Sum32(start, i));
        MarksGrow(x, i);
      }
    }

    method ClearExtent(x: Extent)
      requires Shape() && ExtentOk(x)
      modifies bitmap
      ensures Bits() == old(Bits()) - set b | b in ExtentBlocks(x)
    {
      var start := x.startLba - DATA_START_LBA;
      ghost var was := Bits();
      for i := 0 to x.blockCount
        invariant Bits() == was - set b | b in Run(start, i)
      {
        BitClear(start + i);
        RunGrows(start, i);
      }
    }

    method SetExtents(xs: seq<Extent>)
      requires Shape() && forall x | x in xs :: ExtentInside(x)
      modifies bitmap
      ensures Bits() == old(Bits()) + ExtentsMarks(xs)
    {
      ghost var was := Bits();
      for e := 0 to |xs|
        invariant Bits() == was + ExtentsMarks(xs[..e])
      {
        SetExtent(xs[e]);
        assert xs[..e + 1] == xs[..e] + [xs[e]];
        assert xs[..e + 1][..e] == xs[..e];
      }
      assert xs[..|xs|] == xs;
    }

    method ClearExtents(xs: seq<Extent>)
      requires Shape() && forall x | x in xs :: ExtentOk(x)
      modifies bitmap
      ensures Bits() == old(Bits()) - BlockSet(xs)
    {
      ghost var was := Bits();
      for e := 0 to |xs|
        invariant Bits() == was - BlockSet(xs[..e])
      {
        ClearExtent(xs[e]);
        assert xs[..e + 1] == xs[..e] + [xs[e]];
        BlocksGrow(xs[..e], xs[e]);
      }
      assert xs[..|xs|] == xs;
    }

    // ----- the table

    method Find(name: string) returns (i: nat)
      ensures i == Slot(Table(), name)
    {
      i := 0;
      while i < fileTable.Length
        invariant i <= fileTable.Length
        invariant forall j | 0 <= j < i :: !(fileTable[j].used && fileTable[j].name == name)
      {
        if fileTable[i].used && fileTable[i].name == name { break; }
        i := i + 1;
      }
      FirstSlot(Table(), name, i);
    }

    method FreeEntry(i: nat)
      requires Valid() && i < MAX_FILES
      modifies fileTable, bitmap
      ensures Valid() && Table() == old(Table())[i := BLANK]
      ensures Bits() == old(Bits()) - BlockSet(old(fileTable[i].extents))
    {
      ghost var t, bits := Table(), Bits();
      BlankConsistent(t, i);
      BlankIndexes(bits, t, i);
      assert EntryOk(t[i]);
      ClearExtents(fileTable[i].extents);
      fileTable[i] := BLANK;
      assert Table() == t[i := BLANK];
    }

    /** The bitmap computed afresh from the table, whatever that holds: exactly the blocks its used
        entries name. */
    method RebuildBitmap()
      requires Shape() && InBitmap(Table())
      modifies bitmap
      ensures Bits() == Marks(Table())
    {
      for i := 0 to bitmap.Length
        invariant forall j | 0 <= j < i :: bitmap[j] == 0
      {
        bitmap[i] := 0;
      }
      NoBits(bitmap[..]);
      ghost var t := Table();
      for i := 0 to fileTable.Length
        invariant Bits() == Marks(t[..i])
      {
        if fileTable[i].used { SetExtents(fileTable[i].extents); }
        assert t[..i + 1] == t[..i] + [t[i]];
        assert t[..i + 1][..i] == t[..i];
      }
      assert t[..|t|] == t;
    }

    // ----- free space

    /** The lowest start of `needed` free blocks in a row, if there is one. */
    method FindFreeRun(needed: nat) returns (found: bool, start: nat)
      requires Shape()
      ensures found ==> AllFree(Bits(), start, needed) && (needed > 0 ==> start + needed <= TOTAL_DATA_BLOCKS)
      ensures forall s: nat {:trigger AllFree(Bits(), s, needed)} |
                s + needed <= TOTAL_DATA_BLOCKS && (found ==> s < start) :: !AllFree(Bits(), s, needed)
    {
      if needed == 0 { return true, 0; }
      ghost var bits := Bits();
      var runStart, runLength, block := 0, 0, 0;
      while block < TOTAL_DATA_BLOCKS
        invariant RunScanned(bits, needed, runStart, runLength, block)
      {
        var used := BitTest(block);
        RunStep(bits, needed, runStart, runLength, block);
        if !used {
          if runLength == 0 { runStart := block; }
          runLength := runLength + 1;
          if runLength == needed { return true, runStart; }
        } else {
          runLength := 0;
        }
        block := block + 1;
      }
      return false, 0;
    }

    /** The lowest `needed` free blocks as at most four extents; none if there is no such. */
    method FindFreeExtents(needed: nat) returns (xs: seq<Extent>)
      requires Shape()
      ensures xs != [] <==> needed > 0 && HasSpace(Bits(), needed)
      ensures xs != [] ==> Blocks(xs) == FreeBelow(Bits(), TOTAL_DATA_BLOCKS)[..needed]
      ensures |xs| <= MAX_EXTENTS && forall x | x in xs :: ExtentOk(x)
    {
      ghost var bits := Bits();
      var remaining: nat, block: nat := needed, 0;
      xs := [];
      while block < TOTAL_DATA_BLOCKS && remaining > 0 && |xs| < MAX_EXTENTS
        invariant Scanned(bits, needed, xs, block, remaining)
        decreases TOTAL_DATA_BLOCKS - block
      {
        var used := BitTest(block);
        if used {
          ScanUsed(bits, needed, xs, block, remaining);
          block := block + 1;
          continue;
        }
        var runStart := block;
        block := SkipFree(block, remaining);
        ScanRun(bits, needed, xs, runStart, remaining, block - runStart);
        xs := xs + [Extent(DATA_START_LBA + runStart, block - runStart)];
        remaining := remaining - (block - runStart);
      }
      ScanDone(bits, needed, xs, block, remaining);
      if remaining > 0 { xs := []; }
    }

    /** The end of the free stretch at `block`, cut off after `limit` blocks. */
    method SkipFree(start: nat, limit: nat) returns (block: nat)
      requires Shape() && start < TOTAL_DATA_BLOCKS && start !in Bits() && limit > 0
      ensures start < block <= TOTAL_DATA_BLOCKS && block - start <= limit && AllFree(Bits(), start, block - start)
      ensures block == TOTAL_DATA_BLOCKS || block - start == limit || block in Bits()
    {
      block := start;
      var runLength := 0;
      while block < TOTAL_DATA_BLOCKS && runLength < limit
        invariant start <= block <= TOTAL_DATA_BLOCKS && runLength == block - start <= limit
        invariant AllFree(Bits(), start, block - start)
      {
        var used := BitTest(block);
        if used { break; }
        runLength := runLength + 1;
        block := block + 1;
      }
    }

    /** The blocks for a new file, marked in the bitmap. */
    method Allocate(needed: nat) returns (ok: bool, xs: seq<Extent>)
      requires Shape()
      modifies bitmap
      ensures ok <==> Room(old(Bits()), needed)
      ensures Bits() == old(Bits()) + BlockSet(xs) && (!ok ==> xs == [])
      ensures ok ==> ExtentsOk(xs) && |Blocks(xs)| == needed && forall b | b in Blocks(xs) :: b !in old(Bits())
    {
      xs := [];
      assert Blocks([]) == [];
      if needed == 0 { return true, xs; }
      var found, start := FindFreeRun(needed);
      if found {
        xs := [Extent(DATA_START_LBA + start, needed)];
        OneExtent(Bits(), start, needed);
      } else {
        xs := FindFreeExtents(needed);
        if xs == [] { return false, xs; }
        FreeExtents(Bits(), needed, xs);
      }
      ok := true;
      OkExtents(xs);
      SetExtents(xs);
    }

    // ----- write

    /** The blocks of an extent, filled with the sectors k, k + 1, ... of the data. */
    method WriteExtent(x: Extent, data: seq<bv8>, k: nat) returns (ok: bool)
      requires ExtentOk(x) && SectorsOk(disk.sectors)
      modifies disk`sectors, disk`ops, disk`faults
      ensures disk.faults >= old(disk.faults) && (!ok ==> disk.faults > old(disk.faults))
      ensures SectorsOk(disk.sectors) && SameOff(old(disk.sectors), disk.sectors, ExtentBlocks(x))
      ensures ok ==> Written(disk.sectors, FirstBlock(x), data, k, x.blockCount)
    {
      ghost var s0, first := disk.sectors, FirstBlock(x);
      for i := 0 to x.blockCount
        invariant SectorsOk(disk.sectors) && SameOff(s0, disk.sectors, ExtentBlocks(x))
                  && disk.faults == old(disk.faults)
        invariant Written(disk.sectors, first, data, k, i)
      {
        ghost var s := disk.sectors;
        var written, stored := disk.WriteSector(x.startLba + i, Chunk(data, k + i));
        SectorWritten(s, first + i, stored);
        WriteStep(s0, s, disk.sectors, x, data, k, i);
        if !written { return false; }
      }
      ok := true;
    }

    /** All sectors of a file, stopping at the first that fails. */
    method WriteData(xs: seq<Extent>, data: seq<bv8>) returns (ok: bool)
      requires ExtentsOk(xs) && SectorsOk(disk.sectors)
      modifies disk`sectors, disk`ops, disk`faults
      ensures !ok ==> disk.faults > old(disk.faults)
      ensures SectorsOk(disk.sectors) && SameOff(old(disk.sectors), disk.sectors, Blocks(xs))
      ensures disk.faults >= old(disk.faults)
      ensures ok ==> Bytes(disk.sectors, Blocks(xs)) == Chunks(data, |Blocks(xs)|)
    {
      ghost var s0 := disk.sectors;
      var k := 0;
      for e := 0 to |xs|
        invariant k == |Blocks(xs[..e])| && Sofar(s0, disk.sectors, xs, data, e) && disk.faults >= old(disk.faults)
      {
        ghost var was := disk.sectors;
        ExtentNext(xs, e);
        ok := WriteExtent(xs[e], data, k);
        SofarStep(s0, was, disk.sectors, xs, data, e);
        if !ok { return; }
        k := k + xs[e].blockCount;
      }
      assert xs[..|xs|] == xs;
      ok := true;
    }

    method SaveBitmap() returns (ok: bool)
      modifies disk`bitmap, disk`ops, disk`faults
      ensures ok == !disk.fails(old(disk.ops)) && disk.ops == old(disk.ops) + 1
      ensures ok ==> disk.bitmap == bitmap[..]
      ensures disk.faults == old(disk.faults) + if ok then 0 else 1
    {
      ok := disk.WriteBitmap(bitmap[..]);
    }

    method SaveFileTable() returns (ok: bool)
      modifies disk`table, disk`ops, disk`faults
      ensures ok == !disk.fails(old(disk.ops)) && disk.ops == old(disk.ops) + 1
      ensures ok ==> disk.table == Table()
      ensures disk.faults == old(disk.faults) + if ok then 0 else 1
    {
      ok := disk.WriteTable(fileTable[..]);
    }

    /** An existing file is removed first; the slot is its own, or the first unused one. */
    method ClaimSlot(name: string) returns (slot: nat)
      requires Valid()
      modifies fileTable, bitmap
      ensures Valid() && Became(old(Table()), disk.sectors, Table(), disk.sectors, name, None)
      ensures slot <= MAX_FILES
      ensures if slot < MAX_FILES then !fileTable[slot].used else forall i | 0 <= i < MAX_FILES :: fileTable[i].used
    {
      ghost var t := Table();
      slot := Find(name);
      if slot < fileTable.Length {
        FreeEntry(slot);
        BlankFiles(t, disk.sectors, slot);
        return;
      }
      slot := 0;
      while slot < fileTable.Length && fileTable[slot].used
        invariant slot <= fileTable.Length && forall i | 0 <= i < slot :: fileTable[i].used
      {
        slot := slot + 1;
      }
    }

    /** The entry is filled in and the table saved; taken back if that fails. */
    method Commit(slot: nat, name: string, size: nat, xs: seq<Extent>) returns (ok: bool, saved: bool)
      requires Shape() && Consistent(Table()) && Indexes(Bits() - BlockSet(xs), Table())
      requires forall b | b in Blocks(xs) :: b in Bits()
      requires slot < MAX_FILES && !fileTable[slot].used && Slot(Table(), name) == MAX_FILES
      requires EntryOk(Entry(name, SizeBytes(size), xs, true))
      modifies fileTable, bitmap, disk`table, disk`bitmap, disk`ops, disk`faults
      ensures Consistent(Table()) && Indexes(Bits(), Table())
      ensures ok ==> Table() == old(Table())[slot := Entry(name, SizeBytes(size), xs, true)] && saved
      ensures !ok ==> Table() == old(Table())[slot := BLANK] && disk.faults > old(disk.faults)
      ensures (saved ==> disk.table == Table()) && disk.faults >= old(disk.faults)
    {
      ghost var t, bits, e := Table(), Bits() - BlockSet(xs), Entry(name, SizeBytes(size), xs, true);
      FillConsistent(bits, t, slot, e);
      FillIndexes(bits, t, slot, e);
      FillIndexes(bits, t, slot, BLANK);
      BlankConsistent(t, slot);
      assert Bits() == bits + BlockSet(xs);
      assert BlockSet([]) == {};
      fileTable[slot] := Entry(name, SizeBytes(size), xs, true);
      assert Table() == t[slot := e];
      saved := SaveFileTable();
      var bitmapOk := SaveBitmap();
      ok := saved && bitmapOk;
      if !ok {
        ClearExtents(xs);
        assert Bits() == bits + BlockSet(BLANK.extents);
        fileTable[slot] := BLANK;
        assert Table() == t[slot := BLANK];
        saved := SaveFileTable();
        var _ := SaveBitmap();
      }
    }

    /** Lines 255-359 of write: allocate, write the data, commit, with rollback on every failure. */
    method WriteInto(slot: nat, name: string, data: seq<bv8>) returns (ok: bool, saved: bool)
      requires Valid() && |name| < MAX_FILENAME && |data| <= MAX_SIZE
      requires slot < MAX_FILES && !fileTable[slot].used && Slot(Table(), name) == MAX_FILES
      modifies fileTable, bitmap, disk`sectors, disk`table, disk`bitmap, disk`ops, disk`faults
      ensures Valid()
      ensures Became(old(Table()), old(disk.sectors), Table(), disk.sectors, name, if ok then Some(data) else None)
      ensures (ok ==> saved) && (saved ==> disk.table == Table()) && disk.faults >= old(disk.faults)
      ensures disk.faults == old(disk.faults) ==> saved
      ensures !ok && disk.faults == old(disk.faults) ==> !Room(Bits(), BlocksNeeded(|data|))
    {
      ghost var t, bits, s := Table(), Bits(), disk.sectors;
      var needed := BlocksNeeded(|data|);
      var room, xs := Allocate(needed);
      if !room {
        assert Bits() == bits;
        var _ := SaveBitmap();
        saved := SaveFileTable();
        return false, saved;
      }
      RoomBound(bits, needed);
      SizesExact(|data|);
      var written := WriteData(xs, data);
      OthersKept(bits, t, s, disk.sectors, xs);
      if !written {
        FilesKept(t, s, disk.sectors);
        ClearExtents(xs);
        assert Bits() == bits;
        var _ := SaveBitmap();
        saved := SaveFileTable();
        return false, saved;
      }
      ghost var e := Entry(name, SizeBytes(|data|), xs, true);
      assert Bits() - BlockSet(xs) == bits;
      ok, saved := Commit(slot, name, |data|, xs);
      if ok {
        FilledFiles(t, s, slot, e, disk.sectors);
        ChunksTake(data);
      } else {
        FilesKept(t, s, disk.sectors);
        BlankFiles(t, disk.sectors, slot);
      }
    }

    /** Success stores exactly the data under the name; failure leaves the name absent. No other
        file changes. Without a disk fault it fails only for a name too long, a full table, or
        too little space. `saved`, which the source does not report, says whether the table in memory
        has reached the disk, as it does on failure too unless writing it fails. */
    method Write(name: string, data: seq<bv8>) returns (ok: bool, saved: bool)
      requires Valid() && |data| <= MAX_SIZE
      modifies fileTable, bitmap, disk`sectors, disk`table, disk`bitmap, disk`ops, disk`faults
      ensures Valid()
      ensures Became(old(Table()), old(disk.sectors), Table(), disk.sectors, name, if ok then Some(data) else None)
      ensures (ok ==> saved) && (saved ==> disk.table == Table()) && disk.faults >= old(disk.faults)
      ensures |name| >= MAX_FILENAME ==> disk.table == old(disk.table) && disk.faults == old(disk.faults)
      ensures |name| < MAX_FILENAME && disk.faults == old(disk.faults) ==> saved
      ensures !ok && disk.faults == old(disk.faults) ==>
                || |name| >= 32 || (forall i | 0 <= i < 64 :: fileTable[i].used)
                || !Room(Bits(), BlocksNeeded(|data|))
    {
      if |name| >= MAX_FILENAME {
        LongName(Table(), disk.sectors, name);
        return false, false;
      }
      ghost var t, s := Table(), disk.sectors;
      var slot := ClaimSlot(name);
      assert FileOf(Table(), s, name) == None;
      if slot == fileTable.Length {
        var _ := SaveBitmap();
        saved := SaveFileTable();
        return false, saved;
      }
      ghost var t1 := Table();
      ok, saved := WriteInto(slot, name, data);
      BecameTwice(t, s, t1, s, Table(), disk.sectors, name, if ok then Some(data) else None);
    }

    // ----- read

    /** The first n bytes of a sector copied into the buffer. */
    method CopyChunk(buffer: array<bv8>, at: nat, sector: Sector, n: nat)
      requires at + n <= buffer.Length && n <= |sector|
      modifies buffer
      ensures buffer[..] == old(buffer[..at]) + sector[..n] + old(buffer[at + n..])
    {
      for b := 0 to n
        invariant buffer[..] == old(buffer[..at]) + sector[..b] + old(buffer[at + b..])
      {
        buffer[at + b] := sector[b];
      }
    }

    /** Block k of a file, copied behind the n bytes already in the buffer. */
    method ReadBlock(lba: nat, buffer: array<bv8>, toRead: nat, n: nat, ghost xs: seq<Extent>, ghost k: nat,
                     ghost was: seq<bv8>)
      returns (ok: bool, bytesRead: nat)
      requires ExtentsOk(xs) && k < |Blocks(xs)| && lba == DATA_START_LBA + Blocks(xs)[k] && SectorsOk(disk.sectors)
      requires n == SECTOR_SIZE * k < toRead <= buffer.Length
      requires Copied(Bytes(disk.sectors, Blocks(xs)), buffer[..], was, n)
      modifies buffer, disk`ops, disk`faults
      ensures Copied(Bytes(disk.sectors, Blocks(xs)), buffer[..], was, bytesRead)
      ensures bytesRead == if ok then Min(SECTOR_SIZE * (k + 1), toRead) else n
      ensures disk.faults == old(disk.faults) + if ok then 0 else 1
    {
      var sector;
      ok, sector := disk.ReadSector(lba);
      if !ok { return ok, n; }
      BlocksInRegion(xs, Blocks(xs)[k]);
      assert SectorOk(disk.sectors, Blocks(xs)[k]);
      var chunk := Min(toRead - n, SECTOR_SIZE);
      ghost var buf := buffer[..];
      CopiedOn(disk.sectors, xs, k, buf, was, n, chunk);
      CopyChunk(buffer, n, sector, chunk);
      bytesRead := n + chunk;
    }

    /** Extent e of a file, from the point where n bytes of `toRead` are in the buffer. */
    method ReadExtent(xs: seq<Extent>, e: nat, buffer: array<bv8>, toRead: nat, n: nat, ghost was: seq<bv8>)
      returns (ok: bool, bytesRead: nat)
      requires ExtentsOk(xs) && e < |xs| && SectorsOk(disk.sectors)
      requires toRead <= buffer.Length && n == Min(SECTOR_SIZE * |Blocks(xs[..e])|, toRead)
      requires Copied(Bytes(disk.sectors, Blocks(xs)), buffer[..], was, n)
      modifies buffer, disk`ops, disk`faults
      ensures bytesRead <= toRead && Copied(Bytes(disk.sectors, Blocks(xs)), buffer[..], was, bytesRead)
      ensures ok ==> bytesRead == Min(SECTOR_SIZE * |Blocks(xs[..e + 1])|, toRead)
      ensures disk.faults == old(disk.faults) + if ok then 0 else 1
    {
      ghost var k, all := |Blocks(xs[..e])|, Bytes(disk.sectors, Blocks(xs));
      ExtentNext(xs, e);
      ok, bytesRead := true, n;
      var i := 0;
      while i < xs[e].blockCount && bytesRead < toRead
        invariant i <= xs[e].blockCount && bytesRead == Min(SECTOR_SIZE * (k + i), toRead) && ok
        invariant Copied(all, buffer[..], was, bytesRead) && disk.faults == old(disk.faults)
      {
        BlockAt(xs, e, i);
        assert ExtentOk(xs[e]);
        ok, bytesRead := ReadBlock(xs[e].startLba + i, buffer, toRead, bytesRead, xs, k + i, was);
        if !ok { return; }
        i := i + 1;
      }
    }

    method ReadEntry(entry: Entry, buffer: array<bv8>) returns (ok: bool, bytesRead: nat)
      requires EntryOk(entry) && entry.used && SectorsOk(disk.sectors)
      modifies buffer, disk`ops, disk`faults
      ensures Copied(Content(disk.sectors, entry), buffer[..], old(buffer[..]), bytesRead)
      ensures ok ==> bytesRead == Min(entry.sizeBytes, buffer.Length)
      ensures disk.faults == old(disk.faults) + if ok then 0 else 1
    {
      ghost var was, all := buffer[..], Bytes(disk.sectors, Blocks(entry.extents));
      var xs, toRead := entry.extents, Min(entry.sizeBytes, buffer.Length);
      FileLength(disk.sectors, entry);
      assert Blocks(xs[..0]) == [];
      ok, bytesRead := true, 0;
      for e := 0 to |xs|
        invariant bytesRead == Min(SECTOR_SIZE * |Blocks(xs[..e])|, toRead) && ok
        invariant Copied(all, buffer[..], was, bytesRead) && disk.faults == old(disk.faults)
      {
        ok, bytesRead := ReadExtent(xs, e, buffer, toRead, bytesRead, was);
        if !ok {
          CopiedTake(all, buffer[..], was, bytesRead, entry.sizeBytes);
          return;
        }
      }
      assert xs[..|xs|] == xs;
      CopiedTake(all, buffer[..], was, bytesRead, entry.sizeBytes);
    }

    /** A file is read back up to the capacity of the buffer, unless the disk fails; then a prefix
        is. It fails only if there is no such file or the disk does. */
    method Read(name: string, buffer: array<bv8>) returns (ok: bool, bytesRead: nat)
      requires Valid() && buffer != bitmap && buffer as object != fileTable
      modifies buffer, disk`ops, disk`faults
      ensures Valid() && (ok <==> FileOf(Table(), disk.sectors, name).Some? && disk.faults == old(disk.faults))
      ensures disk.faults >= old(disk.faults)
      ensures FileOf(Table(), disk.sectors, name) == None ==> !ok && bytesRead == 0 && buffer[..] == old(buffer[..])
      ensures FileOf(Table(), disk.sectors, name).Some? ==>
                var c := FileOf(Table(), disk.sectors, name).value;
                && Copied(c, buffer[..], old(buffer[..]), bytesRead)
                && (ok ==> bytesRead == Min(|c|, buffer.Length))
    {
      var entry := Find(name);
      if entry == fileTable.Length { return false, 0; }
      assert EntryOk(Table()[entry]);
      FileLength(disk.sectors, Table()[entry]);
      ghost var t := Table();
      ok, bytesRead := ReadEntry(fileTable[entry], buffer);
      assert Table() == t;
    }

    // ----- remove

    /** Success removes the file and nothing else. Failure changes nothing in memory, but `saved`, which
        the source does not report, says whether the table without the file has reached the disk by
        then; it is never written back. */
    method Remove(name: string) returns (ok: bool, saved: bool)
      requires Valid()
      modifies fileTable, bitmap, disk`table, disk`bitmap, disk`ops, disk`faults
      ensures Valid()
      ensures ok ==> saved && disk.table == Table() && disk.faults == old(disk.faults)
      ensures ok ==> Became(old(Table()), disk.sectors, Table(), disk.sectors, name, None)
      ensures !ok ==> Table() == old(Table()) && Bits() == old(Bits())
      ensures var found, n := FileOf(old(Table()), disk.sectors, name).Some?, old(disk.ops);
              && (ok <==> found && !disk.fails(n) && !disk.fails(n + 1)) && (saved <==> found && !disk.fails(n))
              && disk.ops == n + (if found then 2 else 0)
              && (!found ==> disk.table == old(disk.table) && disk.bitmap == old(disk.bitmap)
                             && disk.faults == old(disk.faults))
      ensures saved ==> disk.table == old(Table())[Slot(old(Table()), name) := BLANK]
    {
      ghost var t, bits := Table(), Bits();
      var entry := Find(name);
      if entry == fileTable.Length { return false, false; }
      var backup := fileTable[entry];
      BlankFiles(t, disk.sectors, entry);
      EntryMarked(bits, t, entry);
      assert EntryOk(t[entry]);
      OkExtents(backup.extents);
      FreeEntry(entry);
      saved := SaveFileTable();
      var bitmapOk := SaveBitmap();
      ok := saved && bitmapOk;
      if !ok {
        fileTable[entry] := backup;
        assert Table() == t;
        SetExtents(backup.extents);
        assert Bits() == bits;
      }
    }

    // ----- format and init

    method Format() returns (ok: bool)
      requires Shape()
      modifies fileTable, bitmap, disk`magic, disk`table, disk`bitmap, disk`ops, disk`faults
      ensures disk.faults == old(disk.faults) + if ok then 0 else 1
      ensures ok ==> Consistent(Table()) && Indexes(Bits(), Table()) && disk.magic == MAGIC && disk.table == Table()
      ensures ok ==> forall n: string :: FileOf(Table(), disk.sectors, n) == None
    {
      var magicOk := disk.WriteMagic(MAGIC);
      if !magicOk { return false; }
      for i := 0 to fileTable.Length
        invariant disk.faults == old(disk.faults)
        invariant disk.magic == MAGIC && forall j | 0 <= j < i :: fileTable[j] == BLANK
      {
        fileTable[i] := BLANK;
      }
      ghost var t := Table();
      BlankTable(t, disk.sectors);
      ok := SaveFileTable();
      if !ok { return; }
      for i := 0 to bitmap.Length
        invariant forall j | 0 <= j < i :: bitmap[j] == 0
        invariant disk.magic == MAGIC && disk.table == t == Table() && disk.faults == old(disk.faults)
      {
        bitmap[i] := 0;
      }
      NoBits(bitmap[..]);
      ok := SaveBitmap();
    }

    /** A volume with the magic gets its table back from the disk, whatever it holds, and the bitmap
        rebuilt from it, which is valid exactly if the table is consistent; any other is formatted.
        It fails only if the disk does. */
    method Init() returns (ok: bool)
      requires Shape() && SectorsOk(disk.sectors)
      requires disk.magic == MAGIC ==> InBitmap(disk.table) && |disk.table| == MAX_FILES
      modifies fileTable, bitmap, disk`magic, disk`table, disk`bitmap, disk`ops, disk`faults
      ensures ok <==> disk.faults == old(disk.faults)
      ensures ok ==> Shape() && disk.table == Table() && disk.magic == MAGIC
      ensures ok && old(disk.magic) == MAGIC ==>
                Table() == old(disk.table) && Bits() == Marks(Table()) && (Valid() <==> Consistent(Table()))
      ensures ok && old(disk.magic) != MAGIC ==> Valid() && forall n: string :: FileOf(Table(), disk.sectors, n) == None
      ensures old(disk.magic) == MAGIC ==>
                var n := old(disk.ops); (ok <==> !disk.fails(n) && !disk.fails(n + 1) && !disk.fails(n + 2))
                                        && (ok ==> disk.ops == n + 3)
    {
      var magic;
      ok, magic := disk.ReadMagic();
      if !ok { return; }
      if magic != MAGIC {
        ok := Format();
        return;
      }
      ok := LoadSaved();
    }

    /** The table and the bitmap of a volume with the magic. */
    method LoadSaved() returns (ok: bool)
      requires Shape() && SectorsOk(disk.sectors) && InBitmap(disk.table) && |disk.table| == MAX_FILES
      modifies fileTable, bitmap, disk`bitmap, disk`ops, disk`faults
      ensures ok <==> disk.faults == old(disk.faults)
      ensures disk.faults >= old(disk.faults)
      ensures ok ==> disk.table == Table() && Bits() == Marks(Table()) && (Valid() <==> Consistent(Table()))
      ensures var n := old(disk.ops); (ok <==> !disk.fails(n) && !disk.fails(n + 1)) && (ok ==> disk.ops == n + 2)
    {
      var t;
      ok, t := disk.ReadTable(fileTable.Length);
      LoadTable(t);
      if !ok { return; }
      RebuildBitmap();
      if EntriesOk(Table()) { RebuiltIndexes(Table()); }
      ok := SaveBitmap();
    }

    method LoadTable(t: seq<Entry>)
      requires |t| == fileTable.Length
      modifies fileTable
      ensures Table() == t
    {
      for i := 0 to fileTable.Length
        invariant forall j | 0 <= j < i :: fileTable[j] == t[j]
      {
        fileTable[i] := t[i];
      }
    }

    // ----- queries

    method Exists(name: string) returns (r: bool)
      ensures r <==> FileOf(Table(), disk.sectors, name).Some?
    {
      var i := Find(name);
      r := i < fileTable.Length;
    }

    /** The size of a file is the length of its contents, -1 for none. */
    method FileSize(name: string) returns (r: int)
      requires Valid()
      ensures var f := FileOf(Table(), disk.sectors, name); r == if f.Some? then |f.value| else -1
    {
      var i := Find(name);
      if i == fileTable.Length { return -1; }
      assert EntryOk(Table()[i]);
      FileLength(disk.sectors, Table()[i]);
      r := fileTable[i].sizeBytes;
    }

    // ----- calls one after the other

    /** What was written is read back, however fragmented. */
    method WriteThenRead(name: string, data: seq<bv8>, buffer: array<bv8>) returns (written: bool, ok: bool)
      requires Valid() && |data| <= MAX_SIZE && |data| <= buffer.Length
      requires buffer != bitmap && buffer as object != fileTable
      modifies fileTable, bitmap, disk`sectors, disk`table, disk`bitmap, disk`ops, disk`faults, buffer
      ensures ok ==> written && buffer[..|data|] == data
      ensures written && disk.faults == old(disk.faults) ==> ok
    {
      var saved;
      written, saved := Write(name, data);
      if !written { return written, false; }
      assert FileOf(Table(), disk.sectors, name) == Some(data);
      var n;
      ok, n := Read(name, buffer);
    }

    /** A new volume holds a file of any size up to that of its 32494 blocks, and no larger one. */
    method FormatThenWrite(name: string, data: seq<bv8>) returns (written: bool)
      requires Shape() && SectorsOk(disk.sectors) && |name| < 32 && |data| <= MAX_SIZE
      modifies fileTable, bitmap, disk`sectors, disk`magic, disk`table, disk`bitmap, disk`ops, disk`faults
      ensures disk.faults == old(disk.faults) ==> (written <==> |data| <= 32494 * 512)
    {
      var ok := Format();
      if !ok { return false; }
      var saved;
      written, saved := Write(name, data);
      if written {
        FileFits(Table(), disk.sectors, name, data);
      } else if disk.faults == old(disk.faults) {
        NoFiles(Table(), disk.sectors, Bits());
        assert !fileTable[0].used;
        EmptyRoom(|data|);
      }
    }

    /** A mount after a write, successful or not, finds every file as memory had it, if the table
        was saved. */
    method WriteThenInit(name: string, data: seq<bv8>) returns (written: bool, saved: bool, mounted: bool)
      requires Valid() && |data| <= MAX_SIZE && disk.magic == MAGIC
      modifies fileTable, bitmap, disk`sectors, disk`magic, disk`table, disk`bitmap, disk`ops, disk`faults
      ensures (written ==> saved) && (mounted ==> Valid() && saved)
      ensures mounted ==> Became(old(Table()), old(disk.sectors), Table(), disk.sectors, name,
                                 if written then Some(data) else None)
    {
      written, saved := Write(name, data);
      if !saved { return written, saved, false; }
      RebuiltIndexes(disk.table);
      mounted := Init();
    }

    /** A mount after a remove, successful or not, finds the file gone if the table without it was
        saved; if nothing was written it finds what the disk held. After a failed table write the disk
        may hold anything, and is not mounted here. */
    method RemoveThenInit(name: string) returns (removed: bool, saved: bool, mounted: bool)
      requires Valid() && disk.magic == MAGIC && disk.table == Table()
      modifies fileTable, bitmap, disk`magic, disk`table, disk`bitmap, disk`ops, disk`faults
      ensures var found := FileOf(old(Table()), disk.sectors, name).Some?;
              && (removed ==> saved) && (saved <==> found && !disk.fails(old(disk.ops)))
              && (mounted ==> Valid() && disk.table == Table() && (found <==> saved))
      ensures mounted ==> Became(old(Table()), disk.sectors, Table(), disk.sectors, name, None)
      ensures var n := old(disk.ops); saved ==>
                && (removed <==> !disk.fails(n + 1))
                && (mounted <==> !disk.fails(n + 2) && !disk.fails(n + 3) && !disk.fails(n + 4))
    {
      ghost var t := Table();
      var present := Exists(name);
      removed, saved := Remove(name);
      if present && !saved { return removed, saved, false; }
      if saved {
        BlankConsistent(t, Slot(t, name));
        BlankFiles(t, disk.sectors, Slot(t, name));
      }
      RebuiltIndexes(disk.table);
      mounted := Init();
    }
  }

  /** The failing run, for every volume and every file on it: the table write goes through, only the
      bitmap write fails, the removal is reported as failed, and the next mount has carried it out. */
  method LostRemoval(table: seq<Entry>, sectors: Sectors, name: string)
    returns (removed: bool, mounted: bool, v: Volume)
    requires Consistent(table) && |table| == MAX_FILES && SectorsOk(sectors) && FileOf(table, sectors, name).Some?
    ensures fresh(v) && !removed && mounted && v.Valid()
    ensures Became(table, sectors, v.Table(), v.disk.sectors, name, None)
  {
    var disk := new Disk(MAGIC, table, sectors, (n: nat) => n == 4);
    v := new Volume(disk);
    RebuiltIndexes(table);
    mounted := v.Init();
    var saved;
    removed, saved, mounted := v.RemoveThenInit(name);
  }

  const MAGIC: string := "VNFS"

  lemma {:induction false} EntryMarked(bits: set<nat>, t: seq<Entry>, i: nat)
    requires Indexes(bits, t) && i < |t|
    ensures BlockSet(t[i].extents) <= bits
  {
    forall b | b in BlockSet(t[i].extents) ensures b in bits { assert b in bits <==> Covers(t, b); }
  }

  lemma {:induction false} CopiedTake(all: seq<bv8>, buf: seq<bv8>, was: seq<bv8>, n: nat, size: nat)
    requires Copied(all, buf, was, n) && n <= size
    ensures Copied(Take(all, size), buf, was, n)
  {
  }

  function Min(a: nat, b: nat): nat {
    if a < b then a else b
  }

  /** The first n bytes of the buffer are those of `all`, the rest as it was. */
  ghost predicate Copied(all: seq<bv8>, buf: seq<bv8>, was: seq<bv8>, n: nat) {
    n <= |all| && n <= |buf| == |was| && buf[..n] == all[..n] && buf[n..] == was[n..]
  }

  lemma {:induction false} CopiedOn(s: Sectors, xs: seq<Extent>, k: nat, buf: seq<bv8>, was: seq<bv8>, at: nat, n: nat)
    requires ExtentsOk(xs) && SectorsOk(s) && k < |Blocks(xs)| && at == SECTOR_SIZE * k && n <= SECTOR_SIZE
             && at + n <= |buf|
    requires SectorOk(s, Blocks(xs)[k])
    requires Copied(Bytes(s, Blocks(xs)), buf, was, at)
    ensures Copied(Bytes(s, Blocks(xs)), buf[..at] + SectorAt(s, Blocks(xs)[k])[..n] + buf[at + n..], was, at + n)
  {
    var bs := Blocks(xs);
    var all, sector := Bytes(s, bs), SectorAt(s, bs[k]);
    var buf' := buf[..at] + sector[..n] + buf[at + n..];
    forall i | 0 <= i < |bs| ensures bs[i] < TOTAL_DATA_BLOCKS { BlocksInRegion(xs, bs[i]); }
    BytesLength(s, bs);
    BytesAt(s, bs, k);
    assert buf'[..at + n] == all[..at] + sector[..n];
    assert all[..at + n] == all[..at] + all[at..at + SECTOR_SIZE][..n];
    assert buf'[at + n..] == buf[at..][n..];
    assert was[at..][n..] == was[at + n..];
  }

  /** Block k of a file holds the bytes from 512 k. */
  lemma {:induction false} BytesAt(s: Sectors, bs: seq<nat>, k: nat)
    requires k < |bs| && SectorsOk(s) && forall i | 0 <= i < |bs| :: bs[i] < TOTAL_DATA_BLOCKS
    ensures SECTOR_SIZE * (k + 1) <= |Bytes(s, bs)|
    ensures Bytes(s, bs)[SECTOR_SIZE * k..SECTOR_SIZE * k + SECTOR_SIZE] == SectorAt(s, bs[k])
    decreases |bs|
  {
    var n := |bs| - 1;
    BytesLength(s, bs);
    BytesLength(s, bs[..n]);
    if k < n {
      BytesAt(s, bs[..n], k);
    }
  }

  lemma {:induction false} FileLength(s: Sectors, e: Entry)
    requires EntryOk(e) && e.used && SectorsOk(s)
    ensures |Bytes(s, Blocks(e.extents))| == SECTOR_SIZE * |Blocks(e.extents)| >= e.sizeBytes
  {
    var bs := Blocks(e.extents);
    forall i | 0 <= i < |bs| ensures bs[i] < TOTAL_DATA_BLOCKS { BlocksInRegion(e.extents, bs[i]); }
    BytesLength(s, bs);
  }

  lemma {:induction false} RoomBound(bits: set<nat>, needed: nat)
    requires Room(bits, needed)
    ensures needed <= TOTAL_DATA_BLOCKS
  {
    FreeLength(bits, TOTAL_DATA_BLOCKS);
  }

  /** Sectors nobody owned were written: no file changed. */
  lemma {:induction false} OthersKept(bits: set<nat>, t: seq<Entry>, s: Sectors, s': Sectors, xs: seq<Extent>)
    requires Indexes(bits, t) && SameOff(s, s', Blocks(xs)) && forall b | b in Blocks(xs) :: b !in bits
    ensures forall j | 0 <= j < |t| :: SameOn(s, s', Blocks(t[j].extents))
  {
    forall j | 0 <= j < |t| ensures SameOn(s, s', Blocks(t[j].extents)) {
      forall b | b in Blocks(t[j].extents) ensures SectorAt(s', b) == SectorAt(s, b) {
        assert b in bits <==> Covers(t, b);
      }
    }
  }

  lemma {:induction false} FilesKept(t: seq<Entry>, s: Sectors, s': Sectors)
    requires forall j | 0 <= j < |t| :: SameOn(s, s', Blocks(t[j].extents))
    ensures forall n: string :: FileOf(t, s', n) == FileOf(t, s, n)
  {
    forall n: string ensures FileOf(t, s', n) == FileOf(t, s, n) {
      var k := Slot(t, n);
      if k < |t| { BytesSame(s, s', Blocks(t[k].extents)); }
    }
  }

  lemma {:induction false} LongName(t: seq<Entry>, s: Sectors, name: string)
    requires Consistent(t) && |name| >= MAX_FILENAME
    ensures Became(t, s, t, s, name, None)
  {
    assert Slot(t, name) < |t| ==> EntryOk(t[Slot(t, name)]);
  }

  lemma {:induction false} BecameTwice(t: seq<Entry>, s: Sectors, t': seq<Entry>, s': Sectors, t'': seq<Entry>,
                                       s'': Sectors,
                                       name: string, r: Option<seq<bv8>>)
    requires Became(t, s, t', s', name, None) && Became(t', s', t'', s'', name, r)
    ensures Became(t, s, t'', s'', name, r)
  {
    forall n: string ensures FileOf(t'', s'', n) == if n == name then r else FileOf(t, s, n) {
      assert FileOf(t', s', n) == if n == name then None else FileOf(t, s, n);
    }
  }

  /** The file of an entry taken out of the table is gone, and no other. */
  lemma {:induction false} BlankFiles(t: seq<Entry>, s: Sectors, i: nat)
    requires Consistent(t) && i < |t|
    ensures t[i].used ==> Became(t, s, t[i := BLANK], s, t[i].name, None)
    ensures !t[i].used ==> forall n: string :: FileOf(t[i := BLANK], s, n) == FileOf(t, s, n)
  {
    var t' := t[i := BLANK];
    BlankConsistent(t, i);
    forall n: string ensures FileOf(t', s, n) == if t[i].used && n == t[i].name then None else FileOf(t, s, n) {
      if t[i].used && n == t[i].name {
        var k := Slot(t', n);
        assert k < |t| ==> ApartAt(t, i, k);
      } else {
        OtherFile(t, s, i, BLANK, s, n);
      }
    }
  }

  /** The file of an entry put into an unused slot is there, and the others are as before. */
  lemma {:induction false} FilledFiles(t: seq<Entry>, s: Sectors, i: nat, e: Entry, s': Sectors)
    requires i < |t| && Consistent(t) && Consistent(t[i := e]) && !t[i].used && e.used
    requires forall j | 0 <= j < |t| && j != i :: SameOn(s, s', Blocks(t[j].extents))
    ensures Became(t, s, t[i := e], s', e.name, Some(Content(s', e)))
  {
    var t' := t[i := e];
    forall n: string ensures FileOf(t', s', n) == if n == e.name then Some(Content(s', e)) else FileOf(t, s, n) {
      if n == e.name {
        SlotIs(t', i);
      } else {
        OtherFile(t, s, i, e, s', n);
      }
    }
  }

  /** A file of that many blocks can be placed: in one stretch, or in the lowest free blocks. */
  ghost predicate Room(bits: set<nat>, needed: nat) {
    || needed == 0
    || (exists s: nat {:trigger AllFree(bits, s, needed)} ::
         s + needed <= TOTAL_DATA_BLOCKS && AllFree(bits, s, needed))
    || HasSpace(bits, needed)
  }

  /** Room there is exactly for no block at all, for a stretch of free blocks long enough, or if the
      lowest free blocks, as many as needed, come in at most four stretches. */
  lemma {:induction false} RoomExactly(bits: set<nat>, needed: nat)
    ensures Room(bits, needed) <==>
            || needed == 0
            || (exists s: nat {:trigger AllFree(bits, s, needed)} :: s + needed <= 32494 && AllFree(bits, s, needed))
            || (needed <= |FreeBelow(bits, 32494)| && Runs(FreeBelow(bits, 32494)[..needed]) <= 4)
  {
  }

  lemma {:induction false} OneExtent(bits: set<nat>, start: nat, needed: nat)
    requires AllFree(bits, start, needed) && start + needed <= TOTAL_DATA_BLOCKS
    ensures var xs := [Extent(DATA_START_LBA + start, needed)];
            ExtentsOk(xs) && |Blocks(xs)| == needed && forall b | b in Blocks(xs) :: b !in bits
  {
    BlocksGrow([], Extent(DATA_START_LBA + start, needed));
    assert [] + [Extent(DATA_START_LBA + start, needed)] == [Extent(DATA_START_LBA + start, needed)];
    assert Blocks([]) == [];
  }

  lemma {:induction false} FreeExtents(bits: set<nat>, needed: nat, xs: seq<Extent>)
    requires HasSpace(bits, needed) && Blocks(xs) == FreeBelow(bits, TOTAL_DATA_BLOCKS)[..needed]
    requires |xs| <= MAX_EXTENTS && forall x | x in xs :: ExtentOk(x)
    ensures ExtentsOk(xs) && |Blocks(xs)| == needed && forall b | b in Blocks(xs) :: b !in bits
  {
    FreeUnique(bits, TOTAL_DATA_BLOCKS);
    forall b | b in Blocks(xs) ensures b !in bits {
      var i :| 0 <= i < |Blocks(xs)| && Blocks(xs)[i] == b;
      FreeFacts(bits, TOTAL_DATA_BLOCKS, i);
    }
  }

  ghost predicate SameOff(s: Sectors, s': Sectors, bs: seq<nat>) {
    forall b: nat {:trigger SectorAt(s', b)} | b !in bs :: SectorAt(s', b) == SectorAt(s, b)
  }

  lemma {:induction false} SectorWritten(s: Sectors, b: nat, data: Sector)
    requires SectorsOk(s) && |data| == SECTOR_SIZE
    ensures var s': Sectors := s[DATA_START_LBA + b := data];
            SectorsOk(s') && SectorAt(s', b) == data && SameOff(s, s', [b])
  {
    var s': Sectors := s[DATA_START_LBA + b := data];
    forall c: nat | c < TOTAL_DATA_BLOCKS ensures SectorOk(s', c) { assert SectorOk(s, c); }
  }

  /** The first n blocks from `first` on hold the sectors of the data from sector k on. */
  ghost predicate Written(s: Sectors, first: nat, data: seq<bv8>, k: nat, n: nat) {
    forall j: nat {:trigger WrittenAt(s, first, data, k, j)} | j < n :: WrittenAt(s, first, data, k, j)
  }

  predicate WrittenAt(s: Sectors, first: nat, data: seq<bv8>, k: nat, j: nat) {
    SectorAt(s, first + j) == Chunk(data, k + j)
  }

  lemma {:induction false} WriteStep(s0: Sectors, s: Sectors, s': Sectors, x: Extent, data: seq<bv8>, k: nat, i: nat)
    requires i < x.blockCount && SameOff(s0, s, ExtentBlocks(x)) && SameOff(s, s', [FirstBlock(x) + i])
    requires Written(s, FirstBlock(x), data, k, i)
    ensures SameOff(s0, s', ExtentBlocks(x))
    ensures WrittenAt(s', FirstBlock(x), data, k, i) ==> Written(s', FirstBlock(x), data, k, i + 1)
  {
    assert ExtentBlocks(x)[i] == FirstBlock(x) + i;
    forall b: nat | b !in ExtentBlocks(x) ensures SectorAt(s', b) == SectorAt(s0, b) {
      assert SectorAt(s, b) == SectorAt(s0, b);
    }
    forall j: nat | j < i ensures WrittenAt(s', FirstBlock(x), data, k, j) {
      assert WrittenAt(s, FirstBlock(x), data, k, j);
    }
  }

  /** The blocks hold the start of the file. */
  predicate Filled(s: Sectors, bs: seq<nat>, data: seq<bv8>) {
    Bytes(s, bs) == Chunks(data, |bs|)
  }

  /** An extent written behind the blocks `done` adds its part of the file. */
  lemma {:induction false} BytesFilled(s: Sectors, done: seq<nat>, first: nat, data: seq<bv8>, n: nat)
    requires Filled(s, done, data) && Written(s, first, data, |done|, n)
    ensures Filled(s, done + Run(first, n), data)
    decreases n
  {
    if n == 0 {
      assert done + Run(first, 0) == done;
    } else {
      var bs := done + Run(first, n - 1);
      BytesFilled(s, done, first, data, n - 1);
      assert done + Run(first, n) == bs + [first + (n - 1)];
      assert WrittenAt(s, first, data, |done|, n - 1);
      FilledGrows(s, bs, first + (n - 1), data);
    }
  }

  lemma {:induction false} FilledGrows(s: Sectors, bs: seq<nat>, b: nat, data: seq<bv8>)
    requires Filled(s, bs, data) && SectorAt(s, b) == Chunk(data, |bs|)
    ensures Filled(s, bs + [b], data)
  {
    BytesGrow(s, bs, b);
  }

  /** The first e extents of a file are written. */
  ghost predicate Sofar(s: Sectors, s': Sectors, xs: seq<Extent>, data: seq<bv8>, e: nat)
    requires e <= |xs|
  {
    && SectorsOk(s') && SameOff(s, s', Blocks(xs[..e]))
    && Filled(s', Blocks(xs[..e]), data)
  }

  lemma {:induction false} SofarStep(s: Sectors, s': Sectors, s'': Sectors, xs: seq<Extent>, data: seq<bv8>, e: nat)
    requires e < |xs| && Unique(Blocks(xs)) && Sofar(s, s', xs, data, e)
    requires SectorsOk(s'') && SameOff(s', s'', ExtentBlocks(xs[e]))
    ensures SameOff(s, s'', Blocks(xs))
    ensures Written(s'', FirstBlock(xs[e]), data, |Blocks(xs[..e])|, xs[e].blockCount) ==>
            Sofar(s, s'', xs, data, e + 1)
  {
    var done, x := Blocks(xs[..e]), xs[e];
    ExtentNext(xs, e);
    SameOffTwice(s, s', s'', done, ExtentBlocks(x));
    SameOffMore(s, s'', Blocks(xs[..e + 1]), Blocks(xs));
    BytesSame(s', s'', done);
    if Written(s'', FirstBlock(x), data, |done|, x.blockCount) {
      BytesFilled(s'', done, FirstBlock(x), data, x.blockCount);
    }
  }

  lemma {:induction false} SameOffMore(s: Sectors, s': Sectors, bs: seq<nat>, all: seq<nat>)
    requires SameOff(s, s', bs) && |bs| <= |all| && all[..|bs|] == bs
    ensures SameOff(s, s', all)
  {
    forall b: nat | b !in all ensures SectorAt(s', b) == SectorAt(s, b) {
      assert forall i | 0 <= i < |bs| :: bs[i] == all[i];
      assert b !in bs;
    }
  }

  lemma {:induction false} SameOffTwice(s: Sectors, s': Sectors, s'': Sectors, bs: seq<nat>, cs: seq<nat>)
    requires SameOff(s, s', bs) && SameOff(s', s'', cs)
    ensures SameOff(s, s'', bs + cs)
  {
    forall b: nat | b !in bs + cs ensures SectorAt(s'', b) == SectorAt(s, b) {
      assert SectorAt(s', b) == SectorAt(s, b);
    }
  }

  lemma {:induction false} ExtentNext(xs: seq<Extent>, e: nat)
    requires e < |xs| && Unique(Blocks(xs))
    ensures var done, more := Blocks(xs[..e]), ExtentBlocks(xs[e]);
            && Blocks(xs[..e + 1]) == done + more && |done + more| <= |Blocks(xs)|
            && Blocks(xs)[..|done + more|] == done + more
            && forall b | b in done :: b !in more
  {
    var done, more := Blocks(xs[..e]), ExtentBlocks(xs[e]);
    assert xs[..e + 1] == xs[..e] + [xs[e]];
    BlocksGrow(xs[..e], xs[e]);
    BlocksPrefix(xs, e + 1);
    UniqueParts(Blocks(xs), done, more);
  }

  lemma {:induction false} UniqueParts(all: seq<nat>, a: seq<nat>, b: seq<nat>)
    requires Unique(all) && |a + b| <= |all| && all[..|a + b|] == a + b
    ensures forall x | x in a :: x !in b
  {
    forall i, j | 0 <= i < |a| && 0 <= j < |b| ensures a[i] != b[j] {
      assert all[i] == (a + b)[i] && all[|a| + j] == (a + b)[|a| + j];
    }
  }

  lemma {:induction false} RunGrows(first: nat, n: nat)
    ensures Run(first, n + 1) == Run(first, n) + [first + n]
  {
  }

  lemma {:induction false} FirstSlot(t: seq<Entry>, name: string, i: nat)
    requires i <= |t| && forall j | 0 <= j < i :: !(t[j].used && t[j].name == name)
    requires i < |t| ==> t[i].used && t[i].name == name
    ensures Slot(t, name) == i
  {
    if i > 0 { FirstSlot(t[1..], name, i - 1); }
  }

  /** A table without files uses no entry and no block. */
  lemma {:induction false} NoFiles(t: seq<Entry>, s: Sectors, bits: set<nat>)
    requires Consistent(t) && Indexes(bits, t) && forall n: string :: FileOf(t, s, n) == None
    ensures bits == {} && forall i | 0 <= i < |t| :: !t[i].used
  {
    forall i | 0 <= i < |t| ensures !t[i].used {
      if t[i].used { SlotIs(t, i); }
      assert FileOf(t, s, t[i].name) == None;
    }
    forall b: nat ensures b !in bits {
      forall i | 0 <= i < |t| ensures b !in Blocks(t[i].extents) { assert EntryOk(t[i]) && Blocks([]) == []; }
      assert !Covers(t, b);
    }
  }

  lemma {:induction false} EmptyRoom(size: nat)
    requires size <= MAX_SIZE
    ensures size <= TOTAL_DATA_BLOCKS * SECTOR_SIZE ==> Room({}, BlocksNeeded(size))
  {
    if size <= TOTAL_DATA_BLOCKS * SECTOR_SIZE {
      assert BlocksNeeded(size) <= TOTAL_DATA_BLOCKS;
      assert AllFree({}, 0, BlocksNeeded(size));
    }
  }

  /** A stored file is no larger than the data region. */
  lemma {:induction false} FileFits(t: seq<Entry>, s: Sectors, name: string, data: seq<bv8>)
    requires Consistent(t) && FileOf(t, s, name) == Some(data)
    ensures |data| <= TOTAL_DATA_BLOCKS * SECTOR_SIZE
  {
    var e := t[Slot(t, name)];
    assert EntryOk(e);
    forall i | 0 <= i < |Blocks(e.extents)| ensures Blocks(e.extents)[i] < TOTAL_DATA_BLOCKS {
      BlocksInRegion(e.extents, Blocks(e.extents)[i]);
    }
    UniqueBelow(Blocks(e.extents), TOTAL_DATA_BLOCKS);
  }

  lemma {:induction false} UniqueBelow(bs: seq<nat>, n: nat)
    requires Unique(bs) && forall i | 0 <= i < |bs| :: bs[i] < n
    ensures |bs| <= n
    decreases n
  {
    if n > 0 {
      if n - 1 in bs {
        var i :| 0 <= i < |bs| && bs[i] == n - 1;
        UniqueBelow(bs[..i] + bs[i + 1..], n - 1);
      } else {
        UniqueBelow(bs, n - 1);
      }
    }
  }

  lemma {:induction false} NoBits(bytes: seq<bv8>)
    requires forall i | 0 <= i < |bytes| :: bytes[i] == 0
    ensures Ones(bytes) == {}
  {
  }

  lemma {:induction false} BlankTable(t: seq<Entry>, s: Sectors)
    requires forall i | 0 <= i < |t| :: t[i] == BLANK
    ensures Consistent(t) && Indexes({}, t)
    ensures forall n :: FileOf(t, s, n) == None
  {
    assert Blocks([]) == [];
  }
}
