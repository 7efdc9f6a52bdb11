/** The image tools/mkfat32.py writes, as kernel/fat32.cpp finds it. */
module FatImage {
  import opened Bytes
  import opened FatModel
  import opened FatVolume
  import opened FatBuilder

  const RESERVED: nat := 32
  const NUM_FATS: nat := 2

  // ----- the layout

  function FatSectors(total: nat): nat {
    ((total + 2) * 4 + SECTOR - 1) / SECTOR
  }

  function DataStart(total: nat): nat {
    RESERVED + NUM_FATS * FatSectors(total)
  }

  /** The volume of `total` sectors the tool lays out. */
  function Layout(lba: nat, total: nat, root: nat): Geometry {
    Geometry(lba, total, 1, RESERVED, FatSectors(total), DataStart(total), root,
             if total < DataStart(total) then 0 else total - DataStart(total))
  }

  lemma {:induction false} LayoutOk(lba: nat, total: nat, root: nat)
    requires DataStart(total) + 65525 <= total < TWO_32 && 2 <= root < total - DataStart(total) + 2
    ensures GeometryOk(Layout(lba, total, root))
  {
  }

  /** The FAT as bytes, four to an entry. */
  function FatBytes(fat: seq<nat>): (r: seq<Byte>)
    ensures |r| == 4 * |fat|
  {
    if fat == [] then [] else FatBytes(fat[..|fat| - 1]) + LeBytes(fat[|fat| - 1], 4)
  }

  lemma {:induction false} FatBytesAt(fat: seq<nat>, c: nat)
    requires c < |fat|
    ensures FatBytes(fat)[4 * c..4 * c + 4] == LeBytes(fat[c], 4)
  {
    if c < |fat| - 1 { FatBytesAt(fat[..|fat| - 1], c); }
  }

  /** Sector n of the FAT, zeros behind the last entry. */
  function FatSector(bytes: seq<Byte>, n: nat): (r: seq<Byte>)
    ensures |r| == SECTOR
  {
    if SECTOR * (n + 1) <= |bytes| then bytes[SECTOR * n..SECTOR * n + SECTOR]
    else if SECTOR * n <= |bytes| then bytes[SECTOR * n..] + Zeros(SECTOR * (n + 1) - |bytes|)
    else Zeros(SECTOR)
  }

  /** Sector n of the image: boot sectors, both FATs, and the data. */
  function ImageSector(g: Geometry, boot: seq<Byte>, info: seq<Byte>, fat: seq<Byte>, data: map<nat, seq<Byte>>,
                       n: nat): seq<Byte>
  {
    if n == 0 || n == 6 then boot
    else if n == 1 then info
    else if g.reserved <= n < g.reserved + g.fatSectors then FatSector(fat, n - g.reserved)
    else if g.reserved + g.fatSectors <= n < g.dataStart then FatSector(fat, n - g.reserved - g.fatSectors)
    else if g.dataStart <= n && n - g.dataStart + 2 in data then data[n - g.dataStart + 2]
    else Zeros(SECTOR)
  }

  function ImageOf(g: Geometry, boot: seq<Byte>, info: seq<Byte>, fat: seq<nat>, data: map<nat, seq<Byte>>): Sectors {
    var bytes := FatBytes(fat);
    map l: nat | g.lba <= l < g.lba + g.total && InVolume(g, l) :: ImageSector(g, boot, info, bytes, data, l - g.lba)
  }

  /** The reader's view of an image: links and data clusters are those of the builder. */
  ghost predicate Shows(s: Sectors, g: Geometry, fat: seq<nat>, data: map<nat, seq<Byte>>) {
    && |fat| == g.clusters + 2
    && (forall c: nat {:trigger FatEntry(s, g, c)} | ValidCluster(g, c) :: FatEntry(s, g, c) == fat[c])
    && (forall c: nat {:trigger c in data} | c in data && ValidCluster(g, c) ::
          ClusterLba(g, c, 0) in s && s[ClusterLba(g, c, 0)] == data[c])
  }

  lemma {:induction false} SectorSlice(bytes: seq<Byte>, n: nat, off: nat)
    requires off + 4 <= SECTOR && SECTOR * n + off + 4 <= |bytes|
    ensures FatSector(bytes, n)[off..off + 4] == bytes[SECTOR * n + off..SECTOR * n + off + 4]
  {
    var sector := FatSector(bytes, n);
    assert forall i | off <= i < off + 4 :: sector[i] == bytes[SECTOR * n + i];
    var a, b := sector[off..off + 4], bytes[SECTOR * n + off..SECTOR * n + off + 4];
    assert |a| == |b| == 4 && forall i | 0 <= i < 4 :: a[i] == b[i];
  }

  lemma {:induction false} FatSectorEntry(fat: seq<nat>, c: nat)
    requires c < |fat| && fat[c] < TWO_32
    ensures Le(FatSector(FatBytes(fat), c / 128), 4 * (c % 128), 4) == fat[c]
  {
    var bytes, n, off := FatBytes(fat), c / 128, 4 * (c % 128);
    var sector := FatSector(bytes, n);
    FatBytesAt(fat, c);
    assert 4 * c == SECTOR * n + off;
    SectorSlice(bytes, n, off);
    assert Pow256(4) == TWO_32;
    LeRound(sector, off, fat[c], 4);
  }

  /** What is written to the image is what the reader sees. */
  lemma {:induction false} ImageShows(g: Geometry, boot: seq<Byte>, info: seq<Byte>, fat: seq<nat>,
                                      data: map<nat, seq<Byte>>)
    requires GeometryOk(g) && Sane(g) && g.spc == 1 && g.reserved > 6 && |fat| == g.clusters + 2
    requires forall c | 0 <= c < |fat| :: fat[c] < FAT_BASE
    ensures Shows(ImageOf(g, boot, info, fat, data), g, fat, data)
  {
    var s := ImageOf(g, boot, info, fat, data);
    forall c: nat | ValidCluster(g, c) ensures FatEntry(s, g, c) == fat[c] {
      EntryInside(g, c);
      ImageLink(g, boot, info, fat, data, c);
    }
    forall c: nat | c in data && ValidCluster(g, c)
      ensures ClusterLba(g, c, 0) in s && s[ClusterLba(g, c, 0)] == data[c]
    {
      ClusterInside(g, c, 0);
      assert ClusterLba(g, c, 0) == g.lba + g.dataStart + (c - 2);
    }
  }

  lemma {:induction false} ImageLink(g: Geometry, boot: seq<Byte>, info: seq<Byte>, fat: seq<nat>,
                                     data: map<nat, seq<Byte>>,
                                     c: nat)
    requires g.reserved > 6 && c < |fat| && fat[c] < FAT_BASE
    requires InVolume(g, FatLba(g, c)) && c * 4 / SECTOR < g.fatSectors
    ensures FatEntry(ImageOf(g, boot, info, fat, data), g, c) == fat[c]
  {
    var s, l := ImageOf(g, boot, info, fat, data), FatLba(g, c);
    FatOffset(c, c + 1);
    FatPart(g, boot, info, FatBytes(fat), data, c / 128);
    assert l - g.lba == g.reserved + c / 128;
    assert s[l] == FatSector(FatBytes(fat), c / 128);
    FatSectorEntry(fat, c);
    SmallMod(fat[c]);
  }

  lemma {:induction false} FatPart(g: Geometry, boot: seq<Byte>, info: seq<Byte>, fat: seq<Byte>,
                                   data: map<nat, seq<Byte>>,
                                   n: nat)
    requires g.reserved > 6 && n < g.fatSectors
    ensures ImageSector(g, boot, info, fat, data, g.reserved + n) == FatSector(fat, n)
  {
  }

  lemma {:induction false} SmallMod(x: nat)
    requires x < FAT_BASE
    ensures x % FAT_BASE == x
  {
  }

  // ----- the round trip

  /** The reader follows a stored chain cluster by cluster. */
  lemma {:induction false} ChainRead(s: Sectors, g: Geometry, fat: seq<nat>, data: map<nat, seq<Byte>>, chain: seq<nat>,
                                     k: nat)
    requires Shows(s, g, fat, data) && Chained(fat, chain) && Distinct(chain) && k < |chain|
             && g.clusters <= MAX_CLUSTERS
    requires forall i | 0 <= i < |chain| :: ValidCluster(g, chain[i])
    ensures Nth(s, g, chain[0], k) == chain[k]
  {
    if k > 0 {
      ChainRead(s, g, fat, data, chain, k - 1);
      assert LinkAt(fat, chain, k - 1);
      assert FatEntry(s, g, chain[k - 1]) == chain[k];
    }
  }

  /** A file stored by the tool in any order of distinct free clusters is read back byte for byte. */
  lemma {:induction false} RoundTrip(s: Sectors, g: Geometry, fat: seq<nat>, data: map<nat, seq<Byte>>, f: Stored)
    requires Shows(s, g, fat, data) && GeometryOk(g) && g.spc == 1 && g.clusters <= MAX_CLUSTERS
    requires InPlace(fat, data, f) && Distinct(f.chain) && forall i | 0 <= i < |f.chain| :: ValidCluster(g, f.chain[i])
    ensures f.chain != [] && Content(s, g, f.chain[0], |f.content|) == f.content
    ensures |f.chain| <= g.clusters ==> Covered(s, g, f.chain[0], |f.content|)
  {
    var first := f.chain[0];
    forall j | 0 <= j < |f.content| ensures FileByte(s, g, first, j) == f.content[j] {
      StoredByte(s, g, fat, data, f, j);
    }
    if |f.chain| <= g.clusters {
      forall k: nat | Place(g, k) < |f.content| ensures ValidCluster(g, Nth(s, g, first, k)) && k < g.clusters {
        PlaceIs(g, k);
        assert k < |f.chain|;
        ChainRead(s, g, fat, data, f.chain, k);
      }
    }
  }

  lemma {:induction false} StoredByte(s: Sectors, g: Geometry, fat: seq<nat>, data: map<nat, seq<Byte>>, f: Stored,
                                      j: nat)
    requires Shows(s, g, fat, data) && g.spc == 1 && g.clusters <= MAX_CLUSTERS
    requires InPlace(fat, data, f) && Distinct(f.chain) && forall i | 0 <= i < |f.chain| :: ValidCluster(g, f.chain[i])
    requires j < |f.content|
    ensures f.chain != [] && FileByte(s, g, f.chain[0], j) == f.content[j]
  {
    var k := j / SECTOR;
    assert k < |f.chain|;
    ChainRead(s, g, fat, data, f.chain, k);
    assert FilledAt(data, f, k);
    assert f.chain[k] in data;
  }

  /** A mounted image, and a file the tool stored in it: the driver reads back exactly the content,
      unless the disk fails. */
  method ReadStored(v: Volume, fat: seq<nat>, data: map<nat, seq<Byte>>, f: Stored, buffer: array<Byte>)
    returns (ok: bool, n: nat)
    requires v.Valid() && v.geo.spc == 1 && v.geo.clusters <= MAX_CLUSTERS
    requires Shows(v.disk.sectors, v.geo, fat, data) && InPlace(fat, data, f)
    requires Distinct(f.chain) && |f.chain| <= v.geo.clusters && forall i | 0 <= i < |f.chain| ::
             ValidCluster(v.geo, f.chain[i])
    requires f.chain != [] && buffer.Length >= |f.content|
    modifies v`fatCache, v`fatCacheSector, v.disk, buffer
    ensures v.disk.faults == old(v.disk.faults) ==> ok
    ensures ok ==> n == |f.content| && buffer[..n] == f.content && buffer[n..] == old(buffer[..])[n..]
  {
    RoundTrip(v.disk.sectors, v.geo, fat, data, f);
    ghost var done;
    ok, n, done := v.ReadChain(f.chain[0], |f.content|, buffer);
  }

  /** Every file a builder holds is in the image it writes, whatever was stored after it, directories
      filled last included. */
  lemma {:induction false} BuiltRoundTrip(b: Builder, g: Geometry, boot: seq<Byte>, info: seq<Byte>, i: nat)
    requires b.Valid() && i in b.contents && g.clusters == b.clusters
    requires GeometryOk(g) && Sane(g) && g.spc == 1 && g.reserved > 6
    ensures var s, f := ImageOf(g, boot, info, b.fat, b.data), Stored(b.chains[i], b.contents[i]);
            f.chain != [] && Content(s, g, f.chain[0], |f.content|) == f.content
                && Covered(s, g, f.chain[0], |f.content|)
  {
    var f := Stored(b.chains[i], b.contents[i]);
    ImageShows(g, boot, info, b.fat, b.data);
    ChainValid(b, g, i);
    RoundTrip(ImageOf(g, boot, info, b.fat, b.data), g, b.fat, b.data, f);
  }

  lemma {:induction false} ChainValid(b: Builder, g: Geometry, i: nat)
    requires b.Valid() && i < |b.chains| && g.clusters == b.clusters
    ensures b.chains[i] != [] && Chained(b.fat, b.chains[i]) && Distinct(b.chains[i]) && |b.chains[i]| <= g.clusters
    ensures forall k | 0 <= k < |b.chains[i]| :: ValidCluster(g, b.chains[i][k])
  {
    assert ChainOk(b.fat, b.free[..b.cursor], b.chains[i]);
    UsedValid(b.free, b.cursor, g, b.chains[i]);
    if |b.chains[i]| > g.clusters { Pigeonhole(g, b.chains[i]); }
  }

  lemma {:induction false} UsedValid(free: seq<nat>, cursor: nat, g: Geometry, chain: seq<nat>)
    requires cursor <= |free| && Used(free[..cursor], chain) && forall i | 0 <= i < |free| :: ValidCluster(g, free[i])
    ensures forall i | 0 <= i < |chain| :: ValidCluster(g, chain[i])
  {
  }

  // ----- the boot sector

  /** The boot sector of the tool. */
  function BootSector(total: nat, fatSectors: nat, root: nat, rest: seq<Byte>): (r: seq<Byte>)
    requires |rest| == 446
    ensures |r| == SECTOR
  {
    Head() + LeBytes(total, 4) + LeBytes(fatSectors, 4) + [0, 0, 0, 0] + LeBytes(root, 4) + Tail() + rest + [0x55, 0xAA]
  }

  /** Bytes 0 to 31: jump, name, 512-byte sectors, one per cluster, 32 reserved, 2 FATs. */
  function Head(): (r: seq<Byte>)
    ensures |r| == 32
  {
    [0xEB, 0x58, 0x90, 0x56, 0x45, 0x4E, 0x4F, 0x4D, 0x46, 0x41, 0x54,
     0x00, 0x02, 0x01, 0x20, 0x00, 0x02, 0x00, 0x00, 0x00, 0x00, 0xF8, 0x00, 0x00,
     0x20, 0x00, 0x40, 0x00, 0x00, 0x00, 0x00, 0x00]
  }

  /** Bytes 48 to 63: FSInfo sector 1, backup boot sector 6, reserved. */
  function Tail(): (r: seq<Byte>)
    ensures |r| == 16
  {
    [0x01, 0x00, 0x06, 0x00] + Zeros(12)
  }

  lemma {:induction false} BootFields(total: nat, fatSectors: nat, root: nat, rest: seq<Byte>)
    requires |rest| == 446 && total < TWO_32 && fatSectors < TWO_32 && root < TWO_32
    ensures var bs := BootSector(total, fatSectors, root, rest);
            && Le(bs, 32, 4) == total && Le(bs, 36, 4) == fatSectors && Le(bs, 44, 4) == root
            && Le(bs, 42, 2) == 0 && bs[510] == 0x55 && bs[511] == 0xAA
  {
    var bs := BootSector(total, fatSectors, root, rest);
    assert Pow256(4) == TWO_32;
    assert bs[32..36] == LeBytes(total, 4);
    LeRound(bs, 32, total, 4);
    assert bs[36..40] == LeBytes(fatSectors, 4);
    LeRound(bs, 36, fatSectors, 4);
    assert bs[44..48] == LeBytes(root, 4);
    LeRound(bs, 44, root, 4);
    Le2(bs, 42);
  }

  lemma {:induction false} BootHead(bs: seq<Byte>)
    requires |bs| == SECTOR && bs[..32] == Head()
    ensures Le(bs, 11, 2) == SECTOR && bs[13] == 1 && Le(bs, 14, 2) == RESERVED && bs[16] == NUM_FATS
    ensures Le(bs, 17, 2) == 0 && Le(bs, 19, 2) == 0 && Le(bs, 22, 2) == 0
  {
    var head := bs[..32];
    assert head[11] == 0x00 && head[12] == 0x02 && head[13] == 0x01 && head[14] == 0x20 && head[15] == 0x00
        && head[16] == 0x02;
    assert head[17] == 0 && head[18] == 0 && head[19] == 0 && head[20] == 0 && head[22] == 0 && head[23] == 0;
    Le2(bs, 11);
    Le2(bs, 14);
    Le2(bs, 17);
    Le2(bs, 19);
    Le2(bs, 22);
  }

  /** The driver mounts every volume the tool builds, with the geometry the tool used. */
  lemma {:induction false} ImageMounts(lba: nat, total: nat, root: nat, rest: seq<Byte>, info: seq<Byte>,
                                       fat: seq<nat>, data: map<nat, seq<Byte>>)
    requires |rest| == 446 && DataStart(total) + 65525 <= total < TWO_32 && 2 <= root < total - DataStart(total) + 2
    ensures var g, boot := Layout(lba, total, root), BootSector(total, FatSectors(total), root, rest);
            var s := ImageOf(g, boot, info, fat, data);
            BootOk(s, lba) && BootGeometry(s[lba], lba) == g
  {
    var g, boot := Layout(lba, total, root), BootSector(total, FatSectors(total), root, rest);
    var s := ImageOf(g, boot, info, fat, data);
    BootFields(total, FatSectors(total), root, rest);
    assert boot[..32] == Head();
    BootHead(boot);
    LayoutOk(lba, total, root);
    assert InVolume(g, lba) && s[lba] == boot;
  }
}
