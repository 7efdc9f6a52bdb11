/** Where things are on a FAT32 volume, in the terms of the Microsoft FAT specification fatgen103: the
    boot sector member by member, the words of the FAT, and the sectors of the clusters. */
module FatLayout {
  import opened Bytes
  import opened PackedFields
  import opened FatModel
  import opened FatVolume
  import opened FatDirectory
  import opened FatFiles

  // ----- the boot sector

  /** BPB_BytsPerSec to BPB_BkBootSec, from byte 11 on. */
  datatype Bpb = Bpb(bytesPerSector: nat, sectorsPerCluster: nat, reserved: nat, fats: nat, rootEntries: nat,
                     total16: nat, media: nat, fatSize16: nat, sectorsPerTrack: nat, heads: nat, hidden: nat,
                     total32: nat, fatSize32: nat, extFlags: nat, version: nat, root: nat, fsInfo: nat, backup: nat)

  function LastFields(b: Bpb): Fields {
    Field(b.total32, 4, Field(b.fatSize32, 4, Field(b.extFlags, 2, Field(b.version, 2, Field(b.root, 4,
      Field(b.fsInfo, 2, Field(b.backup, 2, End)))))))
  }

  function MiddleFields(b: Bpb): Fields {
    Field(b.total16, 2, Field(b.media, 1, Field(b.fatSize16, 2, Field(b.sectorsPerTrack, 2, Field(b.heads, 2,
      Field(b.hidden, 4, LastFields(b)))))))
  }

  function BpbFields(b: Bpb): Fields {
    Field(b.bytesPerSector, 2, Field(b.sectorsPerCluster, 1, Field(b.reserved, 2, Field(b.fats, 1,
      Field(b.rootEntries, 2, MiddleFields(b))))))
  }

  predicate IsBpb(bs: seq<Byte>, b: Bpb) {
    |bs| == SECTOR && Fit(BpbFields(b)) && bs[11..52] == Packed(BpbFields(b))
  }

  lemma {:induction false} BpbWidth(b: Bpb)
    ensures Width(BpbFields(b)) == 41
  {
    var f, m, l := BpbFields(b), MiddleFields(b), LastFields(b);
    assert Width(l.rest.rest.rest.rest.rest.rest) == 2;
    assert Width(l.rest.rest.rest.rest) == 8;
    assert Width(l.rest.rest) == 12;
    assert Width(l) == 20;
    assert Width(m.rest.rest.rest.rest) == 26;
    assert Width(m.rest.rest) == 30;
    assert Width(m) == 33;
    assert Width(f.rest.rest.rest) == 36;
    assert Width(f.rest) == 39;
  }

  lemma {:induction false} FirstRead(bs: seq<Byte>, b: Bpb)
    requires Reads(bs, 11, BpbFields(b))
    ensures |bs| >= 19 && Le(bs, 11, 2) == b.bytesPerSector && Le(bs, 13, 1) == b.sectorsPerCluster
    ensures Le(bs, 14, 2) == b.reserved && Le(bs, 16, 1) == b.fats && Le(bs, 17, 2) == b.rootEntries
    ensures Reads(bs, 19, MiddleFields(b))
  {
    var f := BpbFields(b);
    assert Reads(bs, 13, f.rest);
    assert Reads(bs, 14, f.rest.rest);
    assert Reads(bs, 16, f.rest.rest.rest);
    assert Reads(bs, 17, f.rest.rest.rest.rest);
  }

  lemma {:induction false} MiddleRead(bs: seq<Byte>, b: Bpb)
    requires Reads(bs, 19, MiddleFields(b))
    ensures |bs| >= 32 && Le(bs, 19, 2) == b.total16 && Le(bs, 22, 2) == b.fatSize16 && Reads(bs, 32, LastFields(b))
  {
    var m := MiddleFields(b);
    assert Reads(bs, 21, m.rest);
    assert Reads(bs, 22, m.rest.rest);
    assert Reads(bs, 24, m.rest.rest.rest);
    assert Reads(bs, 26, m.rest.rest.rest.rest);
    assert Reads(bs, 28, m.rest.rest.rest.rest.rest);
  }

  lemma {:induction false} LastRead(bs: seq<Byte>, b: Bpb)
    requires Reads(bs, 32, LastFields(b))
    ensures |bs| >= 48 && Le(bs, 32, 4) == b.total32 && Le(bs, 36, 4) == b.fatSize32
    ensures Le(bs, 42, 2) == b.version && Le(bs, 44, 4) == b.root
  {
    var l := LastFields(b);
    assert Reads(bs, 36, l.rest);
    assert Reads(bs, 40, l.rest.rest);
    assert Reads(bs, 42, l.rest.rest.rest);
    assert Reads(bs, 44, l.rest.rest.rest.rest);
  }

  lemma {:induction false} BpbRead(bs: seq<Byte>, b: Bpb)
    requires IsBpb(bs, b)
    ensures Le(bs, 11, 2) == b.bytesPerSector && bs[13] == b.sectorsPerCluster && Le(bs, 14, 2) == b.reserved
    ensures bs[16] == b.fats && Le(bs, 17, 2) == b.rootEntries && Le(bs, 19, 2) == b.total16
    ensures Le(bs, 22, 2) == b.fatSize16 && Le(bs, 32, 4) == b.total32 && Le(bs, 36, 4) == b.fatSize32
    ensures Le(bs, 42, 2) == b.version && Le(bs, 44, 4) == b.root
  {
    BpbWidth(b);
    PackedReads(bs, 11, BpbFields(b));
    FirstRead(bs, b);
    MiddleRead(bs, b);
    LastRead(bs, b);
    assert Le(bs, 13, 1) == bs[13] && Le(bs, 16, 1) == bs[16];
  }

  function DataStart(b: Bpb): nat {
    b.reserved + b.fats * b.fatSize32
  }

  function Clusters(b: Bpb): nat {
    if b.sectorsPerCluster == 0 || b.total32 < DataStart(b) then 0
    else (b.total32 - DataStart(b)) / b.sectorsPerCluster
  }

  predicate PlainFat32(b: Bpb) {
    && b.bytesPerSector == 512 && b.sectorsPerCluster in {1, 2, 4, 8, 16, 32, 64, 128}
    && b.reserved > 0 && b.fats > 0 && b.fatSize32 > 0
    && b.rootEntries == 0 && b.total16 == 0 && b.fatSize16 == 0 && b.version == 0
  }

  /** A boot sector is accepted exactly if it is that of a plain FAT32 volume whose FAT describes every
      cluster, and then the geometry is the one its fields give. */
  lemma {:induction false} BootExactly(bs: seq<Byte>, b: Bpb, lba: nat)
    requires IsBpb(bs, b)
    ensures BootAccepted(bs, lba) <==>
            && bs[510] == 0x55 && bs[511] == 0xAA && PlainFat32(b)
            && DataStart(b) < b.total32 && 65525 <= Clusters(b) && Clusters(b) + 2 <= 128 * b.fatSize32
            && 2 <= b.root < Clusters(b) + 2
    ensures BootAccepted(bs, lba) ==>
            BootGeometry(bs, lba) == Geometry(lba, b.total32, b.sectorsPerCluster, b.reserved, b.fatSize32,
                                              DataStart(b), b.root, Clusters(b))
  {
    BpbRead(bs, b);
  }

  // ----- the FAT

  /** The word of a cluster in the FAT is the one at byte 4 * c, its upper four bits ignored; from
      0xFFFFFF8 on it ends the chain, and a free, bad, out-of-range or own number is an error. */
  lemma {:induction false} LinkExact(s: Sectors, g: Geometry, c: nat)
    requires GeometryOk(g) && Sane(g) && ValidCluster(g, c)
    requires var l := g.lba + g.reserved + c / 128; l in s && |s[l]| == 512
    ensures var sector, at := s[g.lba + g.reserved + c / 128], 4 * (c % 128);
            var v := sector[at] as int + 0x100 * sector[at + 1] as int + 0x1_0000 * sector[at + 2] as int
                     + 0x100_0000 * (sector[at + 3] as int % 16);
            Next(s, g, c) == if v >= 0x0FFF_FFF8 then 0
                             else if 2 <= v < g.clusters + 2 && v != c && v != 0x0FFF_FFF7 then v else 0xFFFF_FFFF
  {
    var sector, at := s[g.lba + g.reserved + c / 128], 4 * (c % 128);
    FatOffset(c, g.fatSectors);
    Le4(sector, at);
    LowBits(sector[at], sector[at + 1], sector[at + 2], sector[at + 3]);
  }

  lemma {:induction false} LowBits(b0: Byte, b1: Byte, b2: Byte, b3: Byte)
    ensures (b0 as int + b1 as int * 0x100 + (b2 as int + b3 as int * 0x100) * 0x1_0000) % FAT_BASE
         == b0 as int + 0x100 * b1 as int + 0x1_0000 * b2 as int + 0x100_0000 * (b3 as int % 16)
  {
  }

  // ----- the data region

  /** Cluster 2 begins the data region, clusters follow one another, each sector by sector. */
  lemma {:induction false} ClustersInOrder(g: Geometry, c: nat, t: nat)
    requires c >= 2
    ensures ClusterLba(g, 2, 0) == g.lba + g.dataStart
    ensures ClusterLba(g, c, t + 1) == ClusterLba(g, c, t) + 1 && ClusterLba(g, c + 1, t) == ClusterLba(g, c, t) + g.spc
  {
    assert (c + 1 - 2) * g.spc == (c - 2) * g.spc + g.spc;
  }

  /** So every sector of the data region belongs to exactly one cluster. */
  lemma {:induction false} ClustersTile(g: Geometry, l: nat) returns (c: nat, t: nat)
    requires g.spc > 0 && g.lba + g.dataStart <= l < g.lba + g.dataStart + g.clusters * g.spc
    ensures ValidCluster(g, c) && t < g.spc && ClusterLba(g, c, t) == l
    ensures forall d: nat, u: nat | ValidCluster(g, d) && u < g.spc && ClusterLba(g, d, u) == l :: d == c && u == t
  {
    var x := l - g.lba - g.dataStart;
    c, t := x / g.spc + 2, x % g.spc;
    Inside(x, g.spc, g.clusters);
    forall d: nat, u: nat | ValidCluster(g, d) && u < g.spc && ClusterLba(g, d, u) == l ensures d == c && u == t {
      OneCluster(g, x, d, u);
    }
  }

  lemma {:induction false} OneCluster(g: Geometry, x: nat, d: nat, u: nat)
    requires d >= 2 && u < g.spc && ClusterLba(g, d, u) == g.lba + g.dataStart + x
    ensures d == x / g.spc + 2 && u == x % g.spc
  {
    assert x == (d - 2) * g.spc + u;
    DivMod(d - 2, g.spc, u);
  }

  lemma {:induction false} Inside(x: nat, k: nat, n: nat)
    requires k > 0 && x < n * k
    ensures x == x / k * k + x % k && x / k < n
  {
    if x / k >= n { MulMore(n, x / k, k); }
  }

  lemma {:induction false} MulMore(a: nat, b: nat, k: nat)
    requires a <= b
    ensures a * k <= b * k
  {
    if a < b { MulRoom(a, b, k); }
  }

  /** A file is read sector after sector of its clusters, cluster after cluster of its chain. */
  lemma {:induction false} NextSector(s: Sectors, g: Geometry, first: nat, k: nat, t: nat)
    requires t < g.spc && ValidCluster(g, Nth(s, g, first, k))
    requires var l := ClusterLba(g, Nth(s, g, first, k), t); l in s && |s[l]| == SECTOR
    ensures var n := 512 * (k * g.spc + t);
            Content(s, g, first, n + 512) == Content(s, g, first, n) + s[ClusterLba(g, Nth(s, g, first, k), t)]
  {
    var n, l := 512 * (k * g.spc + t), ClusterLba(g, Nth(s, g, first, k), t);
    forall i | 0 <= i < 512 ensures FileByte(s, g, first, n + i) == s[l][i] {
      SectorBytes(s, g, first, k, t, n + i);
    }
    ContentGrows(s, g, first, n, s[l]);
  }

  lemma {:induction false} ContentGrows(s: Sectors, g: Geometry, first: nat, n: nat, more: seq<Byte>)
    requires g.spc > 0 && forall i | 0 <= i < |more| :: FileByte(s, g, first, n + i) == more[i]
    ensures Content(s, g, first, n + |more|) == Content(s, g, first, n) + more
  {
    var a, b := Content(s, g, first, n + |more|), Content(s, g, first, n) + more;
    forall j | 0 <= j < n + |more| ensures a[j] == b[j] {
      assert a[j] == FileByte(s, g, first, j);
      if j >= n { assert FileByte(s, g, first, n + (j - n)) == more[j - n]; }
    }
  }

  // ----- directory entries

  /** The members of a directory entry behind name and attributes, from byte 12 on. */
  datatype EntryFields = EntryFields(ntRes: nat, createdTenth: nat, createdTime: nat, createdDate: nat,
                                     accessed: nat, clusterHigh: nat, written: nat, writtenDate: nat,
                                     clusterLow: nat, size: nat)

  function LateFields(f: EntryFields): Fields {
    Field(f.clusterHigh, 2, Field(f.written, 2, Field(f.writtenDate, 2, Field(f.clusterLow, 2, Field(f.size, 4, End)))))
  }

  function DirFields(f: EntryFields): Fields {
    Field(f.ntRes, 1, Field(f.createdTenth, 1, Field(f.createdTime, 2, Field(f.createdDate, 2, Field(f.accessed, 2,
      LateFields(f))))))
  }

  predicate IsEntry(e: seq<Byte>, f: EntryFields) {
    |e| == ENTRY && Fit(DirFields(f)) && e[12..] == Packed(DirFields(f))
  }

  lemma {:induction false} DirWidth(f: EntryFields)
    ensures Width(DirFields(f)) == 20
  {
    var d, l := DirFields(f), LateFields(f);
    assert Width(l.rest.rest.rest.rest) == 4;
    assert Width(l.rest.rest) == 8;
    assert Width(l) == 12;
    assert Width(d.rest.rest.rest) == 16;
    assert Width(d.rest) == 19;
  }

  lemma {:induction false} LateRead(e: seq<Byte>, f: EntryFields)
    requires Reads(e, 20, LateFields(f))
    ensures |e| >= 32 && Le(e, 20, 2) == f.clusterHigh && Le(e, 26, 2) == f.clusterLow && Le(e, 28, 4) == f.size
  {
    var l := LateFields(f);
    assert Reads(e, 22, l.rest);
    assert Reads(e, 24, l.rest.rest);
    assert Reads(e, 26, l.rest.rest.rest);
    assert Reads(e, 28, l.rest.rest.rest.rest);
  }

  /** The driver takes the first cluster from the two halves of an entry, and the size from its end. */
  lemma {:induction false} EntryExactly(e: seq<Byte>, f: EntryFields)
    requires IsEntry(e, f)
    ensures EntryCluster(e) == 0x1_0000 * f.clusterHigh + f.clusterLow && EntrySize(e) == f.size
    ensures IsDirectory(e) <==> e[11] as int / 16 % 2 == 1
  {
    var d := DirFields(f);
    DirWidth(f);
    assert e[12..12 + 20] == e[12..];
    PackedReads(e, 12, d);
    assert Reads(e, 13, d.rest);
    assert Reads(e, 14, d.rest.rest);
    assert Reads(e, 16, d.rest.rest.rest);
    assert Reads(e, 18, d.rest.rest.rest.rest);
    LateRead(e, f);
  }
}
