/** FAT32 volumes as kernel/fat32.cpp reads them (Microsoft FAT specification fatgen103, the
    BPB and FAT Type Determination sections): geometry, links and chains. */
module FatModel {
  import opened Bytes

  const SECTOR: nat := 512
  const FAT_EOC_MIN: nat := 0x0FFF_FFF8
  const FAT_BAD: nat := 0x0FFF_FFF7
  const FAT_BASE: nat := 0x1000_0000   // links are 28 bits wide
  const ERROR: nat := 0xFFFF_FFFF
  const TWO_32: nat := 0x1_0000_0000
  const MAX_CLUSTERS: nat := 0x0FFF_FFF5

  type Sectors = map<nat, seq<Byte>>

  /** Where things are on a volume: sectors count from the volume's start, clusters from 2. */
  datatype Geometry = Geometry(lba: nat, total: nat, spc: nat, reserved: nat, fatSectors: nat,
                               dataStart: nat, root: nat, clusters: nat)

  /** What mount checks. */
  predicate GeometryOk(g: Geometry) {
    && g.spc > 0 && g.reserved > 0 && g.fatSectors > 0
    && g.reserved + g.fatSectors <= g.dataStart
    && g.dataStart + g.clusters * g.spc <= g.total < TWO_32
    && g.clusters + 2 <= g.fatSectors * 128 && 65525 <= g.clusters
    && 2 <= g.root < g.clusters + 2
  }

  /** What mount does not check: byte offsets in the FAT and disk addresses are 32 bits. */
  predicate Sane(g: Geometry) {
    4 * (g.clusters + 2) <= TWO_32 && g.lba + g.total <= TWO_32
  }

  predicate ValidCluster(g: Geometry, c: nat) {
    2 <= c < g.clusters + 2
  }

  predicate InVolume(g: Geometry, l: nat) {
    g.lba <= l < g.lba + g.total
  }

  function FatLba(g: Geometry, c: nat): nat {
    g.lba + g.reserved + c * 4 / SECTOR
  }

  function ClusterLba(g: Geometry, c: nat, s: nat): nat
    requires c >= 2
  {
    g.lba + g.dataStart + (c - 2) * g.spc + s
  }

  /** Every sector of a valid cluster lies in the volume, at a 32-bit address. */
  lemma {:induction false} ClusterInside(g: Geometry, c: nat, s: nat)
    requires GeometryOk(g) && Sane(g) && ValidCluster(g, c) && s < g.spc
    ensures InVolume(g, ClusterLba(g, c, s)) && ClusterLba(g, c, s) < TWO_32
  {
    MulRoom(c - 2, g.clusters, g.spc);
  }

  lemma {:induction false} MulRoom(a: nat, b: nat, k: nat)
    requires a < b
    ensures a * k + k <= b * k
  {
    assert b * k == (b - 1) * k + k;
    if a < b - 1 { MulRoom(a, b - 1, k); }
  }

  /** So does the FAT entry of a valid cluster, at a 32-bit offset. */
  lemma {:induction false} EntryInside(g: Geometry, c: nat)
    requires GeometryOk(g) && Sane(g) && ValidCluster(g, c)
    ensures InVolume(g, FatLba(g, c)) && c * 4 / SECTOR < g.fatSectors && c * 4 < TWO_32 && c * 4 % SECTOR + 4 <= SECTOR
  {
    FatOffset(c, g.fatSectors);
    assert g.dataStart <= g.total;
  }

  lemma {:induction false} FatOffset(c: nat, n: nat)
    requires c < n * 128
    ensures c * 4 / SECTOR < n && c * 4 % SECTOR + 4 <= SECTOR
    ensures c * 4 / SECTOR == c / 128 && c * 4 % SECTOR == 4 * (c % 128)
  {
  }

  // ----- links

  /** The 28-bit FAT entry of a cluster. */
  function FatEntry(s: Sectors, g: Geometry, c: nat): nat {
    var l, off := FatLba(g, c), c * 4 % SECTOR;
    if l in s && off + 4 <= |s[l]| then Le(s[l], off, 4) % FAT_BASE else 0
  }

  /** What a link means: the next cluster, 0 at the end of the chain, ERROR for a bad, free,
      out-of-range or self link. */
  function Decode(g: Geometry, c: nat, v: nat): nat {
    if v >= FAT_EOC_MIN then 0
    else if v == FAT_BAD || !ValidCluster(g, v) || v == c then ERROR
    else v
  }

  function Next(s: Sectors, g: Geometry, c: nat): nat {
    Decode(g, c, FatEntry(s, g, c))
  }

  /** Cluster k of the chain that starts at c: 0 past its end, ERROR past a broken link. */
  function Nth(s: Sectors, g: Geometry, c: nat, k: nat): nat {
    if k == 0 then c
    else
      var b := Nth(s, g, c, k - 1);
      if ValidCluster(g, b) then Next(s, g, b) else b
  }

  /** Byte j of the file whose chain starts at c. */
  function FileByte(s: Sectors, g: Geometry, c: nat, j: nat): Byte
    requires g.spc > 0
  {
    var b := Nth(s, g, c, j / SECTOR / g.spc);
    if b < 2 then 0
    else
      var l := ClusterLba(g, b, j / SECTOR % g.spc);
      if l in s && j % SECTOR < |s[l]| then s[l][j % SECTOR] else 0
  }

  /** The first n bytes of the file. */
  function Content(s: Sectors, g: Geometry, c: nat, n: nat): (r: seq<Byte>)
    requires g.spc > 0
    ensures |r| == n
  {
    seq<Byte>(n, (j: nat) requires g.spc > 0 => FileByte(s, g, c, j))
  }

  // ----- repetition

  predicate Distinct(cs: seq<nat>) {
    forall i, j | 0 <= i < j < |cs| :: cs[i] != cs[j]
  }

  function Elements(cs: seq<nat>): set<nat> {
    set c | c in cs
  }

  lemma {:induction false} DistinctSize(cs: seq<nat>)
    requires Distinct(cs)
    ensures |Elements(cs)| == |cs|
  {
    if cs == [] {
      assert Elements(cs) == {};
    } else {
      var n := |cs| - 1;
      DistinctSize(cs[..n]);
      assert cs == cs[..n] + [cs[n]];
      assert Elements(cs) == Elements(cs[..n]) + {cs[n]};
    }
  }

  function Below(n: nat): (r: set<nat>)
    ensures |r| == n && forall x :: x in r <==> 0 <= x < n
  {
    if n == 0 then {} else Below(n - 1) + {n - 1}
  }

  lemma {:induction false} SubsetSize(a: set<nat>, b: set<nat>)
    requires a <= b
    ensures |a| <= |b|
  {
    if a != {} {
      var x :| x in a;
      SubsetSize(a - {x}, b - {x});
    }
  }

  /** More valid clusters in a row than there are clusters: one of them comes twice. */
  lemma {:induction false} Pigeonhole(g: Geometry, cs: seq<nat>)
    requires |cs| > g.clusters && forall i | 0 <= i < |cs| :: ValidCluster(g, cs[i])
    ensures exists i, j :: 0 <= i < j < |cs| && cs[i] == cs[j]
  {
    if Distinct(cs) {
      DistinctSize(cs);
      var all := Below(g.clusters + 2) - {0} - {1};
      assert |all| == g.clusters;
      SubsetSize(Elements(cs), all);
      assert false;
    }
  }
}
