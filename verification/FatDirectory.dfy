/** walk_dir of kernel/fat32.cpp: the entries of a directory, over whatever the FAT says. */
module FatDirectory {
  import opened Bytes
  import opened FatModel
  import opened FatVolume

  const ENTRY: nat := 32

  datatype Scan = EndMark | More | Hit(entry: seq<Byte>)

  type Visit = seq<Byte> -> bool

  /** Long-name parts and volume labels are passed over. */
  predicate Hidden(attr: Byte) {
    attr == 0x0F || attr / 8 % 2 == 1
  }

  /** The entries of a sector from entry i on: the end mark, the first one the visitor wants, or
      neither. */
  function ScanFrom(data: seq<Byte>, i: nat, visit: Visit): Scan
    requires |data| == SECTOR && i <= 16
    decreases 16 - i
  {
    if i == 16 then More
    else
      var e := data[ENTRY * i..ENTRY * i + ENTRY];
      if e[0] == 0x00 then EndMark
      else if e[0] == 0xE5 || Hidden(e[11]) then ScanFrom(data, i + 1, visit)
      else if visit(e) then Hit(e)
      else ScanFrom(data, i + 1, visit)
  }

  function EntryOf(data: seq<Byte>, k: nat): (e: seq<Byte>)
    requires |data| == SECTOR && k < 16
    ensures |e| == ENTRY
  {
    data[ENTRY * k..ENTRY * k + ENTRY]
  }

  /** The entry is in use, has a short name, and is what the caller looks for. */
  predicate Wanted(e: seq<Byte>, visit: Visit)
    requires |e| == ENTRY
  {
    e[0] != 0xE5 && !Hidden(e[11]) && visit(e)
  }

  /** None of the first k entries ends the directory or is wanted. */
  predicate NothingBefore(data: seq<Byte>, visit: Visit, k: nat)
    requires |data| == SECTOR && k <= 16
  {
    forall j: nat | j < k :: EntryOf(data, j)[0] != 0x00 && !Wanted(EntryOf(data, j), visit)
  }

  /** What a sector shows: the first wanted entry, unless the directory ends before it. */
  predicate Means(data: seq<Byte>, visit: Visit, r: Scan)
    requires |data| == SECTOR
  {
    match r
    case Hit(e) => exists k: nat | k < 16 ::
      EntryOf(data, k) == e && e[0] != 0x00 && Wanted(e, visit) && NothingBefore(data, visit, k)
    case EndMark => exists k: nat | k < 16 :: EntryOf(data, k)[0] == 0x00 && NothingBefore(data, visit, k)
    case More => NothingBefore(data, visit, 16)
  }

  /** The scan of a sector, sixteen entries in order. */
  method ScanSector(data: seq<Byte>, visit: Visit) returns (r: Scan)
    requires |data| == SECTOR
    ensures Means(data, visit, r) && r == ScanFrom(data, 0, visit)
  {
    var i := 0;
    while i < 16
      invariant i <= 16 && ScanFrom(data, i, visit) == ScanFrom(data, 0, visit) && NothingBefore(data, visit, i)
    {
      var e := data[ENTRY * i..ENTRY * i + ENTRY];
      assert e == EntryOf(data, i);
      if e[0] == 0x00 { return EndMark; }
      if e[0] != 0xE5 && !Hidden(e[11]) && visit(e) { return Hit(e); }
      i := i + 1;
    }
    r := More;
  }

  // ----- sectors of a directory

  /** What sector t of cluster k of a directory shows. */
  function ScanAt(s: Sectors, g: Geometry, dir: nat, visit: Visit, k: nat, t: nat): Scan {
    var c := Nth(s, g, dir, k);
    if c < 2 then More
    else
      var l := ClusterLba(g, c, t);
      if l in s && |s[l]| == SECTOR then ScanFrom(s[l], 0, visit) else More
  }

  predicate PassedAt(s: Sectors, g: Geometry, dir: nat, visit: Visit, k: nat, t: nat) {
    ValidCluster(g, Nth(s, g, dir, k)) && ScanAt(s, g, dir, visit, k, t) == More
  }

  /** Everything before sector t of cluster k was read and held nothing of interest. */
  ghost predicate Passed(s: Sectors, g: Geometry, dir: nat, visit: Visit, k: nat, t: nat) {
    forall j: nat, u: nat {:trigger PassedAt(s, g, dir, visit, j, u)} |
      (j < k && u < g.spc) || (j == k && u < t) :: PassedAt(s, g, dir, visit, j, u)
  }

  /** The chain comes back to a cluster it already went through. */
  ghost predicate Repeats(s: Sectors, g: Geometry, dir: nat) {
    exists i, j :: 0 <= i < j <= g.clusters && Nth(s, g, dir, i) == Nth(s, g, dir, j)
        && ValidCluster(g, Nth(s, g, dir, j))
  }

  datatype Walked = Failed | Absent | Found(entry: seq<Byte>)

  /** The walk stops at sector t of cluster k, with what that sector shows. */
  ghost predicate StopsAt(s: Sectors, g: Geometry, dir: nat, visit: Visit, k: nat, t: nat, r: Scan) {
    && Passed(s, g, dir, visit, k, t) && k < g.clusters && t < g.spc
    && ValidCluster(g, Nth(s, g, dir, k)) && ScanAt(s, g, dir, visit, k, t) == r
  }

  /** The chain ends, or breaks, behind cluster k - 1, and all before was passed. */
  ghost predicate EndsAt(s: Sectors, g: Geometry, dir: nat, visit: Visit, k: nat) {
    Passed(s, g, dir, visit, k, 0) && k <= g.clusters && Nth(s, g, dir, k) == 0
  }

  ghost predicate BreaksAt(s: Sectors, g: Geometry, dir: nat, visit: Visit, k: nat) {
    && Passed(s, g, dir, visit, k, 0) && k <= g.clusters
    && Nth(s, g, dir, k) != 0 && !ValidCluster(g, Nth(s, g, dir, k))
  }

  /** As many clusters as there are were passed, and the chain goes on. */
  ghost predicate GoesOn(s: Sectors, g: Geometry, dir: nat, visit: Visit) {
    Passed(s, g, dir, visit, g.clusters, 0) && ValidCluster(g, Nth(s, g, dir, g.clusters)) && Repeats(s, g, dir)
  }

  /** What a walk without disk faults comes to. */
  ghost predicate Outcome(s: Sectors, g: Geometry, dir: nat, visit: Visit, r: Walked) {
    match r
    case Found(e) => exists k: nat, t: nat :: StopsAt(s, g, dir, visit, k, t, Hit(e))
    case Absent =>
      || (exists k: nat, t: nat :: StopsAt(s, g, dir, visit, k, t, EndMark))
      || (exists k: nat :: EndsAt(s, g, dir, visit, k))
    case Failed => (exists k: nat :: BreaksAt(s, g, dir, visit, k)) || GoesOn(s, g, dir, visit)
  }

  /** The walk gets as far as sector t of cluster k and not beyond it. */
  ghost predicate Halts(s: Sectors, g: Geometry, dir: nat, visit: Visit, k: nat, t: nat) {
    Passed(s, g, dir, visit, k, t) && t < g.spc && (k >= g.clusters || !PassedAt(s, g, dir, visit, k, t))
  }

  /** What the walk comes to at the place where it halts. */
  function Verdict(s: Sectors, g: Geometry, dir: nat, visit: Visit, k: nat, t: nat): Walked {
    var c, scan := Nth(s, g, dir, k), ScanAt(s, g, dir, visit, k, t);
    if c == 0 then Absent
    else if !ValidCluster(g, c) || k >= g.clusters then Failed
    else if scan.Hit? then Found(scan.entry) else Absent
  }

  lemma {:induction false} OutcomeHalts(s: Sectors, g: Geometry, dir: nat, visit: Visit, r: Walked)
    returns (k: nat, t: nat)
    requires Outcome(s, g, dir, visit, r) && g.spc > 0
    ensures k <= g.clusters && (k == g.clusters ==> t == 0) && Halts(s, g, dir, visit, k, t)
    ensures r == Verdict(s, g, dir, visit, k, t)
  {
    match r
    case Found(e) => k, t :| StopsAt(s, g, dir, visit, k, t, Hit(e));
    case Absent =>
      if i: nat, u: nat :| StopsAt(s, g, dir, visit, i, u, EndMark) {
        k, t := i, u;
      } else {
        k, t :| EndsAt(s, g, dir, visit, k) && t == 0;
      }
    case Failed =>
      if i: nat :| BreaksAt(s, g, dir, visit, i) { k, t := i, 0; } else { k, t := g.clusters, 0; }
  }

  /** A walk halts in one place only. */
  lemma {:induction false} HaltsOnce(s: Sectors, g: Geometry, dir: nat, visit: Visit, k: nat, t: nat, i: nat, u: nat)
    requires Halts(s, g, dir, visit, k, t) && Halts(s, g, dir, visit, i, u)
    requires k <= g.clusters && i <= g.clusters && (k == g.clusters ==> t == 0) && (i == g.clusters ==> u == 0)
    ensures k == i && t == u
  {
    var a, b := PassedAt(s, g, dir, visit, k, t), PassedAt(s, g, dir, visit, i, u);
  }

  /** So what the volume holds decides what a walk comes to. */
  lemma {:induction false} OutcomeUnique(s: Sectors, g: Geometry, dir: nat, visit: Visit, r: Walked, r': Walked)
    requires Outcome(s, g, dir, visit, r) && Outcome(s, g, dir, visit, r') && g.spc > 0
    ensures r == r'
  {
    var k, t := OutcomeHalts(s, g, dir, visit, r);
    var i, u := OutcomeHalts(s, g, dir, visit, r');
    HaltsOnce(s, g, dir, visit, k, t, i, u);
  }

  // ----- the walk

  /** One sector of a cluster, read and scanned. */
  method WalkSector(v: Volume, cluster: nat, t: nat, visit: Visit, ghost dir: nat, ghost k: nat)
    returns (ok: bool, r: Scan)
    requires v.Valid() && ValidCluster(v.geo, cluster) && cluster == Nth(v.disk.sectors, v.geo, dir, k) && t < v.geo.spc
    modifies v.disk
    ensures Asked(v.geo, old(v.disk.requested), v.disk.requested) && v.disk.faults >= old(v.disk.faults)
    ensures ok <==> v.disk.faults == old(v.disk.faults)
    ensures ok ==> ScanAt(v.disk.sectors, v.geo, dir, visit, k, t) == r
  {
    ClusterInside(v.geo, cluster, t);
    var data;
    ok, data := v.disk.ReadSector(ClusterLba(v.geo, cluster, t));
    r := ScanSector(data, visit);
  }

  /** The sectors of one cluster. */
  method WalkCluster(v: Volume, cluster: nat, visit: Visit, ghost dir: nat, ghost k: nat)
    returns (ok: bool, r: Scan, ghost t: nat)
    requires v.Valid() && ValidCluster(v.geo, cluster) && cluster == Nth(v.disk.sectors, v.geo, dir, k)
    requires Passed(v.disk.sectors, v.geo, dir, visit, k, 0)
    modifies v.disk
    ensures Asked(v.geo, old(v.disk.requested), v.disk.requested) && v.disk.faults >= old(v.disk.faults)
    ensures ok <==> v.disk.faults == old(v.disk.faults)
    ensures ok && r == More ==> Passed(v.disk.sectors, v.geo, dir, visit, k + 1, 0)
    ensures ok && r != More ==> t < v.geo.spc && ScanAt(v.disk.sectors, v.geo, dir, visit, k, t) == r
    ensures ok && r != More ==> Passed(v.disk.sectors, v.geo, dir, visit, k, t)
  {
    ok, r, t := true, More, 0;
    var s := 0;
    while s < v.geo.spc
      invariant s == t <= v.geo.spc && ok && r == More && Passed(v.disk.sectors, v.geo, dir, visit, k, t)
      invariant Asked(v.geo, old(v.disk.requested), v.disk.requested) && v.disk.faults == old(v.disk.faults)
    {
      ok, r := WalkSector(v, cluster, s, visit, dir, k);
      if !ok || r != More { return; }
      assert PassedAt(v.disk.sectors, v.geo, dir, visit, k, s);
      s, t := s + 1, t + 1;
    }
  }

  /** Every sector asked for lies in the volume and the walk ends, whatever the FAT holds. The step
      bound trips only on a chain that repeats a cluster. */
  method WalkDir(v: Volume, dir: nat, visit: Visit) returns (r: Walked)
    requires v.Valid()
    modifies v`fatCache, v`fatCacheSector, v.disk
    ensures v.Valid() && Asked(v.geo, old(v.disk.requested), v.disk.requested) && v.disk.faults >= old(v.disk.faults)
    ensures v.disk.faults == old(v.disk.faults) ==> Outcome(v.disk.sectors, v.geo, dir, visit, r)
    ensures v.disk.faults != old(v.disk.faults) ==> r == Failed
  {
    ghost var sectors, g := v.disk.sectors, v.geo;
    var cluster, steps := dir, 0;
    while cluster != 0
      invariant steps <= g.clusters && v.Valid() && v.geo == g
      invariant cluster == Nth(sectors, g, dir, steps) && Passed(sectors, g, dir, visit, steps, 0)
      invariant Asked(g, old(v.disk.requested), v.disk.requested) && v.disk.faults == old(v.disk.faults)
      decreases g.clusters - steps
    {
      if !(2 <= cluster < v.geo.clusters + 2) {
        assert BreaksAt(sectors, g, dir, visit, steps);
        return Failed;
      }
      if steps + 1 > v.geo.clusters {
        TooManySteps(sectors, g, dir, visit);
        return Failed;
      }
      var ok, scan, t := WalkCluster(v, cluster, visit, dir, steps);
      if !ok { return Failed; }
      assert scan != More ==> StopsAt(sectors, g, dir, visit, steps, t, scan);
      if scan == EndMark { return Absent; }
      if scan.Hit? { return Found(scan.entry); }
      var next := v.Follow(cluster, dir, steps);
      if next == ERROR {
        if v.disk.faults == old(v.disk.faults) { assert BreaksAt(sectors, g, dir, visit, steps + 1); }
        return Failed;
      }
      cluster, steps := next, steps + 1;
    }
    assert EndsAt(sectors, g, dir, visit, steps);
    r := Absent;
  }

  lemma {:induction false} TooManySteps(s: Sectors, g: Geometry, dir: nat, visit: Visit)
    requires Passed(s, g, dir, visit, g.clusters, 0) && ValidCluster(g, Nth(s, g, dir, g.clusters)) && g.spc > 0
    ensures Repeats(s, g, dir)
  {
    var cs := seq(g.clusters + 1, (k: nat) => Nth(s, g, dir, k));
    forall i | 0 <= i < |cs| ensures ValidCluster(g, cs[i]) {
      assert i < g.clusters ==> PassedAt(s, g, dir, visit, i, 0);
    }
    Pigeonhole(g, cs);
    var i, j :| 0 <= i < j < |cs| && cs[i] == cs[j];
    assert Nth(s, g, dir, i) == Nth(s, g, dir, j) && ValidCluster(g, cs[j]);
  }
}
