/** The FAT32 reader of kernel/fat32.cpp: a mounted volume with a one-sector FAT cache. */
module FatVolume {
  import opened Bytes
  import opened FatModel

  const NONE: nat := 0xFFFF_FFFF

  /** The disk behind the reader callback: a read may fail, and what is asked for is noted. */
  class Disk {
    const sectors: Sectors
    ghost var requested: set<nat>
    ghost var faults: nat

    constructor (sectors: Sectors)
      requires forall l | l in sectors :: |sectors[l]| == SECTOR
      ensures this.sectors == sectors && Valid() && faults == 0
    {
      this.sectors := sectors;
      requested, faults := {}, 0;
    }

    ghost predicate Valid() {
      forall l | l in sectors :: |sectors[l]| == SECTOR
    }

    method ReadSector(l: nat) returns (ok: bool, data: seq<Byte>)
      requires Valid()
      modifies this
      ensures requested == old(requested) + {l} && |data| == SECTOR
      ensures ok ==> l in sectors && data == sectors[l] && faults == old(faults)
      ensures !ok ==> faults > old(faults)
    {
      ok := *;
      data := seq(SECTOR, _ => 0);
      requested := requested + {l};
      if ok && l in sectors {
        data := sectors[l];
      } else {
        ok := false;
        faults := faults + 1;
      }
    }
  }

  class Volume {
    const disk: Disk
    var geo: Geometry
    var mounted: bool
    var fatCache: seq<Byte>
    var fatCacheSector: nat

    constructor (disk: Disk)
      requires disk.Valid()
      ensures this.disk == disk && !mounted
    {
      this.disk := disk;
      geo, mounted, fatCache, fatCacheSector := Geometry(0, 0, 0, 0, 0, 0, 0, 0), false, [], NONE;
    }

    /** The cache holds what the disk holds at its sector, or nothing. */
    ghost predicate CacheOk()
      reads this
    {
      fatCacheSector != NONE ==>
        geo.lba + fatCacheSector in disk.sectors && fatCache == disk.sectors[geo.lba + fatCacheSector]
    }

    ghost predicate Valid()
      reads this
    {
      disk.Valid() && GeometryOk(geo) && Sane(geo) && CacheOk()
    }

    // ----- mount

    /** The volume is taken exactly if its boot sector passes the checks, and then its geometry is
        consistent: the FAT and the data lie inside the volume and the FAT describes every cluster. */
    method Mount(lba: nat) returns (ok: bool)
      requires disk.Valid()
      modifies this, disk
      ensures mounted == ok && disk.requested == old(disk.requested) + {lba} && disk.faults >= old(disk.faults)
      ensures ok ==> disk.faults == old(disk.faults)
      ensures ok ==> BootOk(disk.sectors, lba) && geo == BootGeometry(disk.sectors[lba], lba) && GeometryOk(geo)
                     && CacheOk()
      ensures !ok && disk.faults == old(disk.faults) ==> !BootOk(disk.sectors, lba)
    {
      mounted, fatCacheSector := false, NONE;
      var bs, g;
      ok, bs := disk.ReadSector(lba);
      if !ok { return; }
      ok, g := ReadGeometry(bs, lba);
      if !ok { return; }
      geo, mounted := g, true;
    }

    /** The checks of Mount on the boot sector. */
    static method ReadGeometry(bs: seq<Byte>, lba: nat) returns (ok: bool, g: Geometry)
      requires |bs| == SECTOR
      ensures ok <==> BootAccepted(bs, lba)
      ensures ok ==> g == BootGeometry(bs, lba) && GeometryOk(g)
    {
      g := Geometry(0, 0, 0, 0, 0, 0, 0, 0);
      ok := CheckHeader(bs);
      if !ok { return; }
      ok := false;
      var spc, reserved, numFats := bs[13], Le(bs, 14, 2), bs[16];
      var total, fatSectors, root := Le(bs, 32, 4), Le(bs, 36, 4), Le(bs, 44, 4);
      if total == 0 { return; }
      var dataStart := reserved + numFats * fatSectors;
      if dataStart >= total { return; }
      var clusters := (total - dataStart) / spc;
      if clusters < 65525 { return; }
      if fatSectors * 128 < clusters + 2 { return; }
      if root < 2 || root >= clusters + 2 { return; }
      ok, g := true, Geometry(lba, total, spc, reserved, fatSectors, dataStart, root, clusters);
      BootConsistent(bs, lba);
    }

    static method CheckHeader(bs: seq<Byte>) returns (ok: bool)
      requires |bs| == SECTOR
      ensures ok <==> HeaderOk(bs)
    {
      if bs[510] != 0x55 || bs[511] != 0xAA { return false; }
      if Le(bs, 11, 2) != SECTOR { return false; }
      if !PowerOfTwo8(bs[13]) { return false; }
      if Le(bs, 14, 2) == 0 || bs[16] == 0 { return false; }
      if Le(bs, 17, 2) != 0 || Le(bs, 19, 2) != 0 || Le(bs, 22, 2) != 0 { return false; }
      if Le(bs, 42, 2) != 0 { return false; }
      return Le(bs, 36, 4) != 0;
    }

    // ----- links

    /** The next cluster, whether or not the FAT sector was in the cache: the result is that of
        reading the FAT anew, unless the disk failed. */
    method NextCluster(c: nat) returns (r: nat)
      requires Valid() && ValidCluster(geo, c)
      modifies `fatCache, `fatCacheSector, disk
      ensures Valid() && disk.requested <= old(disk.requested) + {FatLba(geo, c)}
      ensures disk.faults >= old(disk.faults)
      ensures if disk.faults == old(disk.faults) then r == Next(disk.sectors, geo, c) else r == ERROR
    {
      EntryInside(geo, c);
      var byteOff := c * 4;
      var sector := geo.reserved + byteOff / SECTOR;
      if byteOff / SECTOR >= geo.fatSectors { return ERROR; }
      if fatCacheSector != sector {
        var ok, data := disk.ReadSector(geo.lba + sector);
        fatCache := data;
        if !ok {
          fatCacheSector := NONE;
          return ERROR;
        }
        fatCacheSector := sector;
      }
      var v := Le(fatCache, byteOff % SECTOR, 4) % FAT_BASE;
      r := Decode(geo, c, v);
    }

    // ----- reading a file

    /** A sector copied behind the bytes already read. */
    method ReadInto(l: nat, buffer: array<Byte>, done: nat, toRead: nat, ghost content: seq<Byte>, ghost was: seq<Byte>)
      returns (ok: bool, done': nat)
      requires disk.Valid() && done < toRead <= buffer.Length && |content| == toRead
      requires Holds(disk.sectors, l, content, done) && Copied(buffer[..], was, content, done)
      modifies disk, buffer
      ensures disk.requested == old(disk.requested) + {l}
      ensures if ok then done' == Min(done + SECTOR, toRead) && disk.faults == old(disk.faults)
              else done' == done && disk.faults > old(disk.faults)
      ensures Copied(buffer[..], was, content, done')
    {
      var data;
      ok, data := disk.ReadSector(l);
      if !ok { return ok, done; }
      var chunk := Min(toRead - done, SECTOR);
      CopiedMore(buffer[..], was, content, done, data[..chunk]);
      CopyBytes(buffer, done, data[..chunk]);
      done' := done + chunk;
    }

    method CopyBytes(buffer: array<Byte>, at: nat, data: seq<Byte>)
      requires at + |data| <= buffer.Length
      modifies buffer
      ensures buffer[..] == old(buffer[..])[..at] + data + old(buffer[..])[at + |data|..]
    {
      ghost var buf := buffer[..];
      for b := 0 to |data|
        invariant buffer[..] == buf[..at] + data[..b] + buf[at + b..]
      {
        buffer[at + b] := data[b];
      }
      assert data[..|data|] == data;
    }

    /** The sectors of cluster k of a file, as far as they are wanted. */
    method ReadCluster(cluster: nat, buffer: array<Byte>, toRead: nat, start: nat,
                       ghost f: File, ghost k: nat, ghost was: seq<Byte>) returns (ok: bool, done: nat)
      requires Valid() && f.Of(disk.sectors, geo) && ValidCluster(geo, cluster)
               && cluster == Nth(disk.sectors, geo, f.first, k)
      requires start == Place(geo, k) < toRead == |f.content| <= buffer.Length
      requires Copied(buffer[..], was, f.content, start)
      modifies disk, buffer
      ensures Asked(geo, old(disk.requested), disk.requested) && disk.faults >= old(disk.faults)
      ensures done <= toRead && Copied(buffer[..], was, f.content, done)
      ensures if ok then done == Min(Place(geo, k + 1), toRead) && disk.faults == old(disk.faults)
              else disk.faults > old(disk.faults)
    {
      ok, done := true, start;
      var s := 0;
      while s < geo.spc && done < toRead
        invariant s <= geo.spc && done == Min(start + SECTOR * s, toRead) && ok
        invariant Asked(geo, old(disk.requested), disk.requested) && disk.faults == old(disk.faults)
        invariant Copied(buffer[..], was, f.content, done)
      {
        assert f.Held(disk.sectors, geo, k, s);
        ClusterInside(geo, cluster, s);
        ok, done := ReadInto(ClusterLba(geo, cluster, s), buffer, done, toRead, f.content, was);
        if !ok { return; }
        s := s + 1;
      }
    }

    /** The link from cluster k of a chain to the next. */
    method Follow(cluster: nat, ghost first: nat, ghost k: nat) returns (next: nat)
      requires Valid() && ValidCluster(geo, cluster) && cluster == Nth(disk.sectors, geo, first, k)
      modifies `fatCache, `fatCacheSector, disk
      ensures Valid() && Asked(geo, old(disk.requested), disk.requested) && disk.faults >= old(disk.faults)
      ensures if disk.faults == old(disk.faults) then next == Nth(disk.sectors, geo, first, k + 1) else next == ERROR
      ensures next != 0 && next != ERROR ==> ValidCluster(geo, next)
    {
      EntryInside(geo, cluster);
      next := NextCluster(cluster);
    }

    /** One cluster of a file, and the link to the next if more is wanted. */
    method ReadStep(cluster: nat, buffer: array<Byte>, toRead: nat, start: nat,
                    ghost f: File, ghost k: nat, ghost was: seq<Byte>) returns (ok: bool, done: nat, next: nat)
      requires Valid() && f.Of(disk.sectors, geo) && ValidCluster(geo, cluster)
               && cluster == Nth(disk.sectors, geo, f.first, k)
      requires start == Place(geo, k) < toRead == |f.content| <= buffer.Length
      requires Copied(buffer[..], was, f.content, start)
      modifies `fatCache, `fatCacheSector, disk, buffer
      ensures Valid() && Asked(geo, old(disk.requested), disk.requested) && disk.faults >= old(disk.faults)
      ensures done <= toRead && Copied(buffer[..], was, f.content, done)
      ensures ok ==> disk.faults == old(disk.faults) && done == Min(Place(geo, k + 1), toRead)
      ensures ok && done < toRead ==> next == Nth(disk.sectors, geo, f.first, k + 1) && ValidCluster(geo, next)
      ensures !ok && disk.faults == old(disk.faults) ==>
                Place(geo, k + 1) < toRead && !ValidCluster(geo, Nth(disk.sectors, geo, f.first, k + 1))
    {
      next := 0;
      ok, done := ReadCluster(cluster, buffer, toRead, start, f, k, was);
      if !ok || done >= toRead { return; }
      next := Follow(cluster, f.first, k);
      ok := next != 0 && next != ERROR;
    }

    method ReadClusters(first: nat, buffer: array<Byte>, toRead: nat, ghost f: File)
      returns (ok: bool, bytesRead: nat, ghost done: nat)
      requires Valid() && f.Of(disk.sectors, geo) && first == f.first && toRead == |f.content| <= buffer.Length
      modifies `fatCache, `fatCacheSector, disk, buffer
      ensures Valid() && Asked(geo, old(disk.requested), disk.requested) && disk.faults >= old(disk.faults)
      ensures done <= toRead && Copied(buffer[..], old(buffer[..]), f.content, done)
      ensures if ok then bytesRead == done == toRead && disk.faults == old(disk.faults)
              else bytesRead == done || (bytesRead == 0 && done == Place(geo, geo.clusters))
      ensures disk.faults == old(disk.faults) ==> (ok <==> Covered(disk.sectors, geo, first, toRead))
    {
      ghost var was := buffer[..];
      var cluster, k, got := first, 0, 0;
      ok, bytesRead, done := true, 0, 0;
      while got < toRead
        invariant got == done == Min(Place(geo, k), toRead) && k <= geo.clusters && ok
        invariant Valid() && (got < toRead ==> cluster == Nth(disk.sectors, geo, first, k))
        invariant ValidTo(disk.sectors, geo, first, k) && (0 < k && got < toRead ==> ValidCluster(geo, cluster))
        invariant Asked(geo, old(disk.requested), disk.requested) && disk.faults == old(disk.faults)
        invariant Copied(buffer[..], was, f.content, got)
        decreases geo.clusters - k
      {
        if !(2 <= cluster < geo.clusters + 2) || k + 1 > geo.clusters {
          TooShort(disk.sectors, geo, first, toRead, k);
          return false, 0, done;
        }
        ok, got, cluster := ReadStep(cluster, buffer, toRead, got, f, k, was);
        k, done := k + 1, got;
        if !ok {
          if disk.faults == old(disk.faults) { TooShort(disk.sectors, geo, first, toRead, k); }
          return false, got, done;
        }
      }
      bytesRead := got;
      AllCovered(disk.sectors, geo, first, toRead, k);
    }

    /** The loop of read: a file of `size` bytes from the cluster `first` on. On success the buffer
        holds its first bytes; without a disk fault it fails exactly if the chain is too short. The
        count is that of the bytes copied, but 0 where the step bound trips. Every sector asked for
        lies in the volume. */
    method ReadChain(first: nat, size: nat, buffer: array<Byte>) returns (ok: bool, bytesRead: nat, ghost done: nat)
      requires Valid()
      modifies `fatCache, `fatCacheSector, disk, buffer
      ensures Valid() && Asked(geo, old(disk.requested), disk.requested) && disk.faults >= old(disk.faults)
      ensures var toRead := Min(size, buffer.Length);
              && done <= toRead && Copied(buffer[..], old(buffer[..]), Content(disk.sectors, geo, first, toRead), done)
              && (if ok then bytesRead == done == toRead && disk.faults == old(disk.faults)
                  else bytesRead == done || (bytesRead == 0 && done == Place(geo, geo.clusters)))
              && (disk.faults == old(disk.faults) ==> (ok <==> Covered(disk.sectors, geo, first, toRead)))
    {
      var toRead := Min(size, buffer.Length);
      ghost var f := File(first, Content(disk.sectors, geo, first, toRead));
      FileIs(disk.sectors, geo, f);
      ok, bytesRead, done := ReadClusters(first, buffer, toRead, f);
    }
  }

  /** A file on the volume: where its chain starts, and its bytes as far as they are wanted. */
  datatype File = File(first: nat, content: seq<Byte>)
  {
    /** If sector t of cluster k exists, it holds the bytes at its place. */
    predicate Held(s: Sectors, g: Geometry, k: nat, t: nat) {
      ValidCluster(g, Nth(s, g, first, k)) && t < g.spc && Place(g, k) + SECTOR * t < |content| ==>
        Holds(s, ClusterLba(g, Nth(s, g, first, k), t), content, Place(g, k) + SECTOR * t)
    }

    ghost predicate Of(s: Sectors, g: Geometry) {
      forall k: nat, t: nat {:trigger Held(s, g, k, t)} :: Held(s, g, k, t)
    }
  }

  lemma {:induction false} FileIs(s: Sectors, g: Geometry, f: File)
    requires g.spc > 0 && f.content == Content(s, g, f.first, |f.content|)
    ensures f.Of(s, g)
  {
    forall k: nat, t: nat ensures f.Held(s, g, k, t) {
      PlaceIs(g, k);
      if ValidCluster(g, Nth(s, g, f.first, k)) && t < g.spc && Place(g, k) + SECTOR * t < |f.content| {
        SectorHolds(s, g, f.first, |f.content|, k, t);
      }
    }
  }

  /** Only sectors of the volume were asked for. */
  ghost predicate Asked(g: Geometry, before: set<nat>, after: set<nat>) {
    forall l {:trigger l in after} | l in after :: l in before || InVolume(g, l)
  }

  /** Where in a file cluster k begins. */
  function Place(g: Geometry, k: nat): nat {
    if k == 0 then 0 else Place(g, k - 1) + SECTOR * g.spc
  }

  lemma {:induction false} PlaceIs(g: Geometry, k: nat)
    ensures Place(g, k) == SECTOR * (k * g.spc)
  {
    if k > 0 {
      PlaceIs(g, k - 1);
      assert k * g.spc == (k - 1) * g.spc + g.spc;
    }
  }

  /** The chain has a valid cluster for each of the first n bytes, and no more than there are. */
  ghost predicate Covered(s: Sectors, g: Geometry, first: nat, n: nat) {
    forall k: nat {:trigger Nth(s, g, first, k)} | Place(g, k) < n ::
        ValidCluster(g, Nth(s, g, first, k)) && k < g.clusters
  }

  /** The first n clusters of the chain are valid. */
  ghost predicate ValidTo(s: Sectors, g: Geometry, first: nat, n: nat) {
    forall k: nat {:trigger Nth(s, g, first, k)} | k < n :: ValidCluster(g, Nth(s, g, first, k))
  }

  lemma {:induction false} PlaceGrows(g: Geometry, j: nat, k: nat)
    requires j <= k
    ensures Place(g, j) <= Place(g, k)
    decreases k
  {
    if j < k { PlaceGrows(g, j, k - 1); }
  }

  lemma {:induction false} AllCovered(s: Sectors, g: Geometry, first: nat, n: nat, k: nat)
    requires n <= Place(g, k) && k <= g.clusters && ValidTo(s, g, first, k)
    ensures Covered(s, g, first, n)
  {
    forall j: nat | Place(g, j) < n ensures ValidCluster(g, Nth(s, g, first, j)) && j < g.clusters {
      if j >= k { PlaceGrows(g, k, j); }
    }
  }

  lemma {:induction false} TooShort(s: Sectors, g: Geometry, first: nat, n: nat, k: nat)
    requires Place(g, k) < n && (!ValidCluster(g, Nth(s, g, first, k)) || k >= g.clusters)
    ensures !Covered(s, g, first, n)
  {
  }

  /** The bytes of the sector are those of the content from an offset on. */
  predicate Holds(s: Sectors, l: nat, content: seq<Byte>, at: nat) {
    at < |content| && (l in s && |s[l]| == SECTOR ==>
      content[at..Min(at + SECTOR, |content|)] == s[l][..Min(SECTOR, |content| - at)])
  }

  /** The first n bytes of the buffer are those of the content, the rest as it was. */
  ghost predicate Copied(buf: seq<Byte>, was: seq<Byte>, content: seq<Byte>, n: nat) {
    n <= |content| && n <= |buf| == |was| && buf[..n] == content[..n] && buf[n..] == was[n..]
  }

  lemma {:induction false} CopiedMore(buf: seq<Byte>, was: seq<Byte>, content: seq<Byte>, n: nat, more: seq<Byte>)
    requires Copied(buf, was, content, n) && n + |more| <= |content| && n + |more| <= |buf|
    requires content[n..n + |more|] == more
    ensures Copied(buf[..n] + more + buf[n + |more|..], was, content, n + |more|)
  {
    var m := n + |more|;
    var buf' := buf[..n] + more + buf[m..];
    assert content[..m] == content[..n] + content[n..m];
    assert buf'[..m] == buf[..n] + more;
    assert buf'[m..] == buf[n..][|more|..] && was[m..] == was[n..][|more|..];
  }

  function Min(a: nat, b: nat): nat {
    if a < b then a else b
  }

  lemma {:induction false} SameSlice(a: seq<Byte>, at: nat, b: seq<Byte>, n: nat)
    requires at + n <= |a| && n <= |b| && forall i | 0 <= i < n :: a[at + i] == b[i]
    ensures a[at..at + n] == b[..n]
  {
  }

  /** Sector t of cluster k holds the bytes of the file from its place on. */
  lemma {:induction false} SectorHolds(s: Sectors, g: Geometry, first: nat, n: nat, k: nat, t: nat)
    requires g.spc > 0 && t < g.spc && SECTOR * (k * g.spc + t) < n && ValidCluster(g, Nth(s, g, first, k))
    ensures Holds(s, ClusterLba(g, Nth(s, g, first, k), t), Content(s, g, first, n), SECTOR * (k * g.spc + t))
  {
    var l, at, content := ClusterLba(g, Nth(s, g, first, k), t), SECTOR * (k * g.spc + t), Content(s, g, first, n);
    if l in s && |s[l]| == SECTOR {
      forall i | 0 <= i < Min(SECTOR, n - at) ensures content[at + i] == s[l][i] {
        SectorBytes(s, g, first, k, t, at + i);
      }
      SameSlice(content, at, s[l], Min(SECTOR, n - at));
    }
  }

  /** Which sector of which cluster holds byte i. */
  lemma {:induction false} SectorBytes(s: Sectors, g: Geometry, first: nat, k: nat, t: nat, i: nat)
    requires g.spc > 0 && t < g.spc && SECTOR * (k * g.spc + t) <= i < SECTOR * (k * g.spc + t) + SECTOR
    requires ValidCluster(g, Nth(s, g, first, k))
    requires var l := ClusterLba(g, Nth(s, g, first, k), t); l in s && |s[l]| == SECTOR
    ensures FileByte(s, g, first, i) == s[ClusterLba(g, Nth(s, g, first, k), t)][i - SECTOR * (k * g.spc + t)]
  {
    var n := k * g.spc + t;
    assert i / SECTOR == n && i % SECTOR == i - SECTOR * n;
    DivMod(k, g.spc, t);
  }

  lemma {:induction false} DivMod(k: nat, n: nat, t: nat)
    requires t < n
    ensures (k * n + t) / n == k && (k * n + t) % n == t
  {
    var x := k * n + t;
    var q, r := x / n, x % n;
    assert x == q * n + r;
    if q < k { MulRoom(q, k, n); }
    if k < q { MulRoom(k, q, n); }
  }

  // ----- the boot sector

  predicate PowerOfTwo8(x: nat) {
    x == 1 || x == 2 || x == 4 || x == 8 || x == 16 || x == 32 || x == 64 || x == 128
  }

  /** spc & (spc - 1) is zero for just these. */
  lemma {:induction false} PowerTrick8(x: bv8)
    ensures x != 0 && x & (x - 1) == 0
            <==> x == 1 || x == 2 || x == 4 || x == 8 || x == 16 || x == 32 || x == 64 || x == 128
  {
  }

  function BootGeometry(bs: seq<Byte>, lba: nat): Geometry
    requires |bs| == SECTOR && bs[13] > 0
  {
    var dataStart := Le(bs, 14, 2) + bs[16] * Le(bs, 36, 4);
    var total := Le(bs, 32, 4);
    Geometry(lba, total, bs[13], Le(bs, 14, 2), Le(bs, 36, 4), dataStart, Le(bs, 44, 4),
             if total < dataStart then 0 else (total - dataStart) / bs[13])
  }

  predicate HeaderOk(bs: seq<Byte>)
    requires |bs| == SECTOR
  {
    && bs[510] == 0x55 && bs[511] == 0xAA && Le(bs, 11, 2) == SECTOR && PowerOfTwo8(bs[13])
    && Le(bs, 17, 2) == 0 && Le(bs, 19, 2) == 0 && Le(bs, 22, 2) == 0 && Le(bs, 42, 2) == 0
    && Le(bs, 14, 2) > 0 && bs[16] > 0 && Le(bs, 36, 4) > 0
  }

  /** A plain FAT32 boot sector with 512-byte sectors. */
  predicate BootAccepted(bs: seq<Byte>, lba: nat)
    requires |bs| == SECTOR
  {
    HeaderOk(bs) &&
    var g := BootGeometry(bs, lba);
    && g.dataStart < g.total && 65525 <= g.clusters && g.clusters + 2 <= g.fatSectors * 128
    && 2 <= g.root < g.clusters + 2
  }

  predicate BootOk(s: Sectors, lba: nat) {
    lba in s && |s[lba]| == SECTOR && BootAccepted(s[lba], lba)
  }

  lemma {:induction false} LeBound(data: seq<Byte>, at: nat, n: nat)
    requires at + n <= |data|
    ensures Le(data, at, n) < Pow256(n)
    decreases n
  {
    if n > 0 { LeBound(data, at + 1, n - 1); }
  }

  lemma {:induction false} BootConsistent(bs: seq<Byte>, lba: nat)
    requires |bs| == SECTOR && BootAccepted(bs, lba)
    ensures GeometryOk(BootGeometry(bs, lba))
  {
    var g := BootGeometry(bs, lba);
    LeBound(bs, 32, 4);
    assert Pow256(4) == TWO_32;
    Quotient(g.total - g.dataStart, g.spc);
    assert bs[16] * g.fatSectors >= g.fatSectors by { Multiple(bs[16], g.fatSectors); }
  }

  lemma {:induction false} Quotient(x: nat, k: nat)
    requires k > 0
    ensures x / k * k <= x
  {
  }

  lemma {:induction false} Multiple(a: nat, b: nat)
    requires a > 0
    ensures a * b >= b
  {
  }
}
