/** tools/mkfat32.py and kernel/fat32.cpp together: directories as the tool writes them and the driver
    searches them, and volumes with files in the root directory. */
module FatFiles {
  import opened Bytes
  import opened FatModel
  import opened FatVolume
  import opened FatDirectory
  import opened FatBuilder
  import FatImage

  const ATTR_FILE: Byte := 0x20

  // ----- directory entries

  /** dir_entry of the tool. */
  function DirEntry(name: seq<Byte>, attr: Byte, first: nat, size: nat): (e: seq<Byte>)
    requires |name| == 11
    ensures |e| == ENTRY
  {
    name + [attr, 0, 0, 0, 0, 0x21, 0, 0x21, 0] + LeBytes(first / 0x1_0000 % 0x1_0000, 2)
    + [0, 0, 0x21, 0] + LeBytes(first % 0x1_0000, 2) + LeBytes(size, 4)
  }

  /** entry_cluster of the driver. */
  function EntryCluster(e: seq<Byte>): nat
    requires |e| == ENTRY
  {
    Le(e, 20, 2) * 0x1_0000 + Le(e, 26, 2)
  }

  function EntrySize(e: seq<Byte>): nat
    requires |e| == ENTRY
  {
    Le(e, 28, 4)
  }

  predicate IsDirectory(e: seq<Byte>)
    requires |e| == ENTRY
  {
    e[11] / 16 % 2 == 1
  }

  /** The driver reads from an entry what the tool put in. */
  lemma {:induction false} EntryRound(name: seq<Byte>, attr: Byte, first: nat, size: nat)
    requires |name| == 11 && first < TWO_32 && size < TWO_32
    ensures var e := DirEntry(name, attr, first, size);
            e[..11] == name && e[11] == attr && EntryCluster(e) == first && EntrySize(e) == size
  {
    var e := DirEntry(name, attr, first, size);
    var hi, lo := first / 0x1_0000 % 0x1_0000, first % 0x1_0000;
    assert Pow256(2) == 256 * Pow256(1) && Pow256(4) == 0x1_0000 * Pow256(2);
    FiveParts(name + [attr, 0, 0, 0, 0, 0x21, 0, 0x21, 0], LeBytes(hi, 2), [0, 0, 0x21, 0], LeBytes(lo, 2),
        LeBytes(size, 4));
    LeRound(e, 20, hi, 2);
    LeRound(e, 26, lo, 2);
    LeRound(e, 28, size, 4);
  }

  lemma {:induction false} FiveParts(a: seq<Byte>, b: seq<Byte>, c: seq<Byte>, d: seq<Byte>, f: seq<Byte>)
    ensures var e, n := a + b + c + d + f, |a| + |b| + |c|;
            e[|a|..|a| + |b|] == b && e[n..n + |d|] == d && e[n + |d|..] == f
  {
  }

  predicate AllEntries(entries: seq<seq<Byte>>) {
    forall i | 0 <= i < |entries| :: |entries[i]| == ENTRY
  }

  /** The entries one after the other, then zeros, in n sectors. */
  function DirContent(entries: seq<seq<Byte>>, n: nat): (r: seq<Byte>)
    requires AllEntries(entries)
    ensures |r| == SECTOR * n
  {
    seq<Byte>(SECTOR * n, (i: nat) requires AllEntries(entries) =>
      if i / ENTRY < |entries| then entries[i / ENTRY][i % ENTRY] else 0)
  }

  lemma {:induction false} InEntry(m: nat, i: nat)
    requires i < ENTRY
    ensures (ENTRY * m + i) / ENTRY == m && (ENTRY * m + i) % ENTRY == i
  {
  }

  /** Entry j of sector k of a directory is its entry 16 k + j. */
  lemma {:induction false} SectorEntry(entries: seq<seq<Byte>>, n: nat, k: nat, j: nat)
    requires AllEntries(entries) && k < n && j < 16
    ensures var m, e := 16 * k + j, EntryOf(Chunk(DirContent(entries, n), k), j);
            if m < |entries| then e == entries[m] else e[0] == 0x00
  {
    var dir, m := DirContent(entries, n), 16 * k + j;
    var e := EntryOf(Chunk(dir, k), j);
    forall i | 0 <= i < ENTRY ensures e[i] == if m < |entries| then entries[m][i] else 0 {
      InEntry(m, i);
      assert SECTOR * k + (ENTRY * j + i) == ENTRY * m + i < SECTOR * n;
      assert Chunk(dir, k)[ENTRY * j + i] == dir[ENTRY * m + i];
    }
  }

  // ----- looking up a name

  function ByName(name: seq<Byte>): Visit {
    (e: seq<Byte>) => |e| == ENTRY && e[..11] == name
  }

  lemma {:induction false} ScanMeans(data: seq<Byte>, i: nat, visit: Visit)
    requires |data| == SECTOR && i <= 16 && NothingBefore(data, visit, i)
    ensures Means(data, visit, ScanFrom(data, i, visit))
    decreases 16 - i
  {
    if i < 16 {
      var e := EntryOf(data, i);
      if e[0] != 0x00 && !Wanted(e, visit) { ScanMeans(data, i + 1, visit); }
    }
  }

  /** A directory on the volume: its chain, and its entries in the sectors of it. */
  ghost predicate OnDisk(s: Sectors, g: Geometry, chain: seq<nat>, entries: seq<seq<Byte>>) {
    && g.spc == 1 && AllEntries(entries) && |entries| <= 16 * |chain| && Distinct(chain) && chain != []
    && (forall k: nat {:trigger Nth(s, g, chain[0], k)} ::
          if k < |chain| then Nth(s, g, chain[0], k) == chain[k] && ValidCluster(g, chain[k])
              else Nth(s, g, chain[0], k) == 0)
    && (forall k: nat {:trigger chain[k]} | k < |chain| ::
          && chain[k] >= 2
          && var l := ClusterLba(g, chain[k], 0);
             l in s && s[l] == Chunk(DirContent(entries, |chain|), k))
  }

  /** Entries the driver shows: in use, with short names. */
  ghost predicate Named(entries: seq<seq<Byte>>)
    requires AllEntries(entries)
  {
    forall i | 0 <= i < |entries| :: entries[i][0] != 0x00 && entries[i][0] != 0xE5 && !Hidden(entries[i][11])
  }

  /** Entry w is the first with its name. */
  ghost predicate Leads(entries: seq<seq<Byte>>, w: nat)
    requires AllEntries(entries)
  {
    w < |entries| && forall i | 0 <= i < w :: entries[i][..11] != entries[w][..11]
  }

  lemma {:induction false} SectorMeans(s: Sectors, g: Geometry, chain: seq<nat>, entries: seq<seq<Byte>>, visit: Visit,
                                       k: nat)
    requires OnDisk(s, g, chain, entries) && k < |chain|
    ensures Means(Chunk(DirContent(entries, |chain|), k), visit, ScanAt(s, g, chain[0], visit, k, 0))
  {
    var data := Chunk(DirContent(entries, |chain|), k);
    assert Nth(s, g, chain[0], k) == chain[k];
    ScanMeans(data, 0, visit);
  }

  /** Entry j of sector k, to someone who looks for entry w of the directory, which is `e`. */
  predicate LooksAt(data: seq<Byte>, visit: Visit, k: nat, j: nat, w: nat, e: seq<Byte>)
    requires |data| == SECTOR && j < 16
  {
    && (EntryOf(data, j)[0] == 0x00 ==> 16 * k + j > w)
    && (EntryOf(data, j)[0] != 0x00 && Wanted(EntryOf(data, j), visit) && 16 * k + j <= w ==> EntryOf(data, j) == e)
    && (16 * k + j == w ==> Wanted(EntryOf(data, j), visit))
  }

  lemma {:induction false} SectorStops(data: seq<Byte>, visit: Visit, k: nat, w: nat, e: seq<Byte>, r: Scan)
    requires |data| == SECTOR && k <= w / 16 && Means(data, visit, r)
    requires forall j: nat | j < 16 :: LooksAt(data, visit, k, j, w, e)
    ensures r != EndMark && (r.Hit? ==> r.entry == e) && (k == w / 16 ==> r != More)
  {
    var jw := w % 16;
    assert LooksAt(data, visit, k, jw, w, e);
    match r
    case More =>
    case Hit(x) =>
      var j: nat :| j < 16 && EntryOf(data, j) == x && x[0] != 0x00 && Wanted(x, visit)
          && NothingBefore(data, visit, j);
      assert LooksAt(data, visit, k, j, w, e) && 16 * k + j <= w;
    case EndMark =>
      var j: nat :| j < 16 && EntryOf(data, j)[0] == 0x00 && NothingBefore(data, visit, j);
      var looks := LooksAt(data, visit, k, j, w, e);
  }

  /** What a sector of the directory shows to someone who looks for entry w. */
  lemma {:induction false} EntryLooks(entries: seq<seq<Byte>>, n: nat, k: nat, w: nat, j: nat)
    requires AllEntries(entries) && Named(entries) && k < n && Leads(entries, w) && j < 16
    ensures LooksAt(Chunk(DirContent(entries, n), k), ByName(entries[w][..11]), k, j, w, entries[w])
  {
    SectorEntry(entries, n, k, j);
  }

  /** Up to sector kw the walk meets valid clusters and no end mark, and there at the latest `e`. */
  predicate StopsBy(s: Sectors, g: Geometry, dir: nat, visit: Visit, k: nat, kw: nat, e: seq<Byte>) {
    && ValidCluster(g, Nth(s, g, dir, k)) && ScanAt(s, g, dir, visit, k, 0) != EndMark
    && (ScanAt(s, g, dir, visit, k, 0).Hit? ==> ScanAt(s, g, dir, visit, k, 0).entry == e)
    && (k == kw ==> ScanAt(s, g, dir, visit, k, 0) != More)
  }

  lemma {:induction false} NotPast(s: Sectors, g: Geometry, dir: nat, visit: Visit, kw: nat, e: seq<Byte>, k: nat,
                                   t: nat)
    requires g.spc == 1 && StopsBy(s, g, dir, visit, kw, kw, e) && Passed(s, g, dir, visit, k, t)
    ensures k <= kw
  {
    var passed := PassedAt(s, g, dir, visit, kw, 0);
  }

  lemma {:induction false} Stopped(s: Sectors, g: Geometry, dir: nat, visit: Visit, kw: nat, e: seq<Byte>, k: nat,
                                   t: nat)
    requires g.spc == 1 && Passed(s, g, dir, visit, k, t)
    requires forall k: nat | k <= kw :: StopsBy(s, g, dir, visit, k, kw, e)
    ensures StopsBy(s, g, dir, visit, k, kw, e)
  {
    assert StopsBy(s, g, dir, visit, kw, kw, e);
    NotPast(s, g, dir, visit, kw, e, k, t);
  }

  lemma {:induction false} HitIs(s: Sectors, g: Geometry, dir: nat, visit: Visit, k: nat, t: nat, kw: nat, e: seq<Byte>,
                                 x: seq<Byte>)
    requires g.spc == 1 && StopsBy(s, g, dir, visit, k, kw, e) && StopsAt(s, g, dir, visit, k, t, Hit(x))
    ensures x == e
  {
  }

  lemma {:induction false} NoEnd(s: Sectors, g: Geometry, dir: nat, visit: Visit, k: nat, t: nat, kw: nat, e: seq<Byte>)
    requires g.spc == 1 && StopsBy(s, g, dir, visit, k, kw, e)
    ensures !StopsAt(s, g, dir, visit, k, t, EndMark) && !EndsAt(s, g, dir, visit, k)
  {
  }

  /** Then the walk finds `e`. */
  lemma {:induction false} WalkFinds(s: Sectors, g: Geometry, dir: nat, visit: Visit, kw: nat, e: seq<Byte>, r: Walked)
    requires g.spc == 1 && Outcome(s, g, dir, visit, r) && r != Failed
    requires forall k: nat | k <= kw :: StopsBy(s, g, dir, visit, k, kw, e)
    ensures r == Found(e)
  {
    if r.Found? {
      var k: nat, t: nat :| StopsAt(s, g, dir, visit, k, t, Hit(r.entry));
      Stopped(s, g, dir, visit, kw, e, k, t);
      HitIs(s, g, dir, visit, k, t, kw, e, r.entry);
    } else {
      NotAbsent(s, g, dir, visit, kw, e);
    }
  }

  lemma {:induction false} NotAbsent(s: Sectors, g: Geometry, dir: nat, visit: Visit, kw: nat, e: seq<Byte>)
    requires g.spc == 1 && forall k: nat | k <= kw :: StopsBy(s, g, dir, visit, k, kw, e)
    ensures !Outcome(s, g, dir, visit, Absent)
  {
    forall k: nat, t: nat ensures !StopsAt(s, g, dir, visit, k, t, EndMark) {
      if Passed(s, g, dir, visit, k, t) {
        Stopped(s, g, dir, visit, kw, e, k, t);
        NoEnd(s, g, dir, visit, k, t, kw, e);
      }
    }
    forall k: nat ensures !EndsAt(s, g, dir, visit, k) {
      if Passed(s, g, dir, visit, k, 0) {
        Stopped(s, g, dir, visit, kw, e, k, 0);
        NoEnd(s, g, dir, visit, k, 0, kw, e);
      }
    }
  }

  lemma {:induction false} DirectoryStops(s: Sectors, g: Geometry, chain: seq<nat>, entries: seq<seq<Byte>>, w: nat,
                                          k: nat)
    requires OnDisk(s, g, chain, entries) && Named(entries) && Leads(entries, w) && k <= w / 16
    ensures StopsBy(s, g, chain[0], ByName(entries[w][..11]), k, w / 16, entries[w])
  {
    var visit, data := ByName(entries[w][..11]), Chunk(DirContent(entries, |chain|), k);
    assert k < |chain| && Nth(s, g, chain[0], k) == chain[k];
    SectorMeans(s, g, chain, entries, visit, k);
    forall j: nat | j < 16 ensures LooksAt(data, visit, k, j, w, entries[w]) {
      EntryLooks(entries, |chain|, k, w, j);
    }
    SectorStops(data, visit, k, w, entries[w], ScanAt(s, g, chain[0], visit, k, 0));
  }

  /** Without a disk fault the walk finds the first entry with the name. */
  lemma {:induction false} LookupFinds(s: Sectors, g: Geometry, chain: seq<nat>, entries: seq<seq<Byte>>, w: nat,
                                       r: Walked)
    requires OnDisk(s, g, chain, entries) && Named(entries) && Leads(entries, w)
    requires Outcome(s, g, chain[0], ByName(entries[w][..11]), r)
    ensures r == Found(entries[w])
  {
    var visit, kw := ByName(entries[w][..11]), w / 16;
    forall k: nat | k <= kw ensures StopsBy(s, g, chain[0], visit, k, kw, entries[w]) {
      DirectoryStops(s, g, chain, entries, w, k);
    }
    NeverFailed(s, g, chain, entries, visit);
    WalkFinds(s, g, chain[0], visit, kw, entries[w], r);
  }

  lemma {:induction false} NoRepeats(s: Sectors, g: Geometry, chain: seq<nat>, entries: seq<seq<Byte>>)
    requires OnDisk(s, g, chain, entries)
    ensures !Repeats(s, g, chain[0])
  {
    forall i: nat, j: nat | i < j ensures Nth(s, g, chain[0], j) == 0
        || Nth(s, g, chain[0], i) != Nth(s, g, chain[0], j) {
      assert j >= |chain| ==> Nth(s, g, chain[0], j) == 0;
    }
  }

  /** The chain of a directory neither breaks nor repeats. */
  lemma {:induction false} NeverFailed(s: Sectors, g: Geometry, chain: seq<nat>, entries: seq<seq<Byte>>, visit: Visit)
    requires OnDisk(s, g, chain, entries)
    ensures !Outcome(s, g, chain[0], visit, Failed)
  {
    NoRepeats(s, g, chain, entries);
    forall k: nat ensures !BreaksAt(s, g, chain[0], visit, k) {
      var c := Nth(s, g, chain[0], k);
    }
  }

  lemma {:induction false} NoHit(s: Sectors, g: Geometry, chain: seq<nat>, entries: seq<seq<Byte>>, name: seq<Byte>,
                                 k: nat)
    requires OnDisk(s, g, chain, entries) && forall i | 0 <= i < |entries| :: entries[i][..11] != name
    ensures Misses(s, g, chain[0], ByName(name), k)
  {
    if k < |chain| {
      var data, visit := Chunk(DirContent(entries, |chain|), k), ByName(name);
      SectorMeans(s, g, chain, entries, visit, k);
      forall j: nat | j < 16 ensures EntryOf(data, j)[0] == 0x00 || !Wanted(EntryOf(data, j), visit) {
        SectorEntry(entries, |chain|, k, j);
      }
    } else {
      assert Nth(s, g, chain[0], k) == 0;
    }
  }

  predicate Misses(s: Sectors, g: Geometry, dir: nat, visit: Visit, k: nat) {
    !ScanAt(s, g, dir, visit, k, 0).Hit?
  }

  lemma {:induction false} MissesAll(s: Sectors, g: Geometry, dir: nat, visit: Visit, k: nat, t: nat, e: seq<Byte>)
    requires g.spc == 1 && Misses(s, g, dir, visit, k)
    ensures !StopsAt(s, g, dir, visit, k, t, Hit(e))
  {
  }

  lemma {:induction false} NeverStops(s: Sectors, g: Geometry, dir: nat, visit: Visit, e: seq<Byte>)
    requires forall k: nat, t: nat :: !StopsAt(s, g, dir, visit, k, t, Hit(e))
    ensures !Outcome(s, g, dir, visit, Found(e))
  {
  }

  lemma {:induction false} NeverFound(s: Sectors, g: Geometry, chain: seq<nat>, entries: seq<seq<Byte>>,
                                      name: seq<Byte>, e: seq<Byte>)
    requires OnDisk(s, g, chain, entries) && forall i | 0 <= i < |entries| :: entries[i][..11] != name
    ensures !Outcome(s, g, chain[0], ByName(name), Found(e))
  {
    forall k: nat, t: nat ensures !StopsAt(s, g, chain[0], ByName(name), k, t, Hit(e)) {
      NoHit(s, g, chain, entries, name, k);
      MissesAll(s, g, chain[0], ByName(name), k, t, e);
    }
    NeverStops(s, g, chain[0], ByName(name), e);
  }

  /** A name no entry has is not found, and that is no failure. */
  lemma {:induction false} LookupAbsent(s: Sectors, g: Geometry, chain: seq<nat>, entries: seq<seq<Byte>>,
                                        name: seq<Byte>,
                                        r: Walked)
    requires OnDisk(s, g, chain, entries) && forall i | 0 <= i < |entries| :: entries[i][..11] != name
    requires Outcome(s, g, chain[0], ByName(name), r)
    ensures r == Absent
  {
    match r
    case Absent =>
    case Found(e) => NeverFound(s, g, chain, entries, name, e);
    case Failed => NeverFailed(s, g, chain, entries, ByName(name));
  }

  // ----- the directory the tool builds, as the driver finds it

  lemma {:induction false} PastTheEnd(s: Sectors, g: Geometry, fat: seq<nat>, data: map<nat, seq<Byte>>,
                                      chain: seq<nat>, k: nat)
    requires FatImage.Shows(s, g, fat, data) && Chained(fat, chain) && Distinct(chain) && chain != []
             && g.clusters <= MAX_CLUSTERS
    requires (forall i | 0 <= i < |chain| :: ValidCluster(g, chain[i])) && k >= |chain|
    ensures Nth(s, g, chain[0], k) == 0
    decreases k
  {
    if k > |chain| {
      PastTheEnd(s, g, fat, data, chain, k - 1);
    } else {
      FatImage.ChainRead(s, g, fat, data, chain, k - 1);
      assert LinkAt(fat, chain, k - 1);
      assert FatEntry(s, g, chain[k - 1]) == END;
    }
  }

  /** A builder whose first chain is a directory, and the image it writes. */
  ghost predicate HasRoot(b: Builder, entries: seq<seq<Byte>>)
    reads b
  {
    && b.Valid() && AllEntries(entries) && b.chains != [] && |entries| <= 16 * |b.chains[0]|
    && 0 in b.contents && b.contents[0] == DirContent(entries, |b.chains[0]|)
  }

  lemma {:induction false} RootOnDisk(b: Builder, g: Geometry, boot: seq<Byte>, info: seq<Byte>,
                                      entries: seq<seq<Byte>>)
    requires HasRoot(b, entries) && g.clusters == b.clusters
    requires GeometryOk(g) && Sane(g) && g.spc == 1 && g.reserved > 6
    ensures OnDisk(FatImage.ImageOf(g, boot, info, b.fat, b.data), g, b.chains[0], entries)
  {
    var s, chain, f := FatImage.ImageOf(g, boot, info, b.fat, b.data), b.chains[0], Stored(b.chains[0], b.contents[0]);
    FatImage.ImageShows(g, boot, info, b.fat, b.data);
    FatImage.ChainValid(b, g, 0);
    forall k: nat
      ensures if k < |chain| then Nth(s, g, chain[0], k) == chain[k] && ValidCluster(g, chain[k])
              else Nth(s, g, chain[0], k) == 0
    {
      if k < |chain| {
        FatImage.ChainRead(s, g, b.fat, b.data, chain, k);
      } else {
        PastTheEnd(s, g, b.fat, b.data, chain, k);
      }
    }
    assert InPlace(b.fat, b.data, f);
    forall k: nat | k < |chain|
      ensures chain[k] >= 2 && var l := ClusterLba(g, chain[k], 0); l in s && s[l] == Chunk(f.content, k)
    {
      assert FilledAt(b.data, f, k) && ValidCluster(g, chain[k]) && chain[k] in b.data;
    }
  }

  // ----- building

  function RootClusters(n: nat): nat {
    (n + 2) * ENTRY / SECTOR + 1
  }

  /** The clusters the files take; an empty file takes none. */
  function Need(contents: seq<seq<Byte>>): nat {
    if contents == [] then 0
    else
      var n := |contents| - 1;
      Need(contents[..n]) + if contents[n] == [] then 0 else ClustersFor(contents[n])
  }

  /** The builder holds the content in the chain that starts at `first`. */
  predicate HasFile(chains: seq<seq<nat>>, stored: map<nat, seq<Byte>>, content: seq<Byte>, first: nat, id: nat) {
    if content == [] then first == 0
    else 0 < id < |chains| && chains[id] != [] && chains[id][0] == first && id in stored && stored[id] == content
  }

  ghost predicate HasFiles(chains: seq<seq<nat>>, stored: map<nat, seq<Byte>>, contents: seq<seq<Byte>>,
                           firsts: seq<nat>, ids: seq<nat>) {
    && |firsts| == |ids| == |contents|
    && forall i | 0 <= i < |contents| :: HasFile(chains, stored, contents[i], firsts[i], ids[i])
  }

  lemma {:induction false} FilesKept(chains: seq<seq<nat>>, stored: map<nat, seq<Byte>>, chains': seq<seq<nat>>,
                                     stored': map<nat, seq<Byte>>, contents: seq<seq<Byte>>, firsts: seq<nat>,
                                     ids: seq<nat>)
    requires HasFiles(chains, stored, contents, firsts, ids) && |chains| <= |chains'| && chains'[..|chains|] == chains
    requires forall i | i in stored && i > 0 :: i in stored' && stored'[i] == stored[i]
    ensures HasFiles(chains', stored', contents, firsts, ids)
  {
    forall i | 0 <= i < |contents| ensures HasFile(chains', stored', contents[i], firsts[i], ids[i]) {
      assert HasFile(chains, stored, contents[i], firsts[i], ids[i]);
      if contents[i] != [] { assert chains'[ids[i]] == chains'[..|chains|][ids[i]]; }
    }
  }

  /** The first n files are stored, behind the directory's chain. */
  ghost predicate StoredSofar(b: Builder, root: seq<nat>, start: nat, contents: seq<seq<Byte>>, n: nat,
                              firsts: seq<nat>, ids: seq<nat>)
    requires n <= |contents|
    reads b
  {
    && b.Valid() && b.chains != [] && b.chains[0] == root && b.cursor == start + Need(contents[..n])
    && HasFiles(b.chains, b.contents, contents[..n], firsts, ids)
  }

  /** One file of the root directory; an empty one takes no cluster. */
  method StoreFile(b: Builder, contents: seq<seq<Byte>>, n: nat, firsts: seq<nat>, ghost ids: seq<nat>,
                   ghost root: seq<nat>, ghost start: nat)
    returns (ok: bool, first: nat, ghost id: nat)
    requires n < |contents| && StoredSofar(b, root, start, contents, n, firsts, ids)
    modifies b`fat, b`cursor, b`data, b`chains, b`contents
    ensures b.Valid() && b.chains != [] && b.chains[0] == root
    ensures ok <==> start + Need(contents[..n + 1]) <= |b.free|
    ensures ok ==> StoredSofar(b, root, start, contents, n + 1, firsts + [first], ids + [id])
  {
    ghost var chains, stored := b.chains, b.contents;
    id := |chains|;
    NeedNext(contents, n);
    if contents[n] == [] {
      ok, first := true, 0;
    } else {
      ok, first := b.Store(contents[n]);
      if !ok { return; }
      FilesKept(chains, stored, b.chains, b.contents, contents[..n], firsts, ids);
    }
    FilesGrow(b.chains, b.contents, contents, n, firsts, ids, first, id);
  }

  lemma {:induction false} FilesGrow(chains: seq<seq<nat>>, stored: map<nat, seq<Byte>>, contents: seq<seq<Byte>>,
                                     n: nat,
                                     firsts: seq<nat>, ids: seq<nat>, first: nat, id: nat)
    requires n < |contents| && HasFiles(chains, stored, contents[..n], firsts, ids)
    requires HasFile(chains, stored, contents[n], first, id)
    ensures HasFiles(chains, stored, contents[..n + 1], firsts + [first], ids + [id])
  {
    forall i | 0 <= i < n + 1
      ensures HasFile(chains, stored, contents[..n + 1][i], (firsts + [first])[i], (ids + [id])[i])
    {
      if i < n { assert HasFile(chains, stored, contents[..n][i], firsts[i], ids[i]); }
    }
  }

  lemma {:induction false} NeedNext(contents: seq<seq<Byte>>, n: nat)
    requires n < |contents|
    ensures Need(contents[..n + 1]) == Need(contents[..n]) + if contents[n] == [] then 0 else ClustersFor(contents[n])
  {
    assert contents[..n + 1][..n] == contents[..n];
  }

  /** The files of the root directory, one after the other. */
  method StoreFiles(b: Builder, contents: seq<seq<Byte>>) returns (ok: bool, firsts: seq<nat>, ghost ids: seq<nat>)
    requires b.Valid() && |b.chains| == 1
    modifies b`fat, b`cursor, b`data, b`chains, b`contents
    ensures b.Valid() && b.chains != [] && b.chains[0] == old(b.chains[0])
    ensures ok <==> old(b.cursor) + Need(contents) <= |b.free|
    ensures ok ==> HasFiles(b.chains, b.contents, contents, firsts, ids)
  {
    firsts, ids, ok := [], [], true;
    for n := 0 to |contents|
      invariant ok && StoredSofar(b, old(b.chains[0]), old(b.cursor), contents, n, firsts, ids)
    {
      var first;
      ghost var id;
      ok, first, id := StoreFile(b, contents, n, firsts, ids, old(b.chains[0]), old(b.cursor));
      NeedGrows(contents, n + 1);
      if !ok { return; }
      firsts, ids := firsts + [first], ids + [id];
    }
    assert contents[..|contents|] == contents;
  }

  lemma {:induction false} NeedGrows(contents: seq<seq<Byte>>, n: nat)
    requires n <= |contents|
    ensures Need(contents[..n]) <= Need(contents)
    decreases |contents| - n
  {
    if n < |contents| {
      NeedGrows(contents, n + 1);
      assert contents[..n + 1][..n] == contents[..n];
    } else {
      assert contents[..n] == contents;
    }
  }

  function Entries(names: seq<seq<Byte>>, firsts: seq<nat>, contents: seq<seq<Byte>>): (r: seq<seq<Byte>>)
    requires |names| == |firsts| == |contents| && forall i | 0 <= i < |names| :: |names[i]| == 11
    ensures |r| == |names| && AllEntries(r)
    ensures forall i | 0 <= i < |r| :: r[i] == DirEntry(names[i], ATTR_FILE, firsts[i], |contents[i]|)
  {
    seq<seq<Byte>>(|names|, (i: nat)
      requires i < |names| == |firsts| == |contents| && forall i | 0 <= i < |names| :: |names[i]| == 11 =>
      DirEntry(names[i], ATTR_FILE, firsts[i], |contents[i]|))
  }

  /** Short names as the tool makes them; it may make the same of two, as of "A" and "A.". */
  predicate GoodNames(names: seq<seq<Byte>>) {
    forall i | 0 <= i < |names| :: |names[i]| == 11 && names[i][0] != 0x00 && names[i][0] != 0xE5
  }

  /** The first with the same name. */
  function FirstNamed(names: seq<seq<Byte>>, w: nat): (i: nat)
    requires w < |names|
    ensures i <= w && names[i] == names[w] && forall j | 0 <= j < i :: names[j] != names[w]
  {
    FirstFrom(names, names[w], 0, w)
  }

  function FirstFrom(names: seq<seq<Byte>>, name: seq<Byte>, from: nat, w: nat): (i: nat)
    requires from <= w < |names| && names[w] == name && forall j | 0 <= j < from :: names[j] != name
    ensures from <= i <= w && names[i] == name && forall j | 0 <= j < i :: names[j] != name
    decreases w - from
  {
    if names[from] == name then from else FirstFrom(names, name, from + 1, w)
  }

  /** A new volume on which the root directory has its clusters. */
  method StartRoot(clusters: nat, fragment: bool, n: nat) returns (ok: bool, b: Builder, root: seq<nat>)
    requires 0 < clusters <= MAX_CLUSTERS && n > 0
    ensures fresh(b) && b.Valid() && b.clusters == clusters && |b.free| == clusters
    ensures ok <==> n <= clusters
    ensures ok ==> b.chains == [root] && |root| == n && root[0] == 2 && b.cursor == n
  {
    FreeListComplete(clusters, fragment);
    b := new Builder(clusters, FreeList(clusters, fragment));
    ok, root := b.Alloc(n);
    assert FreeList(clusters, fragment)[0] == 2;
  }

  /** A volume with files in its root directory: the directory's clusters come first and are
      filled last. It is built exactly if the clusters suffice. */
  method BuildRoot(clusters: nat, fragment: bool, names: seq<seq<Byte>>, contents: seq<seq<Byte>>)
    returns (ok: bool, b: Builder, firsts: seq<nat>, ghost ids: seq<nat>)
    requires 0 < clusters <= MAX_CLUSTERS && |names| == |contents| && GoodNames(names)
    ensures fresh(b) && b.Valid() && b.clusters == clusters
    ensures ok <==> RootClusters(|names|) + Need(contents) <= clusters
    ensures ok ==> HasFiles(b.chains, b.contents, contents, firsts, ids) && HasRoot(b, Entries(names, firsts, contents))
    ensures ok ==> b.chains[0][0] == 2
  {
    var root;
    ok, b, root := StartRoot(clusters, fragment, RootClusters(|names|));
    firsts, ids := [], [];
    if !ok { return; }
    ok, firsts, ids := StoreFiles(b, contents);
    if !ok { return; }
    var entries := Entries(names, firsts, contents);
    ghost var chains, stored := b.chains, b.contents;
    b.Fill(root, DirContent(entries, |root|), 0);
    FilesKept(chains, stored, b.chains, b.contents, contents, firsts, ids);
  }

  lemma {:induction false} EntriesNamed(names: seq<seq<Byte>>, firsts: seq<nat>, contents: seq<seq<Byte>>)
    requires |names| == |firsts| == |contents| && GoodNames(names)
    ensures var entries := Entries(names, firsts, contents);
            Named(entries) && forall i | 0 <= i < |names| :: entries[i][..11] == names[i] && entries[i][11] == ATTR_FILE
  {
    var entries := Entries(names, firsts, contents);
    forall i | 0 <= i < |names| ensures entries[i][..11] == names[i] && entries[i][11] == ATTR_FILE {
      assert entries[i] == DirEntry(names[i], ATTR_FILE, firsts[i], |contents[i]|);
      EntryHead(names[i], ATTR_FILE, firsts[i], |contents[i]|);
    }
    forall i | 0 <= i < |names| ensures entries[i][0] == names[i][0] { assert entries[i][..11][0] == names[i][0]; }
  }

  lemma {:induction false} EntryHead(name: seq<Byte>, attr: Byte, first: nat, size: nat)
    requires |name| == 11
    ensures DirEntry(name, attr, first, size)[..11] == name && DirEntry(name, attr, first, size)[11] == attr
  {
  }

  // ----- build and mount

  lemma {:induction false} ImageFull(g: Geometry, boot: seq<Byte>, info: seq<Byte>, fat: seq<nat>,
                                     data: map<nat, seq<Byte>>)
    requires |boot| == |info| == SECTOR && Full(data)
    ensures var s := FatImage.ImageOf(g, boot, info, fat, data); forall l | l in s :: |s[l]| == SECTOR
  {
  }

  /** What the driver needs to know of a file of the image. */
  lemma {:induction false} FileInImage(b: Builder, g: Geometry, boot: seq<Byte>, info: seq<Byte>, name: seq<Byte>,
                                       content: seq<Byte>, first: nat, id: nat)
    requires b.Valid() && HasFile(b.chains, b.contents, content, first, id) && g.clusters == b.clusters
    requires GeometryOk(g) && Sane(g) && g.spc == 1 && g.reserved > 6 && |name| == 11 && |content| < TWO_32
    ensures var s, e := FatImage.ImageOf(g, boot, info, b.fat, b.data), DirEntry(name, ATTR_FILE, first, |content|);
            && EntrySize(e) == |content| && Covered(s, g, EntryCluster(e), |content|)
            && Content(s, g, EntryCluster(e), |content|) == content
  {
    if content != [] {
      FatImage.ChainValid(b, g, id);
      FatImage.BuiltRoundTrip(b, g, boot, info, id);
    }
    EntryRound(name, ATTR_FILE, first, |content|);
  }

  /** What the driver finds in the image of a builder with a root directory. */
  ghost predicate Readable(s: Sectors, g: Geometry, chain: seq<nat>, entries: seq<seq<Byte>>, w: nat, name: seq<Byte>,
                           content: seq<Byte>)
  {
    && OnDisk(s, g, chain, entries) && Named(entries)
    && Leads(entries, w) && entries[w][..11] == name && !IsDirectory(entries[w]) && EntrySize(entries[w]) == |content|
    && Covered(s, g, EntryCluster(entries[w]), |content|)
    && Content(s, g, EntryCluster(entries[w]), |content|) == content
  }

  lemma {:induction false} BuiltReadable(b: Builder, g: Geometry, boot: seq<Byte>, info: seq<Byte>,
                                         names: seq<seq<Byte>>,
                                         contents: seq<seq<Byte>>, firsts: seq<nat>, ids: seq<nat>, w: nat)
    requires |names| == |contents| && GoodNames(names) && w < |names| && |contents[w]| < TWO_32
    requires forall i | 0 <= i < w :: names[i] != names[w]
    requires HasFiles(b.chains, b.contents, contents, firsts, ids) && HasRoot(b, Entries(names, firsts, contents))
    requires g.clusters == b.clusters && GeometryOk(g) && Sane(g) && g.spc == 1 && g.reserved > 6
    ensures var s := FatImage.ImageOf(g, boot, info, b.fat, b.data);
            Readable(s, g, b.chains[0], Entries(names, firsts, contents), w, names[w], contents[w])
  {
    EntriesNamed(names, firsts, contents);
    RootOnDisk(b, g, boot, info, Entries(names, firsts, contents));
    assert HasFile(b.chains, b.contents, contents[w], firsts[w], ids[w]);
    FileInImage(b, g, boot, info, names[w], contents[w], firsts[w], ids[w]);
  }

  /** An image of the tool is mounted unless the disk fails. */
  method MountImage(lba: nat, total: nat, rest: seq<Byte>, info: seq<Byte>, fat: seq<nat>, data: map<nat, seq<Byte>>)
    returns (ok: bool, v: Volume)
    requires FatImage.DataStart(total) + 65525 <= total < TWO_32 && lba + total <= TWO_32 && |rest| == 446
             && |info| == SECTOR
    requires total - FatImage.DataStart(total) <= MAX_CLUSTERS && Full(data)
    ensures fresh(v) && fresh(v.disk)
    ensures var g, boot := FatImage.Layout(lba, total, 2),
            FatImage.BootSector(total, FatImage.FatSectors(total), 2, rest);
            v.disk.sectors == FatImage.ImageOf(g, boot, info, fat, data) && (ok ==> v.Valid() && v.geo == g)
    ensures ok <==> v.disk.faults == 0
  {
    var g, boot := FatImage.Layout(lba, total, 2), FatImage.BootSector(total, FatImage.FatSectors(total), 2, rest);
    FatImage.LayoutOk(lba, total, 2);
    FatImage.ImageMounts(lba, total, 2, rest, info, fat, data);
    ImageFull(g, boot, info, fat, data);
    var disk := new Disk(FatImage.ImageOf(g, boot, info, fat, data));
    v := new Volume(disk);
    ok := v.Mount(lba);
  }
}
