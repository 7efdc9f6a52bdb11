/** resolve, file_size and read of kernel/fat32.cpp: a path is followed through directories, and the
    file at its end read; and the whole way of a file from tools/mkfat32.py back to its bytes. */
module FatPath {
  import opened Bytes
  import opened FatModel
  import opened FatVolume
  import opened FatDirectory
  import opened FatBuilder
  import opened FatNames
  import opened FatFiles
  import FatImage

  /** What a path leads to: the root, a directory or a file. */
  datatype Node = Node(first: nat, size: nat, isDir: bool)

  datatype Resolution = NotFound | At(node: Node)

  function RootNode(g: Geometry): Node {
    Node(g.root, 0, true)
  }

  /** The node of a directory entry; a directory at cluster 0 is the root. */
  function NodeOf(g: Geometry, e: seq<Byte>): Node
    requires |e| == ENTRY
  {
    Node(if IsDirectory(e) && EntryCluster(e) == 0 then g.root else EntryCluster(e), EntrySize(e), IsDirectory(e))
  }

  // ----- where a path leads

  /** From a node the first part of a path leads to another, or nowhere: the part is a name, the
      node a directory, and a walk of that directory finds the name. */
  ghost predicate StepsTo(s: Sectors, g: Geometry, part: seq<Byte>, from: Node, r: Resolution) {
    if !DriverAccepts(part) || !from.isDir then r == NotFound
    else exists w :: Outcome(s, g, from.first, ByName(Name11(part)), w) && r == Result(g, w)
  }

  function Result(g: Geometry, w: Walked): Resolution {
    if w.Found? && |w.entry| == ENTRY then At(NodeOf(g, w.entry)) else NotFound
  }

  /** Part after part. */
  ghost predicate Follows(s: Sectors, g: Geometry, parts: seq<seq<Byte>>, from: Node, r: Resolution)
    decreases |parts|
  {
    if parts == [] then r == At(from)
    else exists next ::
      StepsTo(s, g, parts[0], from, next) && if next.At? then Follows(s, g, parts[1..], next.node, r) else r == NotFound
  }

  lemma {:induction false} HitLength(data: seq<Byte>, i: nat, visit: Visit)
    requires |data| == SECTOR && i <= 16
    ensures var r := ScanFrom(data, i, visit); r.Hit? ==> |r.entry| == ENTRY
    decreases 16 - i
  {
    if i < 16 { HitLength(data, i + 1, visit); }
  }

  lemma {:induction false} FoundLength(s: Sectors, g: Geometry, dir: nat, visit: Visit, e: seq<Byte>)
    requires Outcome(s, g, dir, visit, Found(e))
    ensures |e| == ENTRY
  {
    var k: nat, t: nat :| StopsAt(s, g, dir, visit, k, t, Hit(e));
    var c := Nth(s, g, dir, k);
    if c >= 2 {
      var l := ClusterLba(g, c, t);
      if l in s && |s[l]| == SECTOR { HitLength(s[l], 0, visit); }
    }
  }

  lemma {:induction false} StepUnique(s: Sectors, g: Geometry, part: seq<Byte>, from: Node, r: Resolution,
                                      r': Resolution)
    requires StepsTo(s, g, part, from, r) && StepsTo(s, g, part, from, r') && g.spc > 0
    ensures r == r'
  {
    if DriverAccepts(part) && from.isDir {
      var w :| Outcome(s, g, from.first, ByName(Name11(part)), w) && r == Result(g, w);
      var w' :| Outcome(s, g, from.first, ByName(Name11(part)), w') && r' == Result(g, w');
      OutcomeUnique(s, g, from.first, ByName(Name11(part)), w, w');
    }
  }

  /** What the volume holds decides where a path leads. */
  lemma {:induction false} FollowsUnique(s: Sectors, g: Geometry, parts: seq<seq<Byte>>, from: Node, r: Resolution,
                                         r': Resolution)
    requires Follows(s, g, parts, from, r) && Follows(s, g, parts, from, r') && g.spc > 0
    ensures r == r'
    decreases |parts|
  {
    if parts != [] {
      var next :| StepsTo(s, g, parts[0], from, next)
        && if next.At? then Follows(s, g, parts[1..], next.node, r) else r == NotFound;
      var next' :| StepsTo(s, g, parts[0], from, next')
        && if next'.At? then Follows(s, g, parts[1..], next'.node, r') else r' == NotFound;
      StepUnique(s, g, parts[0], from, next, next');
      if next.At? { FollowsUnique(s, g, parts[1..], next.node, r, r'); }
    }
  }

  // ----- the driver

  /** One part of a path, in the directory at hand. */
  method Step(v: Volume, part: seq<Byte>, cur: Node) returns (r: Resolution)
    requires v.Valid()
    modifies v`fatCache, v`fatCacheSector, v.disk
    ensures v.Valid() && Asked(v.geo, old(v.disk.requested), v.disk.requested) && v.disk.faults >= old(v.disk.faults)
    ensures if v.disk.faults == old(v.disk.faults) then StepsTo(v.disk.sectors, v.geo, part, cur, r) else r == NotFound
  {
    var ok, want := ToShortName(part);
    if !ok || !cur.isDir { return NotFound; }
    var w := WalkDir(v, cur.first, ByName(want[..]));
    if !w.Found? { return NotFound; }
    FoundLength(v.disk.sectors, v.geo, cur.first, ByName(want[..]), w.entry);
    r := At(NodeOf(v.geo, w.entry));
  }

  method SkipSlashes(path: seq<Byte>, from: nat) returns (i: nat)
    requires from <= |path|
    ensures from <= i <= |path| && Parts(path[i..]) == Parts(path[from..]) && (i < |path| ==> path[i] != SLASH)
  {
    i := from;
    while i < |path| && path[i] == SLASH
      invariant from <= i <= |path| && forall j | from <= j < i :: path[j] == SLASH
    {
      i := i + 1;
    }
    PartsBehind(path, from, i);
  }

  method EndOfPart(path: seq<Byte>, from: nat) returns (i: nat)
    requires from < |path| && path[from] != SLASH
    ensures from < i <= |path| && Parts(path[from..]) == [path[from..i]] + Parts(path[i..])
  {
    i := from;
    while i < |path| && path[i] != SLASH
      invariant from <= i <= |path| && forall j | from <= j < i :: path[j] != SLASH
    {
      i := i + 1;
    }
    var p := path[from..];
    SlashesAre(p, 0);
    LengthIs(p, i - from);
    assert p[0..] == p && p[..i - from] == path[from..i] && p[i - from..] == path[i..];
  }

  /** resolve: without a disk fault the path leads where its parts do; with one, nowhere. */
  method Resolve(v: Volume, path: seq<Byte>) returns (r: Resolution)
    requires v.Valid()
    modifies v`fatCache, v`fatCacheSector, v.disk
    ensures v.Valid() && Asked(v.geo, old(v.disk.requested), v.disk.requested) && v.disk.faults >= old(v.disk.faults)
    ensures if v.disk.faults == old(v.disk.faults)
            then Follows(v.disk.sectors, v.geo, Parts(path), RootNode(v.geo), r) else r == NotFound
  {
    ghost var s, g := v.disk.sectors, v.geo;
    var i := SkipSlashes(path, 0);
    assert path[0..] == path;
    var cur := RootNode(v.geo);
    while i < |path|
      invariant i <= |path| && (i < |path| ==> path[i] != SLASH)
      invariant v.Valid() && v.geo == g && Asked(g, old(v.disk.requested), v.disk.requested)
      invariant v.disk.faults == old(v.disk.faults)
      invariant Continues(s, g, Parts(path), RootNode(g), Parts(path[i..]), cur)
      decreases |path| - i
    {
      var end := EndOfPart(path, i);
      r := Step(v, path[i..end], cur);
      if v.disk.faults == old(v.disk.faults) {
        ContinuesOn(s, g, Parts(path), RootNode(g), Parts(path[i..]), cur, r);
        assert Parts(path[i..])[1..] == Parts(path[end..]);
      }
      i := SkipSlashes(path, end);
      if r.NotFound? { return; }
      cur := r.node;
    }
    assert Parts(path[i..]) == [];
    r := At(cur);
  }

  /** What the rest of the parts leads to from `cur`, the whole path leads to. */
  ghost predicate Continues(s: Sectors, g: Geometry, all: seq<seq<Byte>>, root: Node, parts: seq<seq<Byte>>,
                            cur: Node)
  {
    forall r :: Follows(s, g, parts, cur, r) ==> Follows(s, g, all, root, r)
  }

  lemma {:induction false} ContinuesOn(s: Sectors, g: Geometry, all: seq<seq<Byte>>, root: Node, parts: seq<seq<Byte>>,
                                       cur: Node, next: Resolution)
    requires Continues(s, g, all, root, parts, cur) && parts != [] && StepsTo(s, g, parts[0], cur, next)
    ensures next.NotFound? ==> Follows(s, g, all, root, NotFound)
    ensures next.At? ==> Continues(s, g, all, root, parts[1..], next.node)
  {
    if next.NotFound? {
      assert Follows(s, g, parts, cur, NotFound);
    } else {
      forall r | Follows(s, g, parts[1..], next.node, r) ensures Follows(s, g, all, root, r) {
        assert Follows(s, g, parts, cur, r);
      }
    }
  }

  /** file_size. */
  method FileSize(v: Volume, path: seq<Byte>) returns (size: int, ghost r: Resolution)
    requires v.Valid()
    modifies v`fatCache, v`fatCacheSector, v.disk
    ensures v.Valid() && v.disk.faults >= old(v.disk.faults)
    ensures if v.disk.faults == old(v.disk.faults)
            then Follows(v.disk.sectors, v.geo, Parts(path), RootNode(v.geo), r) else r == NotFound
    ensures size == if r.At? && !r.node.isDir then r.node.size else -1
  {
    var f := Resolve(v, path);
    r := f;
    if f.NotFound? || f.node.isDir { return -1, r; }
    size := f.node.size;
  }

  /** read: without a disk fault it succeeds exactly if the path leads to a file whose chain is long
      enough for the bytes wanted, and delivers them. */
  method Read(v: Volume, path: seq<Byte>, buffer: array<Byte>) returns (ok: bool, n: nat, ghost r: Resolution)
    requires v.Valid()
    modifies v`fatCache, v`fatCacheSector, v.disk, buffer
    ensures v.Valid() && Asked(v.geo, old(v.disk.requested), v.disk.requested) && v.disk.faults >= old(v.disk.faults)
    ensures v.disk.faults == old(v.disk.faults) ==>
            Follows(v.disk.sectors, v.geo, Parts(path), RootNode(v.geo), r)
            && (ok <==> IsFile(v.disk.sectors, v.geo, r, buffer.Length))
    ensures ok ==> v.disk.faults == old(v.disk.faults) && n == Min(r.node.size, buffer.Length)
                   && buffer[..n] == Content(v.disk.sectors, v.geo, r.node.first, n) && buffer[n..] == old(buffer[n..])
  {
    var f := Resolve(v, path);
    r := f;
    if f.NotFound? || f.node.isDir { return false, 0, r; }
    ghost var done;
    ok, n, done := v.ReadChain(f.node.first, f.node.size, buffer);
  }

  /** A file with a chain long enough for what fits the buffer. */
  ghost predicate IsFile(s: Sectors, g: Geometry, r: Resolution, capacity: nat) {
    r.At? && !r.node.isDir && Covered(s, g, r.node.first, Min(r.node.size, capacity))
  }

  // ----- through directories as the tool lays them out

  /** A directory: its clusters and its entries. */
  datatype Dir = Dir(chain: seq<nat>, entries: seq<seq<Byte>>)

  /** Entry w of the directory is the first with the name. */
  ghost predicate Has(s: Sectors, g: Geometry, d: Dir, w: nat, part: seq<Byte>) {
    && OnDisk(s, g, d.chain, d.entries) && Named(d.entries) && Leads(d.entries, w)
    && DriverAccepts(part) && d.entries[w][..11] == Name11(part)
  }

  /** A way along the parts: each names an entry of a directory, which is the next directory. */
  ghost predicate Way(s: Sectors, g: Geometry, parts: seq<seq<Byte>>, from: Node, ds: seq<Dir>, ws: seq<nat>)
    decreases |parts|
  {
    && |ds| == |ws| == |parts|
    && (parts != [] ==>
          && from.isDir && Has(s, g, ds[0], ws[0], parts[0]) && ds[0].chain[0] == from.first
          && Way(s, g, parts[1..], NodeOf(g, ds[0].entries[ws[0]]), ds[1..], ws[1..]))
  }

  /** The node at its end. */
  ghost function WayEnd(s: Sectors, g: Geometry, parts: seq<seq<Byte>>, from: Node, ds: seq<Dir>, ws: seq<nat>): Node
    requires Way(s, g, parts, from, ds, ws)
    decreases |parts|
  {
    if parts == [] then from
    else WayEnd(s, g, parts[1..], NodeOf(g, ds[0].entries[ws[0]]), ds[1..], ws[1..])
  }

  /** Along such a way a path leads to its end, and nowhere else. */
  lemma {:induction false} WayFollowed(s: Sectors, g: Geometry, parts: seq<seq<Byte>>, from: Node, ds: seq<Dir>,
                                       ws: seq<nat>, r: Resolution)
    requires Way(s, g, parts, from, ds, ws) && Follows(s, g, parts, from, r)
    ensures r == At(WayEnd(s, g, parts, from, ds, ws))
    decreases |parts|
  {
    if parts != [] {
      var next :| StepsTo(s, g, parts[0], from, next)
        && if next.At? then Follows(s, g, parts[1..], next.node, r) else r == NotFound;
      StepFinds(s, g, parts[0], from, ds[0], ws[0], next);
      WayFollowed(s, g, parts[1..], next.node, ds[1..], ws[1..], r);
    }
  }

  lemma {:induction false} StepFinds(s: Sectors, g: Geometry, part: seq<Byte>, from: Node, d: Dir, w: nat,
                                     r: Resolution)
    requires from.isDir && Has(s, g, d, w, part) && d.chain[0] == from.first && StepsTo(s, g, part, from, r)
    ensures r == At(NodeOf(g, d.entries[w]))
  {
    var walked :| Outcome(s, g, from.first, ByName(Name11(part)), walked) && r == Result(g, walked);
    LookupFinds(s, g, d.chain, d.entries, w, walked);
  }

  /** A name the directory does not have leads nowhere. */
  lemma {:induction false} StepMisses(s: Sectors, g: Geometry, part: seq<Byte>, from: Node, d: Dir, r: Resolution)
    requires OnDisk(s, g, d.chain, d.entries) && d.chain[0] == from.first && StepsTo(s, g, part, from, r)
    requires forall i | 0 <= i < |d.entries| :: d.entries[i][..11] != Name11(part)
    ensures r == NotFound
  {
    if DriverAccepts(part) && from.isDir {
      var walked :| Outcome(s, g, from.first, ByName(Name11(part)), walked) && r == Result(g, walked);
      LookupAbsent(s, g, d.chain, d.entries, Name11(part), walked);
    }
  }

  // ----- from the tool to the driver

  /** The names of files as the tool is given them: 8.3 names in ASCII. */
  predicate ToolNames(dests: seq<seq<Byte>>) {
    forall i | 0 <= i < |dests| :: ToolAccepts(dests[i]) && forall j | 0 <= j < |dests[i]| :: 0 < dests[i][j] < 128
  }

  function Names(dests: seq<seq<Byte>>): (r: seq<seq<Byte>>)
    ensures |r| == |dests| && forall i | 0 <= i < |dests| :: r[i] == Name11(dests[i])
  {
    seq(|dests|, i requires 0 <= i < |dests| => Name11(dests[i]))
  }

  lemma {:induction false} NamesGood(dests: seq<seq<Byte>>)
    requires ToolNames(dests)
    ensures GoodNames(Names(dests))
  {
    forall i | 0 <= i < |dests| ensures Name11(dests[i])[0] != 0x00 && Name11(dests[i])[0] != 0xE5 {
      assert Base(dests[i])[0] == dests[i][0] && Name11(dests[i])[0] == Upper(dests[i][0]);
    }
  }

  /** A file in the root directory is on a way of one step. */
  lemma {:induction false} RootWay(s: Sectors, g: Geometry, chain: seq<nat>, entries: seq<seq<Byte>>, w: nat,
                                   part: seq<Byte>, content: seq<Byte>, r: Resolution)
    requires Readable(s, g, chain, entries, w, Name11(part), content) && DriverAccepts(part) && g.root == chain[0]
    requires Follows(s, g, [part], RootNode(g), r)
    ensures r == At(Node(EntryCluster(entries[w]), |content|, false))
  {
    var ds, ws := [Dir(chain, entries)], [w];
    assert Way(s, g, [], NodeOf(g, entries[w]), [], []);
    assert [part][1..] == [] && ds[1..] == [] && ws[1..] == [];
    assert Way(s, g, [part], RootNode(g), ds, ws);
    WayFollowed(s, g, [part], RootNode(g), ds, ws, r);
  }

  /** A readable file is read unless the disk fails. */
  method ReadContent(v: Volume, path: seq<Byte>, buffer: array<Byte>, ghost part: seq<Byte>,
                     ghost chain: seq<nat>, ghost entries: seq<seq<Byte>>, ghost w: nat, ghost content: seq<Byte>)
    returns (ok: bool, n: nat)
    requires v.Valid() && Readable(v.disk.sectors, v.geo, chain, entries, w, Name11(part), content)
    requires v.geo.root == chain[0] && Parts(path) == [part] && DriverAccepts(part) && |content| <= buffer.Length
    modifies v`fatCache, v`fatCacheSector, v.disk, buffer
    ensures v.disk.faults >= old(v.disk.faults) && (ok <==> v.disk.faults == old(v.disk.faults))
    ensures ok ==> n == |content| && buffer[..n] == content
  {
    ghost var r;
    ok, n, r := Read(v, path, buffer);
    if v.disk.faults == old(v.disk.faults) {
      RootWay(v.disk.sectors, v.geo, chain, entries, w, part, content, r);
    }
  }

  /** A volume is built of named files, mounted, a path given that names one of them, in capitals or
      not, and the file read: unless the disk fails, the bytes that come back are those that went in,
      of the first file with that short name. */
  method BuildMountRead(lba: nat, total: nat, fragment: bool, rest: seq<Byte>, info: seq<Byte>, dests: seq<seq<Byte>>,
                        contents: seq<seq<Byte>>, w: nat, path: seq<Byte>, ghost part: seq<Byte>, buffer: array<Byte>)
    returns (fits: bool, ok: bool, n: nat, ghost faults: nat)
    requires FatImage.DataStart(total) + 65525 <= total < TWO_32 && lba + total <= TWO_32 && |rest| == 446
             && |info| == SECTOR
    requires total - FatImage.DataStart(total) <= MAX_CLUSTERS
    requires |dests| == |contents| && ToolNames(dests) && forall i | 0 <= i < |contents| :: |contents[i]| < TWO_32
    requires w < |dests| && |contents[FirstNamed(Names(dests), w)]| <= buffer.Length
    requires Parts(path) == [part] && DriverAccepts(part) && Name11(part) == Name11(dests[w])
    modifies buffer
    ensures fits <==> RootClusters(|dests|) + Need(contents) <= total - FatImage.DataStart(total)
    ensures fits ==> (ok <==> faults == 0)
    ensures fits && ok ==> var i := FirstNamed(Names(dests), w); n == |contents[i]| && buffer[..n] == contents[i]
  {
    var names := Names(dests);
    NamesGood(dests);
    ghost var i := FirstNamed(names, w);
    ok, n, faults := false, 0, 0;
    var b, firsts;
    ghost var ids;
    fits, b, firsts, ids := BuildRoot(total - FatImage.DataStart(total), fragment, names, contents);
    if !fits { return; }
    var v;
    ok, v := MountImage(lba, total, rest, info, b.fat, b.data);
    faults := v.disk.faults;
    if !ok { return; }
    ghost var boot := FatImage.BootSector(total, FatImage.FatSectors(total), 2, rest);
    FatImage.LayoutOk(lba, total, 2);
    BuiltReadable(b, v.geo, boot, info, names, contents, firsts, ids, i);
    ok, n := ReadContent(v, path, buffer, part, b.chains[0], Entries(names, firsts, contents), i, contents[i]);
    faults := v.disk.faults;
  }
}
