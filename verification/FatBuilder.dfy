/** tools/mkfat32.py: clusters taken from a free list in any order, chained and filled. */
module FatBuilder {
  import opened Bytes
  import opened FatModel

  const END: nat := 0x0FFF_FFFF

  /** Bytes 512 k to 512 k + 511 of a content padded with zeros. */
  function Chunk(content: seq<Byte>, k: nat): (r: seq<Byte>)
    ensures |r| == SECTOR && forall i | 0 <= i < SECTOR ::
              r[i] == if SECTOR * k + i < |content| then content[SECTOR * k + i] else 0
  {
    seq<Byte>(SECTOR, (i: nat) => if SECTOR * k + i < |content| then content[SECTOR * k + i] else 0)
  }

  /** max(1, ceil(len / 512)). */
  function ClustersFor(content: seq<Byte>): nat {
    if content == [] then 1 else (|content| + SECTOR - 1) / SECTOR
  }

  /** A file in the image under construction. */
  datatype Stored = Stored(chain: seq<nat>, content: seq<Byte>)

  predicate LinkAt(fat: seq<nat>, chain: seq<nat>, i: int) {
    0 <= i < |chain| ==> chain[i] < |fat| && fat[chain[i]] == if i + 1 < |chain| then chain[i + 1] else END
  }

  ghost predicate Chained(fat: seq<nat>, chain: seq<nat>) {
    forall i {:trigger LinkAt(fat, chain, i)} :: LinkAt(fat, chain, i)
  }

  predicate FilledAt(data: map<nat, seq<Byte>>, f: Stored, i: int) {
    0 <= i < |f.chain| ==> f.chain[i] in data && data[f.chain[i]] == Chunk(f.content, i)
  }

  ghost predicate InPlace(fat: seq<nat>, data: map<nat, seq<Byte>>, f: Stored) {
    && |f.chain| == ClustersFor(f.content) && Chained(fat, f.chain)
    && forall i {:trigger FilledAt(data, f, i)} :: FilledAt(data, f, i)
  }

  /** The free list: all clusters in order, or every other one first. */
  function FreeList(clusters: nat, fragment: bool): seq<nat> {
    if fragment then seq((clusters + 1) / 2, (i: nat) => 2 + 2 * i) + seq(clusters / 2, (i: nat) => 3 + 2 * i)
    else seq(clusters, (i: nat) => 2 + i)
  }

  /** Either way every cluster comes exactly once. */
  lemma {:induction false} FreeListComplete(clusters: nat, fragment: bool)
    ensures var free := FreeList(clusters, fragment);
            Distinct(free) && |free| == clusters && forall c: nat :: c in free <==> 2 <= c < clusters + 2
  {
    var free := FreeList(clusters, fragment);
    forall c: nat | 2 <= c < clusters + 2 ensures c in free {
      var at := if !fragment then c - 2 else if c % 2 == 0 then (c - 2) / 2 else (clusters + 1) / 2 + (c - 3) / 2;
      assert free[at] == c;
    }
  }

  class Builder {
    const clusters: nat
    const free: seq<nat>
    var fat: seq<nat>
    var data: map<nat, seq<Byte>>
    var cursor: nat
    ghost var chains: seq<seq<nat>>             // allocated so far
    ghost var contents: map<nat, seq<Byte>>     // of those that have been filled

    /** The free list has every cluster at most once, and only real ones. */
    ghost predicate FreeOk() {
      Distinct(free) && forall i | 0 <= i < |free| :: 2 <= free[i] < clusters + 2
    }

    ghost predicate TableOk()
      reads this
    {
      |fat| == clusters + 2 && forall i | 0 <= i < |fat| :: fat[i] < FAT_BASE
    }

    /** Every chain is linked, of clusters of its own, and holds its content once filled. */
    ghost predicate Valid()
      reads this
    {
      && FreeOk() && TableOk() && cursor <= |free| && clusters <= MAX_CLUSTERS && Full(data)
      && (forall i | 0 <= i < |chains| :: ChainOk(fat, free[..cursor], chains[i])) && AllApart(chains)
      && forall i | i in contents :: i < |chains| && InPlace(fat, data, Stored(chains[i], contents[i]))
    }

    constructor (clusters: nat, free: seq<nat>)
      requires clusters <= MAX_CLUSTERS && Distinct(free) && forall i | 0 <= i < |free| :: 2 <= free[i] < clusters + 2
      ensures Valid() && this.clusters == clusters && this.free == free && cursor == 0 && chains == []
              && contents == map[]
    {
      this.clusters, this.free := clusters, free;
      fat := [0x0FFF_FFF8, END] + seq(clusters, _ => 0);
      data, cursor, chains, contents := map[], 0, [], map[];
    }

    /** Each cluster links to the next, the last one ends the chain. */
    method LinkUp(got: seq<nat>)
      requires TableOk() && got != [] && Distinct(got) && clusters <= MAX_CLUSTERS
      requires forall i | 0 <= i < |got| :: 2 <= got[i] < clusters + 2
      modifies `fat
      ensures TableOk() && Linked(old(fat), fat, got, |got|)
    {
      ghost var was := fat;
      for i := 0 to |got| - 1
        invariant TableOk() && Linked(was, fat, got, i)
      {
        LinkStep(was, fat, got, i, got[i + 1]);
        fat := fat[got[i] := got[i + 1]];
      }
      LinkStep(was, fat, got, |got| - 1, END);
      fat := fat[got[|got| - 1] := END];
    }

    /** The next n clusters of the free list, chained in that order; to be filled later. */
    method Alloc(n: nat) returns (ok: bool, got: seq<nat>)
      requires Valid() && n > 0
      modifies `fat, `cursor, `chains
      ensures Valid()
      ensures ok <==> old(cursor) + n <= |free|
      ensures ok ==> got == free[old(cursor)..old(cursor) + n] && cursor == old(cursor) + n
                     && chains == old(chains) + [got]
      ensures !ok ==> fat == old(fat) && cursor == old(cursor) && chains == old(chains)
    {
      got := [];
      if cursor + n > |free| { return false, got; }
      got := free[cursor..cursor + n];
      ghost var was := fat;
      TakenApart(free, cursor, n);
      LinkUp(got);
      ChainsKept(was, fat, free, cursor, n, chains);
      forall i | i in contents ensures InPlace(fat, data, Stored(chains[i], contents[i])) {
        OldFile(was, fat, data, Stored(chains[i], contents[i]));
      }
      cursor, ok, chains := cursor + n, true, chains + [got];
    }

    /** The sectors of the content go into the clusters of a chain, whatever was allocated or
        filled since. */
    method Fill(chain: seq<nat>, content: seq<Byte>, ghost id: nat)
      requires Valid() && id < |chains| && chain == chains[id] && |chain| == ClustersFor(content)
      modifies `data, `contents
      ensures Valid() && contents == old(contents)[id := content]
    {
      ghost var was, f := data, Stored(chain, content);
      for i := 0 to |chain|
        invariant Written(was, data, f, i) && Full(data) && contents == old(contents)
      {
        WriteStep(was, data, f, i);
        data := data[chain[i] := Chunk(content, i)];
      }
      NewFile(fat, was, data, f);
      forall i | i in contents && i != id ensures InPlace(fat, data, Stored(chains[i], contents[i])) {
        ApartAt(chains, id, i);
        KeptFile(fat, was, data, f, Stored(chains[i], contents[i]));
      }
      contents := contents[id := content];
    }

    /** A file is stored: its chain and its sectors are in place, and those of all earlier files
        still are. */
    method Store(content: seq<Byte>) returns (ok: bool, first: nat)
      requires Valid()
      modifies `fat, `cursor, `data, `chains, `contents
      ensures Valid()
      ensures ok <==> old(cursor) + ClustersFor(content) <= |free|
      ensures !ok ==> cursor == old(cursor) && chains == old(chains) && contents == old(contents)
      ensures ok ==> cursor == old(cursor) + ClustersFor(content)
      ensures ok ==> |chains| == |old(chains)| + 1 && chains[..|old(chains)|] == old(chains)
                     && chains[|old(chains)|][0] == first
      ensures ok ==> contents == old(contents)[|old(chains)| := content]
    {
      first := 0;
      var chain;
      ok, chain := Alloc(ClustersFor(content));
      if !ok { return; }
      Fill(chain, content, |chains| - 1);
      first := chain[0];
    }
  }

  /** A chain of clusters already taken from the free list. */
  ghost predicate ChainOk(fat: seq<nat>, taken: seq<nat>, chain: seq<nat>) {
    chain != [] && Chained(fat, chain) && Used(taken, chain) && Distinct(chain)
  }

  predicate Apart(a: seq<nat>, b: seq<nat>) {
    forall c | c in a :: c !in b
  }

  ghost predicate AllApart(chains: seq<seq<nat>>) {
    forall i, j {:trigger chains[i], chains[j]} | 0 <= i < j < |chains| :: Apart(chains[i], chains[j])
  }

  lemma {:induction false} ApartAt(chains: seq<seq<nat>>, i: nat, j: nat)
    requires AllApart(chains) && i < |chains| && j < |chains| && i != j
    ensures Apart(chains[i], chains[j])
  {
    if j < i { assert Apart(chains[j], chains[i]); }
  }

  /** Every sector written is a whole one. */
  predicate Full(data: map<nat, seq<Byte>>) {
    forall c | c in data :: |data[c]| == SECTOR
  }

  /** Linking up fresh clusters keeps the other chains, and adds one apart from them. */
  lemma {:induction false} ChainsKept(was: seq<nat>, fat: seq<nat>, free: seq<nat>, cursor: nat, n: nat,
                                      chains: seq<seq<nat>>)
    requires Distinct(free) && cursor + n <= |free| && n > 0 && AllApart(chains)
    requires forall i | 0 <= i < |chains| :: ChainOk(was, free[..cursor], chains[i])
    requires Linked(was, fat, free[cursor..cursor + n], n)
    ensures var got := free[cursor..cursor + n];
            && AllApart(chains + [got]) && ChainOk(fat, free[..cursor + n], got)
            && forall i | 0 <= i < |chains| :: ChainOk(fat, free[..cursor + n], chains[i])
  {
    var got := free[cursor..cursor + n];
    TakenApart(free, cursor, n);
    NewUsed(free, cursor, n);
    assert got[..n] == got;
    LinkedChain(was, fat, got);
    forall i | 0 <= i < |chains| ensures ChainOk(fat, free[..cursor + n], chains[i]) && Apart(chains[i], got) {
      OldChain(was, fat, got, chains[i], free[..cursor]);
      UsedMore(free, cursor, n, chains[i]);
    }
  }

  /** The first n sectors of the file are written; no other cluster changed. */
  ghost predicate Written(was: map<nat, seq<Byte>>, data: map<nat, seq<Byte>>, f: Stored, n: nat) {
    && n <= |f.chain| && (forall i | 0 <= i < n :: f.chain[i] in data && data[f.chain[i]] == Chunk(f.content, i))
    && (forall c: nat | c in was && c !in f.chain[..n] :: c in data && data[c] == was[c])
  }

  lemma {:induction false} WriteStep(was: map<nat, seq<Byte>>, data: map<nat, seq<Byte>>, f: Stored, n: nat)
    requires Written(was, data, f, n) && n < |f.chain| && Distinct(f.chain)
    ensures Written(was, data[f.chain[n] := Chunk(f.content, n)], f, n + 1)
  {
    assert f.chain[..n + 1] == f.chain[..n] + [f.chain[n]];
  }

  lemma {:induction false} NewFile(fat: seq<nat>, was: map<nat, seq<Byte>>, data: map<nat, seq<Byte>>, f: Stored)
    requires Chained(fat, f.chain) && Written(was, data, f, |f.chain|) && |f.chain| == ClustersFor(f.content)
    ensures InPlace(fat, data, f)
  {
    forall i ensures FilledAt(data, f, i) {}
  }

  /** A file in other clusters keeps its sectors. */
  lemma {:induction false} KeptFile(fat: seq<nat>, was: map<nat, seq<Byte>>, data: map<nat, seq<Byte>>, f: Stored,
                                    e: Stored)
    requires Written(was, data, f, |f.chain|) && InPlace(fat, was, e) && Apart(f.chain, e.chain)
    ensures InPlace(fat, data, e)
  {
    assert f.chain[..|f.chain|] == f.chain;
    forall i ensures FilledAt(data, e, i) {
      assert FilledAt(was, e, i);
    }
  }

  lemma {:induction false} OldFile(was: seq<nat>, fat: seq<nat>, data: map<nat, seq<Byte>>, f: Stored)
    requires InPlace(was, data, f) && Chained(fat, f.chain)
    ensures InPlace(fat, data, f)
  {
  }

  lemma {:induction false} NewUsed(free: seq<nat>, cursor: nat, n: nat)
    requires cursor + n <= |free|
    ensures Used(free[..cursor + n], free[cursor..cursor + n])
  {
    var part := free[cursor..cursor + n];
    forall i | 0 <= i < |part| ensures part[i] in free[..cursor + n] {
      assert free[..cursor + n][cursor + i] == part[i];
    }
  }

  /** Every cluster of the chain comes from the part of the free list already taken. */
  predicate Used(taken: seq<nat>, chain: seq<nat>) {
    forall i | 0 <= i < |chain| :: chain[i] in taken
  }

  /** The first n links of a chain are made; nothing else changed. */
  ghost predicate Linked(was: seq<nat>, fat: seq<nat>, got: seq<nat>, n: nat) {
    && |fat| == |was| && n <= |got|
    && (forall i | 0 <= i < n :: got[i] < |fat| && fat[got[i]] == if i + 1 < |got| then got[i + 1] else END)
    && (forall c: nat {:trigger fat[c]} | c < |fat| && c !in got[..n] :: fat[c] == was[c])
  }

  lemma {:induction false} LinkedChain(was: seq<nat>, fat: seq<nat>, got: seq<nat>)
    requires Linked(was, fat, got, |got|)
    ensures Chained(fat, got)
  {
    forall i ensures LinkAt(fat, got, i) {
      if 0 <= i < |got| { assert got[i] < |fat|; }
    }
  }

  lemma {:induction false} LinkStep(was: seq<nat>, fat: seq<nat>, got: seq<nat>, n: nat, v: nat)
    requires Linked(was, fat, got, n) && n < |got| && got[n] < |fat| && Distinct(got)
    requires v == if n + 1 < |got| then got[n + 1] else END
    ensures Linked(was, fat[got[n] := v], got, n + 1)
  {
    assert got[..n + 1] == got[..n] + [got[n]];
  }

  lemma {:induction false} TakenApart(free: seq<nat>, cursor: nat, n: nat)
    requires Distinct(free) && cursor + n <= |free|
    ensures Distinct(free[cursor..cursor + n])
    ensures forall c | c in free[cursor..cursor + n] :: c !in free[..cursor]
  {
  }

  lemma {:induction false} UsedMore(free: seq<nat>, cursor: nat, n: nat, chain: seq<nat>)
    requires cursor + n <= |free| && Used(free[..cursor], chain)
    ensures Used(free[..cursor + n], chain)
  {
    forall i | 0 <= i < |chain| ensures chain[i] in free[..cursor + n] {
      var j :| 0 <= j < cursor && free[..cursor][j] == chain[i];
      assert free[..cursor + n][j] == chain[i];
    }
  }

  /** A chain made of other clusters keeps its links. */
  lemma {:induction false} OldChain(was: seq<nat>, fat: seq<nat>, got: seq<nat>, chain: seq<nat>, taken: seq<nat>)
    requires Linked(was, fat, got, |got|) && Chained(was, chain) && Used(taken, chain)
    requires forall c | c in got :: c !in taken
    ensures Chained(fat, chain) && Apart(chain, got)
  {
    assert got[..|got|] == got;
    forall c | c in chain ensures c !in got {
      var i :| 0 <= i < |chain| && chain[i] == c;
      assert chain[i] in taken;
    }
    forall i ensures LinkAt(fat, chain, i) {
      assert LinkAt(was, chain, i);
    }
  }
}
