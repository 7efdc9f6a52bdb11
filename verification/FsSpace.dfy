/** Free space on a VenomFS volume: what the two searches of kernel/fs.cpp look for. */
module FsSpace {
  import opened FsModel

  /** The free blocks below n in ascending order. */
  function FreeBelow(bits: set<nat>, n: nat): seq<nat> {
    if n == 0 then [] else if n - 1 in bits then FreeBelow(bits, n - 1) else FreeBelow(bits, n - 1) + [n - 1]
  }

  lemma {:induction false} FreeFacts(bits: set<nat>, n: nat, i: nat)
    requires i < |FreeBelow(bits, n)|
    ensures FreeBelow(bits, n)[i] < n && FreeBelow(bits, n)[i] !in bits
    decreases n
  {
    if i < |FreeBelow(bits, n - 1)| { FreeFacts(bits, n - 1, i); }
  }

  lemma {:induction false} FreeLength(bits: set<nat>, n: nat)
    ensures |FreeBelow(bits, n)| <= n
  {
    if n > 0 { FreeLength(bits, n - 1); }
  }

  lemma {:induction false} FreeUnique(bits: set<nat>, n: nat)
    ensures Unique(FreeBelow(bits, n))
  {
    if n > 0 {
      FreeUnique(bits, n - 1);
      var below := FreeBelow(bits, n - 1);
      forall i | 0 <= i < |below| ensures below[i] < n - 1 { FreeFacts(bits, n - 1, i); }
    }
  }

  /** In how many stretches of consecutive blocks a sequence comes. */
  function Runs(bs: seq<nat>): nat {
    if bs == [] then 0
    else Runs(bs[..|bs| - 1]) + if |bs| > 1 && bs[|bs| - 2] + 1 == bs[|bs| - 1] then 0 else 1
  }

  ghost predicate AllFree(bits: set<nat>, first: nat, n: nat) {
    forall b {:trigger b in bits} | first <= b < first + n :: b !in bits
  }

  lemma {:induction false} FreePrefix(bits: set<nat>, m: nat, n: nat)
    requires m <= n
    ensures |FreeBelow(bits, m)| <= |FreeBelow(bits, n)|
    ensures FreeBelow(bits, n)[..|FreeBelow(bits, m)|] == FreeBelow(bits, m)
    ensures forall i | |FreeBelow(bits, m)| <= i < |FreeBelow(bits, n)| :: m <= FreeBelow(bits, n)[i]
    decreases n
  {
    if m < n { FreePrefix(bits, m, n - 1); }
  }

  lemma {:induction false} RunsPrefix(bs: seq<nat>, n: nat)
    requires n <= |bs|
    ensures Runs(bs[..n]) <= Runs(bs)
    decreases |bs|
  {
    if n < |bs| {
      RunsPrefix(bs[..|bs| - 1], n);
      assert bs[..|bs| - 1][..n] == bs[..n];
    } else {
      assert bs[..n] == bs;
    }
  }

  lemma {:induction false} RunsGrow(bs: seq<nat>, b: nat)
    ensures Runs(bs + [b]) == Runs(bs) + if bs != [] && bs[|bs| - 1] + 1 == b then 0 else 1
  {
    assert (bs + [b])[..|bs|] == bs;
  }

  /** The space is there: enough free blocks, and the lowest of them in few enough stretches. */
  ghost predicate HasSpace(bits: set<nat>, needed: nat) {
    var free := FreeBelow(bits, TOTAL_DATA_BLOCKS);
    needed <= |free| && Runs(free[..needed]) <= MAX_EXTENTS
  }

  /** A scan that stopped below `block`, between two stretches and with no extent left. */
  lemma {:induction false} TooFragmented(bits: set<nat>, block: nat, needed: nat)
    requires block < TOTAL_DATA_BLOCKS && |FreeBelow(bits, block)| < needed
    requires Runs(FreeBelow(bits, block)) == MAX_EXTENTS
    requires block == 0 || block - 1 in bits || block in bits
    ensures !HasSpace(bits, needed)
  {
    var part, free := FreeBelow(bits, block), FreeBelow(bits, TOTAL_DATA_BLOCKS);
    if needed <= |free| {
      var next := NextFree(bits, block);
      RunsGrow(part, next);
      RunsMore(free[..needed], part, next);
    }
  }

  /** The first free block from `block` on is in a new stretch. */
  lemma {:induction false} NextFree(bits: set<nat>, block: nat) returns (next: nat)
    requires block < TOTAL_DATA_BLOCKS && |FreeBelow(bits, block)| < |FreeBelow(bits, TOTAL_DATA_BLOCKS)|
    requires block == 0 || block - 1 in bits || block in bits
    ensures var part, free := FreeBelow(bits, block), FreeBelow(bits, TOTAL_DATA_BLOCKS);
            next == free[|part|] && part == free[..|part|] && (part != [] ==> part[|part| - 1] + 1 != next)
  {
    var part, free := FreeBelow(bits, block), FreeBelow(bits, TOTAL_DATA_BLOCKS);
    if part != [] { FreeFacts(bits, block, |part| - 1); }
    FreeFacts(bits, TOTAL_DATA_BLOCKS, |part|);
    FreePrefix(bits, block, TOTAL_DATA_BLOCKS);
    next := free[|part|];
  }

  lemma {:induction false} RunsMore(all: seq<nat>, part: seq<nat>, next: nat)
    requires |part| < |all| && part == all[..|part|] && next == all[|part|]
    ensures Runs(part + [next]) <= Runs(all)
  {
    assert all[..|part| + 1] == part + [next];
    RunsPrefix(all, |part| + 1);
  }

  /** A whole stretch added to the free blocks below its start. */
  lemma {:induction false} FreeRun(bits: set<nat>, first: nat, n: nat)
    requires AllFree(bits, first, n)
    ensures FreeBelow(bits, first + n) == FreeBelow(bits, first) + Run(first, n)
    decreases n
  {
    var below := FreeBelow(bits, first);
    if n == 0 {
      assert below + Run(first, 0) == below;
    } else {
      FreeRun(bits, first, n - 1);
      assert first + n - 1 !in bits;
      assert Run(first, n) == Run(first, n - 1) + [first + n - 1];
      assert below + Run(first, n) == below + Run(first, n - 1) + [first + n - 1];
    }
  }

  lemma {:induction false} RunsRun(bs: seq<nat>, first: nat, n: nat)
    requires n > 0 && (bs != [] ==> bs[|bs| - 1] + 1 != first)
    ensures Runs(bs + Run(first, n)) == Runs(bs) + 1
    decreases n
  {
    var most := bs + Run(first, n - 1);
    assert bs + Run(first, n) == most + [first + n - 1];
    RunsGrow(most, first + n - 1);
    if n > 1 {
      RunsRun(bs, first, n - 1);
      assert most[|most| - 1] == first + n - 2;
    } else {
      assert most == bs;
    }
  }

  lemma {:induction false} FreeRuns(bits: set<nat>, first: nat, n: nat)
    requires n > 0 && AllFree(bits, first, n) && (first == 0 || first - 1 in bits)
    ensures Runs(FreeBelow(bits, first + n)) == Runs(FreeBelow(bits, first)) + 1
  {
    var below := FreeBelow(bits, first);
    if below != [] { FreeFacts(bits, first, |below| - 1); }
    FreeRun(bits, first, n);
    RunsRun(below, first, n);
  }

  // ----- the scan of find_free_run

  /** No run of `needed` free blocks ends by `block`; the last runLength blocks are free, from
      the block after a used one. */
  ghost predicate RunScanned(bits: set<nat>, needed: nat, runStart: nat, runLength: nat, block: nat) {
    && block <= TOTAL_DATA_BLOCKS && runLength < needed && runLength <= block
    && (runLength == 0 ==> block == 0 || block - 1 in bits)
    && (runLength > 0 ==> runStart + runLength == block && (runStart == 0 || runStart - 1 in bits))
    && AllFree(bits, block - runLength, runLength)
    && forall s: nat {:trigger AllFree(bits, s, needed)} | s + needed <= block :: !AllFree(bits, s, needed)
  }

  /** One block further: used, free in a run still too short, or the end of the first run. */
  lemma {:induction false} RunStep(bits: set<nat>, needed: nat, runStart: nat, runLength: nat, block: nat)
    requires RunScanned(bits, needed, runStart, runLength, block) && block < TOTAL_DATA_BLOCKS
    ensures block in bits ==> RunScanned(bits, needed, runStart, 0, block + 1)
    ensures var start := if runLength == 0 then block else runStart;
            block !in bits ==>
              if runLength + 1 == needed then FirstRun(bits, needed, start)
              else RunScanned(bits, needed, start, runLength + 1, block + 1)
  {
    var start := if runLength == 0 then block else runStart;
    if block in bits {
      forall s: nat | s + needed == block + 1 ensures !AllFree(bits, s, needed) { assert s <= block < s + needed; }
    } else if runLength + 1 < needed {
      forall s: nat | s + needed == block + 1 ensures !AllFree(bits, s, needed) {
        assert s <= start - 1 < s + needed && start - 1 in bits;
      }
    }
  }

  ghost predicate FirstRun(bits: set<nat>, needed: nat, start: nat) {
    && AllFree(bits, start, needed) && start + needed <= TOTAL_DATA_BLOCKS
    && forall s: nat {:trigger AllFree(bits, s, needed)} | s < start :: !AllFree(bits, s, needed)
  }

  // ----- the scan of find_free_extents

  /** The extents found below `block` are all the free blocks there, one extent a stretch, and
      the scan stands between stretches unless it is finished. */
  ghost predicate Scanned(bits: set<nat>, needed: nat, xs: seq<Extent>, block: nat, remaining: nat) {
    && block <= TOTAL_DATA_BLOCKS && |xs| <= MAX_EXTENTS && remaining + |Blocks(xs)| == needed
    && Blocks(xs) == FreeBelow(bits, block) && |xs| == Runs(Blocks(xs))
    && (remaining > 0 && 0 < block < TOTAL_DATA_BLOCKS ==> block - 1 in bits || block in bits)
    && forall x | x in xs :: ExtentOk(x)
  }

  lemma {:induction false} ScanUsed(bits: set<nat>, needed: nat, xs: seq<Extent>, block: nat, remaining: nat)
    requires Scanned(bits, needed, xs, block, remaining) && block < TOTAL_DATA_BLOCKS && block in bits
    ensures Scanned(bits, needed, xs, block + 1, remaining)
  {
  }

  lemma {:induction false} ScanRun(bits: set<nat>, needed: nat, xs: seq<Extent>, block: nat, remaining: nat, n: nat)
    requires Scanned(bits, needed, xs, block, remaining) && |xs| < MAX_EXTENTS && block !in bits
    requires 0 < n <= remaining && block + n <= TOTAL_DATA_BLOCKS && AllFree(bits, block, n)
    requires block + n == TOTAL_DATA_BLOCKS || n == remaining || block + n in bits
    ensures Scanned(bits, needed, xs + [Extent(DATA_START_LBA + block, n)], block + n, remaining - n)
  {
    RunFound(bits, xs, block, n);
    ScannedRun(bits, needed, xs, block, remaining, n);
  }

  lemma {:induction false} RunFound(bits: set<nat>, xs: seq<Extent>, block: nat, n: nat)
    requires n > 0 && AllFree(bits, block, n) && (block == 0 || block - 1 in bits)
    ensures FreeBelow(bits, block + n) == FreeBelow(bits, block) + Run(block, n)
    ensures Runs(FreeBelow(bits, block + n)) == Runs(FreeBelow(bits, block)) + 1
    ensures Blocks(xs + [Extent(DATA_START_LBA + block, n)]) == Blocks(xs) + Run(block, n)
  {
    FreeRun(bits, block, n);
    FreeRuns(bits, block, n);
    BlocksGrow(xs, Extent(DATA_START_LBA + block, n));
  }

  lemma {:induction false} ScannedRun(bits: set<nat>, needed: nat, xs: seq<Extent>, block: nat, remaining: nat, n: nat)
    requires Scanned(bits, needed, xs, block, remaining) && |xs| < MAX_EXTENTS
    requires 0 < n <= remaining && block + n <= TOTAL_DATA_BLOCKS
    requires block + n == TOTAL_DATA_BLOCKS || n == remaining || block + n in bits
    requires FreeBelow(bits, block + n) == FreeBelow(bits, block) + Run(block, n)
    requires Runs(FreeBelow(bits, block + n)) == Runs(FreeBelow(bits, block)) + 1
    requires Blocks(xs + [Extent(DATA_START_LBA + block, n)]) == Blocks(xs) + Run(block, n)
    ensures Scanned(bits, needed, xs + [Extent(DATA_START_LBA + block, n)], block + n, remaining - n)
  {
  }

  lemma {:induction false} ScanDone(bits: set<nat>, needed: nat, xs: seq<Extent>, block: nat, remaining: nat)
    requires Scanned(bits, needed, xs, block, remaining)
    requires block == TOTAL_DATA_BLOCKS || remaining == 0 || |xs| == MAX_EXTENTS
    ensures remaining == 0 <==> HasSpace(bits, needed)
    ensures remaining == 0 ==> Blocks(xs) == FreeBelow(bits, TOTAL_DATA_BLOCKS)[..needed]
  {
    FreePrefix(bits, block, TOTAL_DATA_BLOCKS);
    if remaining > 0 && block < TOTAL_DATA_BLOCKS { TooFragmented(bits, block, needed); }
  }
}
