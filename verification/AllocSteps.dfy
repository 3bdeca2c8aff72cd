/** How far the loops of the allocator have come (fat_alloc_clusters, fat_free_clusters). */
module AllocSteps {
  import opened Packing
  import opened FatDevices
  import opened Chains
  import opened Machine

  /** Clusters first, first + 1, ..., count of them. */
  function Run(first: int, count: int): seq<int> {
    if count <= 0 then [] else Run(first, count - 1) + [first + count - 1]
  }

  lemma StillStale(s': set<nat>, s: set<nat>, blks: set<nat>, s0: set<nat>, done: set<nat>)
    requires s' <= s - blks && s <= s0 - done
    ensures s' <= s0 - (done + blks)
  {
  }

  /** What a freeing starts from: what its walk will come to, the clusters discarded and the
      blocks not mirrored yet. */
  datatype FreeStart = FreeStart(r0: FreeResult, disc0: seq<int>, stale0: set<nat>)

  /** Where fat_free_clusters stands: `freed` of the walk r0 is cleared and, except for
      the run from first to cl, discarded; bhs waits for mirroring; and if the walk gives a
      pending chain back, what is left of the chain is what is left of the walk. */
  ghost predicate Freeing(dev: FatDevice, f: Fat, stale: set<nat>, pending: seq<int>, discarded: seq<int>, s0: FreeStart,
                          freed: seq<int>, cl: int, first: int, bhs: seq<nat>, more: bool)
    requires dev.Geometry() && 2 <= |f|
  {
    match s0
    case FreeStart(r0, disc0, stale0) =>
      && WalkAt(r0, freed, f, cl, EIO, more) && (!more ==> cl == first)
      && (pending != [] ==> IsChain(f, pending) && r0.freed == freed + pending)
      && first <= cl && discarded + Run(first, cl - first) == disc0 + freed
      && |bhs| <= MAX_BUF_PER_PAGE && AsSet(bhs) <= dev.Primary()
      && stale - AsSet(bhs) <= stale0 - dev.Blocks(freed)
  }

  /** The next cluster that a walk frees is the first of what is still pending, if anything is. */
  lemma NextFreed(dev: FatDevice, f: Fat, stale: set<nat>, pending: seq<int>, discarded: seq<int>, s0: FreeStart,
                  freed: seq<int>, c: int, first: int, bhs: seq<nat>, live: Live) returns (rest: seq<int>)
    requires dev.Geometry() && 2 <= |f| && Freeing(dev, f, stale, pending, discarded, s0, freed, c, first, bhs, true)
    requires InRange(f, c) && f[c] != FAT_ENT_FREE && Unowned(live, s0.r0.freed)
    ensures !Owned(live, c) && FreeCount(f[c := FAT_ENT_FREE]) == FreeCount(f) + 1
    ensures pending == [] ==> rest == []
    ensures pending != [] ==> IsChain(f, pending) && pending == [c] + rest && Unowned(live, pending) && s0.r0.freed == (freed + [c]) + rest
  {
    WalkAtStep(s0.r0, freed, f, c, EIO);
    rest := [];
    if pending != [] {
      rest := pending[1..];
      assert forall i :: 0 <= i < |pending| ==> pending[i] == s0.r0.freed[|freed| + i];
    }
  }

  /** One loop body of fat_free_clusters: cluster c is cleared, the run of discards grown or
      sent off, and the blocks of the entry queued. */
  lemma FreedOne(dev: FatDevice, f: Fat, stale: set<nat>, pending: seq<int>, discarded: seq<int>, s0: FreeStart,
                 freed: seq<int>, c: int, first: int, bhs: seq<nat>,
                 stale': set<nat>, rest: seq<int>, discarded': seq<int>, first': int, bhs': seq<nat>)
    requires dev.Geometry() && 2 <= |f| && Freeing(dev, f, stale, pending, discarded, s0, freed, c, first, bhs, true)
    requires |f| <= dev.maxCluster && InRange(f, c) && f[c] != FAT_ENT_FREE
    requires rest != [] ==> IsChain(f[c := FAT_ENT_FREE], rest) && s0.r0.freed == (freed + [c]) + rest
    requires first' <= f[c] && (f[c] != c + 1 ==> first' == f[c])
    requires discarded' + Run(first', f[c] - first') == discarded + Run(first, c - first) + [c]
    requires |bhs'| <= MAX_BUF_PER_PAGE && AsSet(bhs') <= dev.Primary()
    requires stale' - AsSet(bhs') <= stale - AsSet(bhs) - dev.BlocksOf(c)
    ensures Freeing(dev, f[c := FAT_ENT_FREE], stale', rest, discarded', s0, freed + [c], f[c], first', bhs', f[c] != FAT_ENT_EOF)
  {
    WalkAtStep(s0.r0, freed, f, c, EIO);
    dev.BlocksAppend(freed, c);
    assert (s0.disc0 + freed) + [c] == s0.disc0 + (freed + [c]);
    StillStale(stale' - AsSet(bhs'), stale - AsSet(bhs), dev.BlocksOf(c), s0.stale0, dev.Blocks(freed));
  }

  /** What a scan starts from: the FAT, the blocks not mirrored yet, and the first entry met. */
  datatype ScanFrom = ScanFrom(f0: Fat, stale0: set<nat>, p: nat)

  /** Where fat_alloc_clusters stands after meeting n entries from p on: it has taken
      exactly the free ones among them, in that order, and linked them up. */
  ghost predicate Scanning(dev: FatDevice, f: Fat, stale: set<nat>, pending: seq<int>, s0: ScanFrom, n: nat,
                           cs: seq<int>, bhs: seq<nat>, prevEnt: FatEnt)
    requires dev.Geometry()
  {
    match s0
    case ScanFrom(f0, stale0, p) =>
      && |f0| == dev.maxCluster && ScanStart(|f0|, p) && n <= |f0| - 2
      && pending == cs == FreeMet(f0, p, n) && f == Linked(f0, cs)
      && (if cs == [] then prevEnt.nrBhs == 0 else cs[|cs| - 1] >= 0 && dev.At(prevEnt, cs[|cs| - 1]))
      && AsSet(bhs) == dev.Blocks(cs) && AsSet(bhs) <= dev.Primary() && |bhs| <= 2 * |cs|
      && stale <= stale0 + AsSet(bhs)
  }

  /** What the allocator knows about the entry it looks at next. */
  lemma NextMet(dev: FatDevice, f: Fat, stale: set<nat>, pending: seq<int>, s0: ScanFrom, n: nat, cs: seq<int>, bhs: seq<nat>,
                prevEnt: FatEnt, live: Live)
    requires dev.Geometry() && Scanning(dev, f, stale, pending, s0, n, cs, bhs, prevEnt) && LiveOk(s0.f0, live) && n < |s0.f0| - 2
    ensures |f| == |s0.f0| && f[ScanPos(|f|, s0.p, n)] == s0.f0[ScanPos(|f|, s0.p, n)]
    ensures (cs != [] ==> IsChain(f, cs)) && Unowned(live, cs)
  {
    ScanStepEffect(s0.f0, s0.p, n);
    FreeAreUnowned(s0.f0, live, cs);
  }

  /** An entry in use is passed over. */
  lemma PassedOver(dev: FatDevice, f: Fat, stale: set<nat>, pending: seq<int>, s0: ScanFrom, n: nat, cs: seq<int>, bhs: seq<nat>, prevEnt: FatEnt)
    requires dev.Geometry() && Scanning(dev, f, stale, pending, s0, n, cs, bhs, prevEnt)
    requires n < |s0.f0| - 2 && s0.f0[ScanPos(|s0.f0|, s0.p, n)] != FAT_ENT_FREE
    ensures Scanning(dev, f, stale, pending, s0, n + 1, cs, bhs, prevEnt)
  {
  }

  /** A free entry is taken. */
  lemma TakenOne(dev: FatDevice, f: Fat, stale: set<nat>, pending: seq<int>, s0: ScanFrom, n: nat, cs: seq<int>, bhs: seq<nat>, prevEnt: FatEnt,
                 e: nat, stale': set<nat>, bhs': seq<nat>, h: FatEnt)
    requires dev.Geometry() && Scanning(dev, f, stale, pending, s0, n, cs, bhs, prevEnt)
    requires n < |s0.f0| - 2 && e == ScanPos(|s0.f0|, s0.p, n) && s0.f0[e] == FAT_ENT_FREE && dev.At(h, e)
    requires AsSet(bhs) <= AsSet(bhs') == dev.Blocks(cs + [e]) && AsSet(bhs') <= dev.Primary() && |bhs'| <= 2 * |cs + [e]|
    requires stale' <= stale + AsSet(bhs')
    ensures Scanning(dev, LinkNext(f, cs, e), stale', pending + [e], s0, n + 1, cs + [e], bhs', h)
  {
    LinkedAppend(s0.f0, cs, e);
  }

  /** Where the scan goes on: with the n-th entry in the block at hand, or else, unless nr
      clusters have been taken, in another block, where the handle may have to wrap first. */
  ghost predicate GoesOn(dev: FatDevice, prevFree: nat, s0: ScanFrom, h: FatEnt, n: nat, cs: seq<int>, nr: nat, count: nat, inBlock: bool)
    requires dev.Geometry()
  {
    match s0
    case ScanFrom(_, _, p) =>
      && |cs| <= nr && (|cs| == nr > 0 ==> prevFree == cs[nr - 1])
      && (|cs| < nr ==> count == n + 2 && ScanStart(dev.maxCluster, p))
      && (|cs| < nr && n < dev.maxCluster - 2 ==> 2 <= h.entry && Wrap(dev.maxCluster, h.entry) == ScanPos(dev.maxCluster, p, n))
      && (inBlock ==> |cs| < nr && n < dev.maxCluster - 2 && dev.At(h, ScanPos(dev.maxCluster, p, n)))
  }
}
