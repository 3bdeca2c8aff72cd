/** The cluster allocator of a mounted volume (fatent.c), with a ghost log of every FAT
    entry write and of the file chains that were live at that moment. */
module Volumes {
  import opened Arith
  import opened Packing
  import opened FatDevices
  import opened Chains
  import opened Logs
  import opened AllocSteps
  import opened Machine
  import Mapping

  const UNKNOWN := 0xFFFF_FFFF // free_clusters == -1, an unsigned int

  lemma HintKept(hint: nat, max: nat)
    requires max > 0
    ensures hint % max < max && (hint < max ==> hint % max == hint)
  {
    DivMod(hint, max);
    if hint < max {
      DivModUnique(hint, max, 0, hint);
    }
  }

  /** Where the last allocation was, as far as the hint says so: some cluster, and the hinted one
      if it exists. */
  function HintedStart(hint: nat, max: nat): (r: nat)
    requires max >= 2
    ensures 2 <= r <= max && (max > 2 ==> r < max) && (FAT_START_ENT <= hint < max ==> r == hint)
  {
    HintKept(hint, max);
    if hint % max < FAT_START_ENT then FAT_START_ENT else hint % max
  }

  class Volume {
    const dev: FatDevice
    const secPerClus: nat
    const dataStart: nat
    var prevFree: nat
    var freeClusters: int    // unsigned 32 bit
    var freeClusValid: bool

    /** The chain of every live file. */
    ghost var live: Live
    /** The chain that is just being built or given back. */
    ghost var pending: seq<int>
    /** How things were at mount time and after each entry write since. */
    ghost var trace: seq<Snapshot>
    /** Every cluster whose sectors a discard request covered, in the order of the requests. */
    ghost var discarded: seq<int>

    /** The end of fat_fill_super: the FSINFO hints are only taken when in range, and the
        free count is never trusted. */
    constructor (dev: FatDevice, secPerClus: nat, dataStart: nat, freeHint: int, prevHint: nat)
      requires dev.Valid() && 0 <= freeHint <= UNKNOWN
      requires secPerClus > 0 && dataStart > 0 && dev.bs % 512 == 0
      ensures Valid() && fresh(this) && this.dev == dev && this.secPerClus == secPerClus && this.dataStart == dataStart
      ensures Layout()
      ensures live == map[] && pending == [] && trace == [Snapshot(dev.ents, map[], [])] && discarded == [] && !freeClusValid
      ensures freeClusters == if freeHint <= dev.maxCluster - 2 then freeHint else UNKNOWN
      ensures prevFree == HintedStart(prevHint, dev.maxCluster)
    {
      this.dev, this.secPerClus, this.dataStart := dev, secPerClus, dataStart;
      freeClusters := if freeHint != UNKNOWN && freeHint > dev.maxCluster - 2 then UNKNOWN else freeHint;
      freeClusValid := false;
      prevFree := HintedStart(prevHint, dev.maxCluster);
      discarded, live, pending, trace := [], map[], [], [Snapshot(dev.ents, map[], [])];
    }

    ghost function Now(): Snapshot
      reads this`live, this`pending, dev`ents
    {
      Snapshot(dev.ents, live, pending)
    }

    /** The on-disk part: FAT, live chains and the log of writes, which is complete. */
    ghost predicate Inv()
      reads this`live, this`pending, this`trace, dev, dev.data
    {
      dev.Valid() && LiveOk(dev.ents, live) && trace != [] && trace[|trace| - 1] == Now()
    }

    ghost predicate CountersOk()
      requires dev.Geometry() && |dev.ents| == dev.maxCluster
      reads this`prevFree, this`freeClusters, this`freeClusValid, dev`ents
    {
      && 2 <= prevFree <= dev.maxCluster
      && 0 <= freeClusters <= UNKNOWN
      && (freeClusValid ==> freeClusters == FreeCount(dev.ents))
    }

    ghost predicate Valid()
      reads this`live, this`pending, this`trace, this`prevFree, this`freeClusters, this`freeClusValid, dev, dev.data
    {
      Inv() && CountersOk()
    }

    /** The data area: whole clusters of secPerClus blocks, behind at least one other block. */
    ghost predicate Layout() {
      && dev.Geometry() && secPerClus > 0 && dataStart > 0
      && dev.bs % 512 == 0 && Times(secPerClus, dev.bs) > 0
    }

    /** Bytes per cluster, and the same in the 512-byte units of i_blocks. */
    ghost function ClusterSize(): nat { Times(secPerClus, dev.bs) }

    ghost function ClusterUnits(): nat { Times(secPerClus, dev.bs / 512) }

    /** Where clusters, and the directory entries in them, lie. */
    ghost function Map(): Mapping.Area { Mapping.Area(secPerClus, dataStart, dev.bs / 32) }

    ghost function ClusToBlk(c: int): nat
      requires c >= FAT_START_ENT
    {
      Mapping.ClusToBlk(Map(), c)
    }

    /** Where the next-fit scan begins. */
    ghost function Start(): nat
      reads this`prevFree
    {
      Wrap(dev.maxCluster, prevFree + 1)
    }

    /** Every FAT entry write of an allocation or a freeing goes through here: it must leave
        the chains live at that moment, and the pending one, well formed and disjoint. */
    method Put(h: FatEnt, ghost e: nat, v: int, ghost pending': seq<int>, ghost m: Move)
      requires Inv() && dev.At(h, e) && Legal(dev.kind, v)
      requires SnapOk(Snapshot(dev.ents[e := v], live, pending')) && MoveOk(Now(), Snapshot(dev.ents[e := v], live, pending'), m)
      modifies this`pending, this`trace, dev, dev.data
      ensures Inv() && pending == pending' && trace == old(trace) + [Now()]
      ensures LogGrows(old(trace), trace, live, {})
      ensures dev.ents == old(dev.ents)[e := v]
      ensures dev.stale == old(dev.stale) + dev.BlocksOf(e)
      ensures dev.BlocksOf(e) == AsSet(Buffers(h))
      ensures dev.BlocksOf(e) <= dev.Primary()
    {
      ghost var t0, now := trace, Now();
      dev.EntPut(h, e, v);
      pending := pending';
      trace := trace + [Now()];
      WriteIsOne(now.fat, e, v);
      GrowsOne(t0, now, Now(), m, live, {});
    }

    /** fat_ent_write: one entry, mirrored at once; the chain of file id changes with it. */
    method EntWrite(h: FatEnt, ghost e: nat, v: int, ghost live': Live, ghost pending': seq<int>, ghost m: Move, ghost id: nat)
      requires Inv() && dev.At(h, e) && Legal(dev.kind, v) && LiveBut(live', live, {id})
      requires SnapOk(Snapshot(dev.ents[e := v], live', pending')) && MoveOk(Now(), Snapshot(dev.ents[e := v], live', pending'), m)
      modifies this`live, this`pending, this`trace, dev, dev.data
      ensures Inv() && live == live' && pending == pending' && LogGrows(old(trace), trace, old(live), {id})
      ensures dev.ents == old(dev.ents)[e := v]
      ensures dev.stale <= old(dev.stale)
    {
      ghost var t0, now := trace, Now();
      dev.EntPut(h, e, v);
      live, pending := live', pending';
      trace := trace + [Now()];
      WriteIsOne(now.fat, e, v);
      GrowsOne(t0, now, Now(), m, now.live, {id});
      dev.Mirror(Buffers(h));
    }

    /** A change of one live chain without a FAT write: a file's first cluster is set. */
    ghost method SetLive(live': Live, pending': seq<int>, m: Move, id: nat)
      requires Inv() && LiveBut(live', live, {id})
      requires SnapOk(Snapshot(dev.ents, live', pending')) && MoveOk(Now(), Snapshot(dev.ents, live', pending'), m)
      modifies this`live, this`pending, this`trace
      ensures Inv() && live == live' && pending == pending' && LogGrows(old(trace), trace, old(live), {id})
    {
      ghost var t0, now := trace, Now();
      live, pending := live', pending';
      trace := trace + [Now()];
      GrowsOne(t0, now, Now(), m, now.live, {id});
    }

    /** A file comes to be known, with the chain that its directory entry names. */
    ghost method OpenFile(id: nat, c: seq<int>)
      requires Inv() && id !in live && pending == []
      requires c != [] ==> IsChain(dev.ents, c) && Unowned(live, c)
      modifies this`live, this`trace
      ensures Inv() && live == old(live)[id := c] && trace == old(trace) + [Now()]
      ensures old(LogOk(trace)) ==> LogOk(trace)
    {
      ghost var t0, now := trace, Now();
      OneMoreLive(dev.ents, live, id, c);
      live := live[id := c];
      trace := trace + [Now()];
      assert MoveOk(now, Now(), Open(id, c));
      LogOneMore(t0, Now());
    }

    /** The two entry writes of an allocation: first EOF into the new entry, and only then
        the link to it; in the other order the pending chain would not end in EOF. */
    method LinkEntry(h: FatEnt, ghost e: nat, prevEnt: FatEnt)
      requires Valid() && dev.At(h, e) && dev.ents[e] == FAT_ENT_FREE
      requires pending != [] ==> IsChain(dev.ents, pending) && dev.At(prevEnt, pending[|pending| - 1])
      requires pending == [] ==> prevEnt.nrBhs == 0
      requires Unowned(live, pending)
      modifies this`pending, this`trace, dev, dev.data
      ensures Inv() && pending == old(pending) + [e] && LogGrows(old(trace), trace, live, {})
      ensures dev.ents == LinkNext(old(dev.ents), old(pending), e)
      ensures FreeCount(dev.ents) == FreeCount(old(dev.ents)) - 1
      ensures dev.stale <= old(dev.stale) + dev.Blocks(pending)
      ensures dev.BlocksOf(e) == AsSet(Buffers(h))
      ensures dev.BlocksOf(e) <= dev.Primary()
    {
      ghost var t0, cs := trace, pending;
      dev.BlocksAppend(cs, e);
      FreeIsUnowned(dev.ents, live, e);
      if cs != [] {
        ChainEntriesUsed(dev.ents, cs);
      }
      CountAfterPut(dev.ents, 2, |dev.ents|, e, FAT_ENT_EOF);
      if prevEnt.nrBhs == 0 {
        FirstTaken(Now(), e);
        Put(h, e, FAT_ENT_EOF, [e], Take(e));
      } else {
        OutsideOk(Now(), e, FAT_ENT_EOF);
        Put(h, e, FAT_ENT_EOF, cs, Stay);
        ghost var t1, last := trace, cs[|cs| - 1];
        assert dev.BlocksOf(last) <= dev.Blocks(cs);
        NextTaken(Now(), e);
        CountAfterPut(dev.ents, 2, |dev.ents|, last, e);
        Put(prevEnt, last, h.entry, cs + [e], Take(e));
        GrowsOn(t0, t1, trace, live);
      }
    }

    /** One free entry found by the scan: link it, collect its buffers, count it. */
    method TakeEntry(h: FatEnt, ghost e: nat, prevEnt: FatEnt, bhs: seq<nat>) returns (bhs': seq<nat>)
      requires Valid() && dev.At(h, e) && dev.ents[e] == FAT_ENT_FREE
      requires pending != [] ==> IsChain(dev.ents, pending) && dev.At(prevEnt, pending[|pending| - 1])
      requires pending == [] ==> prevEnt.nrBhs == 0
      requires Unowned(live, pending)
      requires AsSet(bhs) == dev.Blocks(pending)
      requires AsSet(bhs) <= dev.Primary()
      requires |bhs| <= 2 * |pending|
      modifies this`pending, this`trace, this`prevFree, this`freeClusters, dev, dev.data
      ensures Valid() && pending == old(pending) + [e]
      ensures LogGrows(old(trace), trace, live, {})
      ensures dev.ents == LinkNext(old(dev.ents), old(pending), e)
      ensures prevFree == e
      ensures dev.stale <= old(dev.stale) + AsSet(bhs')
      ensures AsSet(bhs') == dev.Blocks(pending)
      ensures AsSet(bhs') <= dev.Primary()
      ensures |bhs'| <= 2 * |pending|
    {
      dev.BlocksAppend(pending, e);
      LinkEntry(h, e, prevEnt);
      bhs' := CollectBhs(bhs, h);
      prevFree := h.entry;
      if freeClusters != UNKNOWN {
        freeClusters := if freeClusters == 0 then UNKNOWN else freeClusters - 1;
      }
    }

    /** One entry freed: cleared, counted, and its buffers queued for mirroring, with the
        queue flushed before it could overflow. A pending chain is given back from its head. */
    method FreeEntry(h: FatEnt, ghost e: nat, bhs: seq<nat>, ghost rest: seq<int>) returns (bhs': seq<nat>)
      requires Valid() && dev.At(h, e) && dev.ents[e] != FAT_ENT_FREE && !Owned(live, e)
      requires if pending == [] then rest == [] else pending == [e] + rest && IsChain(dev.ents, pending) && Unowned(live, pending)
      requires |bhs| <= MAX_BUF_PER_PAGE && AsSet(bhs) <= dev.Primary()
      modifies this`pending, this`trace, this`freeClusters, dev, dev.data
      ensures Valid() && LogGrows(old(trace), trace, live, {}) && |trace| == |old(trace)| + 1
      ensures pending == rest
      ensures pending != [] ==> IsChain(dev.ents, pending)
      ensures dev.ents == old(dev.ents)[e := FAT_ENT_FREE]
      ensures |bhs'| <= MAX_BUF_PER_PAGE && AsSet(bhs') <= dev.Primary()
      ensures dev.stale - AsSet(bhs') <= old(dev.stale) - AsSet(bhs) - dev.BlocksOf(e)
    {
      CountAfterPut(dev.ents, 2, |dev.ents|, e, FAT_ENT_FREE);
      if pending == [] {
        OutsideOk(Now(), e, FAT_ENT_FREE);
      } else {
        HeadReleased(Now(), e, rest);
      }
      Put(h, e, FAT_ENT_FREE, rest, if pending == [] then Stay else Release(e));
      if freeClusters != UNKNOWN {
        freeClusters := freeClusters + 1;
      }
      bhs' := bhs;
      if |bhs| + h.nrBhs > MAX_BUF_PER_PAGE {
        dev.Mirror(bhs);
        bhs' := [];
      }
      bhs' := CollectBhs(bhs', h);
    }

    /** sb_issue_discard for count clusters from first on. */
    ghost method IssueDiscard(first: int, count: int)
      modifies this`discarded
      ensures discarded == old(discarded) + Run(first, count)
    {
      discarded := discarded + Run(first, count);
    }

    /** Extend the pending run by an entry, or discard the run when the chain jumps. */
    method BatchDiscard(entry: int, next: int, first: int) returns (first': int)
      requires first <= entry
      modifies this`discarded
      ensures first' <= next && (next != entry + 1 ==> first' == next)
      ensures discarded + Run(first', next - first') == old(discarded) + Run(first, entry - first) + [entry]
    {
      first' := first;
      if next != entry + 1 {
        var count := entry - first + 1;
        IssueDiscard(first, count);
        first' := next;
      }
    }

    /** The rest of the loop body of fat_free_clusters, after the entry was read. */
    method FreeStep(h: FatEnt, next: int, first: int, bhs: seq<nat>, ghost e: nat, ghost s0: FreeStart, ghost freed: seq<int>)
      returns (first': int, bhs': seq<nat>)
      requires Valid() && dev.At(h, e) && dev.ents[e] == next != FAT_ENT_FREE && Unowned(live, s0.r0.freed)
      requires Freeing(dev, dev.ents, dev.stale, pending, discarded, s0, freed, e, first, bhs, true)
      modifies this`pending, this`trace, this`freeClusters, this`discarded, dev, dev.data
      ensures Valid() && LogGrows(old(trace), trace, live, {}) && |trace| == |old(trace)| + 1
      ensures FreeCount(dev.ents) == FreeCount(old(dev.ents)) + 1 && |dev.ents| == |old(dev.ents)|
      ensures Freeing(dev, dev.ents, dev.stale, pending, discarded, s0, freed + [e], next, first', bhs', next != FAT_ENT_EOF)
    {
      ghost var f, stale, pend, disc := dev.ents, dev.stale, pending, discarded;
      ghost var rest := NextFreed(dev, f, stale, pend, disc, s0, freed, e, first, bhs, live);
      first' := BatchDiscard(h.entry, next, first);
      bhs' := FreeEntry(h, e, bhs, rest);
      FreedOne(dev, f, stale, pend, disc, s0, freed, e, first, bhs, dev.stale, rest, discarded, first', bhs');
    }

    /** fat_free_clusters: clears the chain from `cluster` on, with the discards batched
        per contiguous run, and mirrors the changed blocks.  It may be given any FAT; a chain
        that is pending is given back cluster by cluster, each write logged. */
    method FreeClusters(cluster: int) returns (err: int)
      requires Valid()
      requires Unowned(live, FreeWalk(dev.ents, cluster, EIO).freed)
      requires pending != [] ==> IsChain(dev.ents, pending) && pending == FreeWalk(dev.ents, cluster, EIO).freed
      modifies this`pending, this`trace, this`freeClusters, this`discarded, dev, dev.data
      ensures Valid() && LogGrows(old(trace), trace, live, {})
      ensures |trace| == |old(trace)| + |FreeWalk(old(dev.ents), cluster, EIO).freed|
      ensures err == 0 ==> pending == []
      ensures err == FreeWalk(old(dev.ents), cluster, EIO).err
      ensures dev.ents == FreeWalk(old(dev.ents), cluster, EIO).fat
      ensures err == 0 ==> discarded == old(discarded) + FreeWalk(old(dev.ents), cluster, EIO).freed
      ensures err == 0 ==> dev.stale <= old(dev.stale) - dev.Blocks(FreeWalk(old(dev.ents), cluster, EIO).freed)
    {
      ghost var s0 := FreeStart(FreeWalk(dev.ents, cluster, EIO), discarded, dev.stale);
      WalkAtStart(dev.ents, cluster, EIO);
      err := FreeFrom(cluster, s0);
    }

    /** The loop of fat_free_clusters. */
    method FreeFrom(cluster: int, ghost s0: FreeStart) returns (err: int)
      requires Valid() && Unowned(live, s0.r0.freed)
      requires Freeing(dev, dev.ents, dev.stale, pending, discarded, s0, [], cluster, cluster, [], true)
      modifies this`pending, this`trace, this`freeClusters, this`discarded, dev, dev.data
      ensures Valid() && LogGrows(old(trace), trace, live, {}) && |trace| == |old(trace)| + |s0.r0.freed|
      ensures err == s0.r0.err && dev.ents == s0.r0.fat
      ensures err == 0 ==> pending == [] && discarded == s0.disc0 + s0.r0.freed && dev.stale <= s0.stale0 - dev.Blocks(s0.r0.freed)
    {
      ghost var t0 := trace;
      var cl, firstCl, h, bhs := cluster, cluster, FatEntInit(), [];
      ghost var freed := [];
      var more := true; // do ... while (cluster != FAT_ENT_EOF)
      while more
        invariant Valid() && LogGrows(t0, trace, live, {}) && |trace| == |t0| + |freed|
        invariant h.nrBhs <= 2 && (dev.kind != Fat12 ==> h.nrBhs <= 1)
        invariant Freeing(dev, dev.ents, dev.stale, pending, discarded, s0, freed, cl, firstCl, bhs, more)
        decreases |dev.ents| - FreeCount(dev.ents)
      {
        var next;
        next, h := dev.EntRead(h, cl);
        if next < 0 {
          WalkAtStop(s0.r0, freed, dev.ents, cl, EIO);
          return next;
        } else if next == FAT_ENT_FREE {
          WalkAtStop(s0.r0, freed, dev.ents, cl, EIO);
          return EIO;
        }
        ghost var t1 := trace;
        firstCl, bhs := FreeStep(h, next, firstCl, bhs, cl, s0, freed);
        GrowsOn(t0, t1, trace, live);
        freed := freed + [cl];
        cl := next;
        more := cl != FAT_ENT_EOF;
      }
      dev.Mirror(bhs);
      err := 0;
    }

    /** The scan's loop body: look at one entry and take it when it is free. */
    method ScanStep(h: FatEnt, prevEnt: FatEnt, cs: seq<int>, bhs: seq<nat>,
                    ghost s0: ScanFrom, ghost n: nat)
      returns (prevEnt': FatEnt, cs': seq<int>, bhs': seq<nat>)
      requires Valid() && Scanning(dev, dev.ents, dev.stale, pending, s0, n, cs, bhs, prevEnt) && LiveOk(s0.f0, live)
      requires n < |s0.f0| - 2 && dev.At(h, ScanPos(|s0.f0|, s0.p, n))
      modifies this`pending, this`trace, this`prevFree, this`freeClusters, dev, dev.data
      ensures Valid() && LogGrows(old(trace), trace, live, {})
      ensures (cs' == cs && prevFree == old(prevFree)) || cs' == cs + [prevFree]
      ensures Scanning(dev, dev.ents, dev.stale, pending, s0, n + 1, cs', bhs', prevEnt')
    {
      prevEnt', cs', bhs' := prevEnt, cs, bhs;
      ghost var e, f, stale := ScanPos(|s0.f0|, s0.p, n), dev.ents, dev.stale;
      NextMet(dev, f, stale, pending, s0, n, cs, bhs, prevEnt, live);
      var val := dev.EntGet(h, e);
      if val == FAT_ENT_FREE {
        bhs' := TakeEntry(h, e, prevEnt, bhs);
        cs' := cs + [h.entry];
        prevEnt' := h;
        TakenOne(dev, f, stale, cs, s0, n, cs, bhs, prevEnt, e, dev.stale, bhs', h);
      } else {
        PassedOver(dev, f, stale, pending, s0, n, cs, bhs, prevEnt);
      }
    }

    /** The loop body of ScanBlock: one entry, and on to the next one in this block. */
    method ScanEntry(h: FatEnt, prevEnt: FatEnt, cs: seq<int>, bhs: seq<nat>, nr: nat, count: nat, ghost s0: ScanFrom, ghost n: nat)
      returns (h': FatEnt, prevEnt': FatEnt, cs': seq<int>, bhs': seq<nat>, count': nat, inBlock: bool)
      requires Valid() && LiveOk(s0.f0, live)
      requires Scanning(dev, dev.ents, dev.stale, pending, s0, n, cs, bhs, prevEnt) && GoesOn(dev, prevFree, s0, h, n, cs, nr, count, true)
      modifies this`pending, this`trace, this`prevFree, this`freeClusters, dev, dev.data
      ensures Valid() && LogGrows(old(trace), trace, live, {})
      ensures Scanning(dev, dev.ents, dev.stale, pending, s0, n + 1, cs', bhs', prevEnt')
      ensures GoesOn(dev, prevFree, s0, h', n + 1, cs', nr, count', inBlock)
    {
      h', count', inBlock := h, count, false;
      prevEnt', cs', bhs' := ScanStep(h, prevEnt, cs, bhs, s0, n);
      if |cs'| == nr {
        return;
      }
      count' := count' + 1;
      if count' == dev.maxCluster {
        return;
      }
      inBlock, h' := dev.FatEntNext(h', ScanPos(|s0.f0|, s0.p, n));
    }

    /** The inner do-while loop: scan on inside the block just read. */
    method ScanBlock(h: FatEnt, prevEnt: FatEnt, cs: seq<int>, bhs: seq<nat>, nr: nat, count: nat, ghost s0: ScanFrom, ghost n0: nat)
      returns (h': FatEnt, prevEnt': FatEnt, cs': seq<int>, bhs': seq<nat>, count': nat, ghost n: nat)
      requires Valid() && LiveOk(s0.f0, live)
      requires Scanning(dev, dev.ents, dev.stale, pending, s0, n0, cs, bhs, prevEnt) && GoesOn(dev, prevFree, s0, h, n0, cs, nr, count, true)
      modifies this`pending, this`trace, this`prevFree, this`freeClusters, dev, dev.data
      ensures Valid() && LogGrows(old(trace), trace, live, {}) && n0 < n
      ensures Scanning(dev, dev.ents, dev.stale, pending, s0, n, cs', bhs', prevEnt') && GoesOn(dev, prevFree, s0, h', n, cs', nr, count', false)
    {
      ghost var t0 := trace;
      h', prevEnt', cs', bhs', count', n := h, prevEnt, cs, bhs, count, n0;
      var inBlock := true;
      while inBlock
        invariant Valid() && LogGrows(t0, trace, live, {}) && n0 <= n && (n0 == n ==> inBlock)
        invariant Scanning(dev, dev.ents, dev.stale, pending, s0, n, cs', bhs', prevEnt')
        invariant GoesOn(dev, prevFree, s0, h', n, cs', nr, count', inBlock)
        decreases dev.maxCluster - n, inBlock
      {
        ghost var t1 := trace;
        h', prevEnt', cs', bhs', count', inBlock := ScanEntry(h', prevEnt', cs', bhs', nr, count', s0, n);
        GrowsOn(t0, t1, trace, live);
        n := n + 1;
      }
    }

    /** The scan of fat_alloc_clusters over all blocks. */
    method Scan(nr: nat) returns (cs: seq<int>, bhs: seq<nat>, prevEnt: FatEnt, ghost n: nat)
      requires Valid() && 1 <= nr && pending == []
      modifies this`pending, this`trace, this`prevFree, this`freeClusters, dev, dev.data
      ensures Valid() && LogGrows(old(trace), trace, live, {})
      ensures Scanning(dev, dev.ents, dev.stale, pending, old(ScanFrom(dev.ents, dev.stale, Start())), n, cs, bhs, prevEnt)
      ensures |cs| <= nr && (|cs| < nr ==> n == |old(dev.ents)| - 2) && (|cs| == nr ==> prevFree == cs[nr - 1])
    {
      ghost var s0, t0 := ScanFrom(dev.ents, dev.stale, Start()), trace;
      var count: nat, h := FAT_START_ENT, SetEntry(FatEntInit(), prevFree + 1);
      cs, bhs, prevEnt, n := [], [], FatEntInit(), 0;
      while count < dev.maxCluster && |cs| < nr
        invariant Valid() && LogGrows(t0, trace, live, {})
        invariant Scanning(dev, dev.ents, dev.stale, pending, s0, n, cs, bhs, prevEnt) && GoesOn(dev, prevFree, s0, h, n, cs, nr, count, false)
        decreases dev.maxCluster - n
      {
        if h.entry >= dev.maxCluster {
          h := SetEntry(h, FAT_START_ENT);
        }
        h := SetEntry(h, h.entry);
        h := dev.EntReadBlock(h);
        ghost var t1 := trace;
        h, prevEnt, cs, bhs, count, n := ScanBlock(h, prevEnt, cs, bhs, nr, count, s0, n);
        GrowsOn(t0, t1, trace, live);
      }
    }

    /** What the scan comes to: nr clusters or, when fewer are free, all that are. */
    method TakeFree(nr: nat) returns (cs: seq<int>, bhs: seq<nat>)
      requires Valid() && 1 <= nr && pending == []
      modifies this`pending, this`trace, this`prevFree, this`freeClusters, dev, dev.data
      ensures Valid() && LogGrows(old(trace), trace, live, {})
      ensures pending == cs && |cs| <= nr && (|cs| == nr <==> FreeCount(old(dev.ents)) >= nr)
      ensures |cs| == nr ==> cs == FirstFree(old(dev.ents), old(Start()), nr) && prevFree == cs[nr - 1]
      ensures dev.ents == Linked(old(dev.ents), cs) && AllFree(old(dev.ents), cs) && (cs != [] ==> IsChain(dev.ents, cs))
      ensures |cs| < nr ==> FreeCount(dev.ents) == 0
      ensures Cleared(dev.ents, cs) == old(dev.ents)
      ensures AsSet(bhs) == dev.Blocks(cs) && AsSet(bhs) <= dev.Primary() && |bhs| <= 2 * |cs|
      ensures dev.stale <= old(dev.stale) + AsSet(bhs)
    {
      ghost var f0, p := dev.ents, Start();
      var prevEnt;
      ghost var n;
      cs, bhs, prevEnt, n := Scan(nr);
      ScanOutcome(f0, p, n, nr);
      MetLinked(f0, p, n, cs);
    }

    /** The way out of a failed allocation: the scan took every free entry, so the count is
        exact again; then they are given back. */
    method Rollback(cluster: seq<int>, ghost f0: Fat)
      requires Inv() && 2 <= prevFree <= dev.maxCluster && pending == cluster && LiveOk(f0, live)
      requires FreeCount(dev.ents) == 0 && AllFree(f0, cluster) && Cleared(dev.ents, cluster) == f0
      requires cluster != [] ==> IsChain(dev.ents, cluster)
      modifies this`pending, this`trace, this`freeClusters, this`freeClusValid, this`discarded, dev, dev.data
      ensures Valid() && LogGrows(old(trace), trace, live, {}) && pending == []
      ensures dev.ents == f0 && freeClusValid
      ensures dev.stale <= old(dev.stale) - dev.Blocks(cluster)
    {
      freeClusters, freeClusValid := 0, true;
      if |cluster| > 0 {
        FreeWalkOfChain(dev.ents, cluster, EIO);
        FreeAreUnowned(f0, live, cluster);
        var err := FreeClusters(cluster[0]);
        assert err == 0;
      } else {
        assert dev.ents == Cleared(dev.ents, cluster);
      }
    }

    /** fat_alloc_clusters: the first nr free entries in cyclic order, linked in that
        order, which are then pending; or -ENOSPC, exactly when fewer are free, with
        everything put back. */
    method AllocClusters(nr: nat) returns (err: int, cluster: seq<int>)
      requires Valid() && 1 <= nr <= MAX_BUF_PER_PAGE / 2 && pending == []
      modifies this`pending, this`trace, this`prevFree, this`freeClusters, this`freeClusValid, this`discarded, dev, dev.data
      ensures Valid() && LogGrows(old(trace), trace, live, {})
      ensures err == 0 <==> FreeCount(old(dev.ents)) >= nr
      ensures pending == if err == 0 then cluster else []
      ensures err == 0 ==> |cluster| == nr && cluster == FirstFree(old(dev.ents), old(Start()), nr)
      ensures err == 0 ==> AllFree(old(dev.ents), cluster) && IsChain(dev.ents, cluster) && dev.ents == Linked(old(dev.ents), cluster)
      ensures err == 0 ==> prevFree == cluster[nr - 1] && freeClusValid == old(freeClusValid)
      ensures err != 0 ==> err == ENOSPC && dev.ents == old(dev.ents) && freeClusValid
      ensures dev.stale <= old(dev.stale)
    {
      if freeClusters != UNKNOWN && freeClusValid && freeClusters < nr {
        return ENOSPC, [];
      }
      ghost var f0, t0 := dev.ents, trace;
      var bhs;
      cluster, bhs := TakeFree(nr);
      if |cluster| == nr {
        assert |bhs| <= MAX_BUF_PER_PAGE;
        dev.Mirror(bhs);
        err := 0;
      } else {
        ghost var t1 := trace;
        Rollback(cluster, f0);
        GrowsOn(t0, t1, trace, live);
        err := ENOSPC;
      }
    }

    /** fat_count_free_clusters: from here on the count is trusted. */
    method CountFreeClusters()
      requires Valid()
      modifies this`freeClusters, this`freeClusValid
      ensures Valid() && freeClusValid && freeClusters == FreeCount(dev.ents)
    {
      if freeClusters != UNKNOWN && freeClusValid {
        return;
      }
      var free, h := 0, SetEntry(FatEntInit(), FAT_START_ENT);
      while h.entry < dev.maxCluster
        invariant 2 <= h.entry <= dev.maxCluster && free == CountRange(dev.ents, 2, h.entry)
      {
        ghost var start := h.entry;
        h := dev.EntReadBlock(h);
        var inBlock := true;
        while inBlock
          invariant 2 <= h.entry <= dev.maxCluster && free == CountRange(dev.ents, 2, h.entry)
          invariant inBlock ==> dev.At(h, h.entry)
          invariant !inBlock ==> start < h.entry
          invariant start <= h.entry
          decreases dev.maxCluster - h.entry, inBlock
        {
          ghost var e := h.entry;
          var val := dev.EntGet(h, e);
          if val == FAT_ENT_FREE {
            free := free + 1;
          }
          inBlock, h := dev.FatEntNext(h, e);
        }
      }
      freeClusters, freeClusValid := free, true;
    }
  }
}
