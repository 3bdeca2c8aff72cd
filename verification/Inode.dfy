/** The in-memory inode: its cluster-run cache (cache.c), block mapping, growing and
    truncating (inode.c, misc.c, file.c). */
module Inodes {
  import opened Arith
  import opened Packing
  import opened FatDevices
  import opened Chains
  import opened Logs
  import opened Volumes
  import opened Walks
  import opened BlockMath
  import opened Machine
  import opened Mapping

  const FAT_MAX_CACHE := 8
  const FAT_CACHE_VALID := 0

  /** struct fat_cache_id: a run together with the generation it was seen in. */
  datatype CacheId = CacheId(id: int, run: CacheRun)

  class Inode {
    const vol: Volume
    const ino: nat
    /** s_maxbytes >> cluster_bits */
    const limit: nat

    var iStart: int
    var iSize: nat
    var iBlocks: nat
    var mmuPrivate: nat
    /** cache_lru, most recently used first. */
    var cacheLru: seq<CacheRun>
    var nrCaches: int
    var cacheValidId: int

    /** fat_fill_inode for a regular file: what its directory entry says of start and size. */
    constructor (vol: Volume, ino: nat, limit: nat, start: int, size: nat)
      requires vol.Layout()
      ensures fresh(this) && this.vol == vol && this.ino == ino && this.limit == limit
      ensures iStart == start && iSize == mmuPrivate == size
      ensures iBlocks == Times(CeilDiv(size, vol.ClusterSize()), vol.ClusterUnits())
      ensures cacheLru == [] && nrCaches == 0 && cacheValidId == FAT_CACHE_VALID + 1
    {
      this.vol, this.ino, this.limit := vol, ino, limit;
      iStart, iSize, mmuPrivate := start, size, size;
      iBlocks := RoundedUnits(vol, size);
      cacheLru, nrCaches, cacheValidId := [], 0, FAT_CACHE_VALID + 1;
    }

    // ----- the cache

    /** Every cached run is what a walk on the FAT f would find. */
    ghost predicate CacheOk(f: Fat)
      reads this`iStart, this`cacheLru, this`nrCaches, this`cacheValidId
    {
      && nrCaches == |cacheLru| <= FAT_MAX_CACHE
      && 0 < cacheValidId < U32
      && RunsOk(f, iStart, limit, cacheLru)
    }

    /** fat_cache_update_lru. */
    method UpdateLru(i: nat)
      requires i < |cacheLru|
      modifies this`cacheLru
      ensures cacheLru == ToFront(old(cacheLru), i)
    {
      if i != 0 {
        cacheLru := [cacheLru[i]] + cacheLru[..i] + cacheLru[i + 1..];
      } else {
        assert cacheLru == ToFront(cacheLru, 0);
      }
    }

    /** The search of fat_cache_lookup: the run that holds fclus, or else the nearest one
        before it; hit is -1 when every run starts later. */
    method FindHit(fclus: int, ghost f: Fat) returns (hit: int, offset: int)
      requires CacheOk(f)
      ensures -1 <= hit < |cacheLru|
      ensures hit == -1 ==> offset == -1 && forall k :: 0 <= k < |cacheLru| ==> fclus < cacheLru[k].fcluster
      ensures hit >= 0 ==> 0 <= offset <= cacheLru[hit].nrContig && cacheLru[hit].fcluster + offset <= fclus
      ensures hit >= 0 && cacheLru[hit].fcluster + offset < fclus ==> offset == cacheLru[hit].nrContig
      ensures hit >= 0 && cacheLru[hit].fcluster + offset < fclus ==>
        forall r :: r in cacheLru && r.fcluster <= fclus ==> r.fcluster <= cacheLru[hit].fcluster
    {
      hit, offset := -1, -1;
      for i := 0 to |cacheLru|
        invariant -1 <= hit < i
        invariant hit == -1 ==> offset == -1 && forall k :: 0 <= k < i ==> fclus < cacheLru[k].fcluster
        invariant hit >= 0 ==> cacheLru[hit].fcluster + cacheLru[hit].nrContig < fclus && 0 <= offset == cacheLru[hit].nrContig
        invariant hit >= 0 ==> forall k :: 0 <= k < i && cacheLru[k].fcluster <= fclus ==> cacheLru[k].fcluster <= cacheLru[hit].fcluster
      {
        var p := cacheLru[i];
        assert RunOk(f, iStart, limit, p);
        var hitFcluster := if hit == -1 then 0 else cacheLru[hit].fcluster;
        if p.fcluster <= fclus && hitFcluster < p.fcluster {
          hit := i;
          if p.fcluster + p.nrContig < fclus {
            offset := p.nrContig;
          } else {
            offset := fclus - p.fcluster;
            break;
          }
        }
      }
    }

    /** fat_cache_lookup. */
    method CacheLookup(fclus: int, ghost f: Fat) returns (offset: int, cid: CacheId, cachedFclus: int, cachedDclus: int)
      requires CacheOk(f)
      modifies this`cacheLru
      ensures CacheOk(f)
      ensures offset < 0 ==> cacheLru == old(cacheLru) && forall r :: r in cacheLru ==> fclus < r.fcluster
      ensures offset >= 0 ==> |cacheLru| > 0 && cacheLru[0] == cid.run && cid.id == cacheValidId
      ensures offset >= 0 ==> exists i :: 0 <= i < |old(cacheLru)| && cacheLru == ToFront(old(cacheLru), i)
      ensures offset >= 0 ==> offset <= cid.run.nrContig && cachedFclus == cid.run.fcluster + offset <= fclus && cachedDclus == cid.run.dcluster + offset
      ensures offset >= 0 && cachedFclus < fclus ==> offset == cid.run.nrContig
    {
      var hit;
      hit, offset := FindHit(fclus, f);
      cid, cachedFclus, cachedDclus := CacheId(0, CacheRun(0, 0, 0)), 0, 0;
      if hit >= 0 {
        cid := CacheId(cacheValidId, cacheLru[hit]);
        cachedFclus := cid.run.fcluster + offset;
        cachedDclus := cid.run.dcluster + offset;
        ToFrontOk(f, iStart, limit, cacheLru, hit);
        UpdateLru(hit);
      }
    }

    /** fat_cache_merge: the entry that starts at the same file cluster, or -1. The assert is
        the source's BUG_ON, negated. */
    method CacheMerge(run: CacheRun, ghost f: Fat) returns (at: int)
      requires CacheOk(f) && RunOk(f, iStart, limit, run)
      modifies this`cacheLru
      ensures var i := FindRun(old(cacheLru), run.fcluster);
        if i < |old(cacheLru)| then at == i && cacheLru == old(cacheLru)[i := Longer(old(cacheLru)[i], run)]
        else at == -1 && cacheLru == old(cacheLru)
    {
      AddRunOk(f, iStart, limit, cacheLru, run, FAT_MAX_CACHE);
      at := 0;
      while at < |cacheLru|
        invariant 0 <= at <= FindRun(cacheLru, run.fcluster)
      {
        var p := cacheLru[at];
        if p.fcluster == run.fcluster {
          assert p.dcluster == run.dcluster;
          if run.nrContig > p.nrContig {
            cacheLru := cacheLru[at := p.(nrContig := run.nrContig)];
          }
          return;
        }
        at := at + 1;
      }
      at := -1;
    }

    /** fat_cache_add, sequentially: nothing happens while the lock is dropped, so the second
        merge finds nothing either. */
    method CacheAdd(cid: CacheId, ghost f: Fat)
      requires CacheOk(f)
      requires cid.run.fcluster != -1 ==> RunOk(f, iStart, limit, cid.run)
      modifies this`cacheLru, this`nrCaches
      ensures CacheOk(f)
      ensures cacheLru == if cid.run.fcluster == -1 || (cid.id != FAT_CACHE_VALID && cid.id != cacheValidId)
        then old(cacheLru) else AddRun(old(cacheLru), cid.run, FAT_MAX_CACHE)
    {
      if cid.run.fcluster == -1 {
        return;
      }
      if cid.id != FAT_CACHE_VALID && cid.id != cacheValidId {
        return;
      }
      AddRunOk(f, iStart, limit, cacheLru, cid.run, FAT_MAX_CACHE);
      var at := CacheMerge(cid.run, f);
      if at >= 0 {
        UpdateLru(at);
      } else if nrCaches < FAT_MAX_CACHE {
        nrCaches := nrCaches + 1;
        cacheLru := [cid.run] + cacheLru;
      } else {
        var last := |cacheLru| - 1;
        cacheLru := cacheLru[last := cid.run];
        ghost var before := cacheLru;
        UpdateLru(last);
        assert before[..last] == old(cacheLru)[..last] && before[last + 1..] == [];
      }
    }

    /** fat_cache_inval_inode: drop every run and start a new generation. */
    method CacheInval()
      requires nrCaches == |cacheLru| && 0 < cacheValidId < U32
      modifies this`cacheLru, this`nrCaches, this`cacheValidId
      ensures cacheLru == [] && nrCaches == 0
      ensures 0 < cacheValidId < U32 && cacheValidId != old(cacheValidId)
      ensures cacheValidId == if old(cacheValidId) + 1 == U32 then FAT_CACHE_VALID + 1 else old(cacheValidId) + 1
    {
      while |cacheLru| != 0
        invariant nrCaches == |cacheLru|
        modifies this`cacheLru, this`nrCaches
        decreases |cacheLru|
      {
        cacheLru := cacheLru[1..];
        nrCaches := nrCaches - 1;
      }
      cacheValidId := (cacheValidId + 1) % U32;
      if cacheValidId == FAT_CACHE_VALID {
        cacheValidId := cacheValidId + 1;
      }
    }

    /** fat_cache_add, for callers who only need to know that the cache stays right. */
    method CacheStore(cid: CacheId, ghost f: Fat)
      requires CacheOk(f)
      requires cid.run.fcluster != -1 ==> RunOk(f, iStart, limit, cid.run)
      modifies this`cacheLru, this`nrCaches
      ensures CacheOk(f)
      ensures old(cacheLru) == [] ==> forall r :: r in cacheLru ==> r == cid.run && r.fcluster != -1
    {
      CacheAdd(cid, f);
    }

    /** The start of fat_get_cluster: from the cached run, if any, or else from cluster 0. */
    method StartWalk(cluster: int, ghost f: Fat) returns (fclus: int, dclus: int, cid: CacheId)
      requires CacheOk(f) && cluster != 0
      modifies this`cacheLru
      ensures CacheOk(f) && Tracking(f, iStart, limit, cluster, cid.run, fclus, dclus)
      ensures cid.id == FAT_CACHE_VALID || cid.id == cacheValidId
      ensures old(cacheLru) == [] ==> cacheLru == [] && cid.run.fcluster == -1
    {
      fclus, dclus := 0, iStart;
      var offset, cf, cd;
      offset, cid, cf, cd := CacheLookup(cluster, f);
      if offset < 0 {
        cid := CacheId(FAT_CACHE_VALID, CacheRun(0, -1, -1));
      } else {
        fclus, dclus := cf, cd;
        assert RunOk(f, iStart, limit, cid.run);
        TrackStart(f, iStart, limit, cluster, cid.run, offset);
      }
    }

    /** fat_get_cluster answers as the plain walk does, on any FAT and whatever is cached. */
    method GetCluster(cluster: int) returns (nr: int, fclus: int, dclus: int)
      requires vol.dev.Valid() && CacheOk(vol.dev.ents) && iStart != 0
      modifies this`cacheLru, this`nrCaches
      ensures CacheOk(vol.dev.ents)
      ensures Reply(nr, fclus, dclus) == Naive(vol.dev.ents, 0, iStart, cluster, limit)
      ensures old(cacheLru) == [] ==> forall r :: r in cacheLru ==> r.fcluster + r.nrContig == fclus
    {
      ghost var f := vol.dev.ents;
      fclus, dclus := 0, iStart;
      if cluster == 0 {
        return 0, fclus, dclus;
      }
      var cid;
      fclus, dclus, cid := StartWalk(cluster, f);
      var h := FatEntInit();
      while fclus < cluster
        invariant CacheOk(f) && Tracking(f, iStart, limit, cluster, cid.run, fclus, dclus)
        invariant h.nrBhs <= 2 && (vol.dev.kind != Fat12 ==> h.nrBhs <= 1)
        invariant cid.id == FAT_CACHE_VALID || cid.id == cacheValidId
        invariant old(cacheLru) == [] ==> cacheLru == [] && (cid.run.fcluster != -1 ==> cid.run.fcluster + cid.run.nrContig == fclus)
        decreases limit + 2 - fclus
      {
        TrackEnd(f, iStart, limit, cluster, cid.run, fclus, dclus);
        if fclus > limit {
          return EIO, fclus, dclus;
        }
        nr, h := vol.dev.EntRead(h, dclus);
        if nr < 0 {
          return nr, fclus, dclus;
        } else if nr == FAT_ENT_FREE {
          return EIO, fclus, dclus;
        } else if nr == FAT_ENT_EOF {
          CacheStore(cid, f);
          return nr, fclus, dclus;
        }
        cid := MoveOn(cid, cluster, fclus, dclus, nr, f);
        fclus := fclus + 1;
        dclus := nr;
      }
      TrackEnd(f, iStart, limit, cluster, cid.run, fclus, dclus);
      nr := 0;
      CacheStore(cid, f);
    }

    /** One cluster further: the run goes on, or another one begins. */
    method MoveOn(cid: CacheId, cluster: int, fclus: int, dclus: int, nr: int, ghost f: Fat) returns (cid': CacheId)
      requires Tracking(f, iStart, limit, cluster, cid.run, fclus, dclus) && fclus < cluster && fclus <= limit
      requires InRange(f, dclus) && f[dclus] == nr && nr != FAT_ENT_FREE && nr != FAT_ENT_EOF
      requires cid.id == FAT_CACHE_VALID || cid.id == cacheValidId
      ensures Tracking(f, iStart, limit, cluster, cid'.run, fclus + 1, nr)
      ensures cid'.id == FAT_CACHE_VALID || cid'.id == cacheValidId
      ensures cid'.run.fcluster != -1
      ensures cid.run.fcluster == -1 || cid.run.fcluster + cid.run.nrContig == fclus ==> cid'.run.fcluster + cid'.run.nrContig == fclus + 1
    {
      TrackOn(f, iStart, limit, cluster, cid.run, fclus, dclus);
      var contiguous;
      contiguous, cid' := CacheContiguous(cid, nr);
      if !contiguous {
        cid' := CacheId(FAT_CACHE_VALID, CacheRun(0, fclus + 1, nr));
      }
    }

    /** cache_contiguous. */
    method CacheContiguous(cid: CacheId, dclus: int) returns (ok: bool, r: CacheId)
      ensures r == cid.(run := cid.run.(nrContig := cid.run.nrContig + 1))
      ensures ok <==> r.run.dcluster + r.run.nrContig == dclus
    {
      r := cid.(run := cid.run.(nrContig := cid.run.nrContig + 1));
      ok := r.run.dcluster + r.run.nrContig == dclus;
    }

    // ----- the inode as the owner of a chain

    ghost function Chain(): seq<int>
      requires ino in vol.live
      reads vol`live
    {
      vol.live[ino]
    }

    /** The inode agrees with the volume about which chain is its own. */
    ghost predicate Owns()
      reads this`iStart, this`cacheLru, this`nrCaches, this`cacheValidId, vol`live, vol.dev`ents
    {
      && ino in vol.live
      && (if Chain() == [] then iStart == 0 && cacheLru == [] && nrCaches == 0 && 0 < cacheValidId < U32
          else iStart == Chain()[0] && iStart != 0 && CacheOk(vol.dev.ents))
    }

    ghost predicate Attached()
      reads this`iStart, this`cacheLru, this`nrCaches, this`cacheValidId, vol, vol.dev, vol.dev.data
    {
      vol.Valid() && vol.Layout() && Owns() && limit < FAT_ENT_EOF
    }

    ghost predicate Valid()
      reads this, vol, vol.dev, vol.dev.data
    {
      Attached() && iBlocks == Times(|Chain()|, vol.ClusterUnits())
    }

    /** Of a regular file: the clusters are exactly those its allocated size needs. */
    ghost predicate SizesOk()
      requires vol.Layout() && ino in vol.live
      reads this`iSize, this`mmuPrivate, vol`live
    {
      iSize <= mmuPrivate && |Chain()| == CeilDiv(mmuPrivate, vol.ClusterSize()) <= limit + 1
    }

    lemma ChainFacts()
      requires Attached() && Chain() != []
      ensures IsChain(vol.dev.ents, Chain()) && |vol.dev.ents| == vol.dev.maxCluster <= FAT_ENT_EOF
      ensures forall x :: x in Chain() ==> 2 <= x < vol.dev.maxCluster
    {
    }

    /** Walking to the end of the file's chain. */
    method FindLast() returns (err: int, last: int, n: int)
      requires Attached() && iStart != 0 && |Chain()| <= limit + 1
      modifies this`cacheLru, this`nrCaches
      ensures Attached() && err == 0
      ensures last == Chain()[|Chain()| - 1] != 0 && n == |Chain()| && vol.dev.ents[last] == FAT_ENT_EOF
    {
      ChainFacts();
      NaiveOnChain(vol.dev.ents, Chain(), FAT_ENT_EOF, limit);
      var fclus;
      err, fclus, last := GetCluster(FAT_ENT_EOF);
      n := fclus + 1;
      if err > 0 {
        err := 0;
      }
    }

    /** fat_chain_add for a file that has clusters: the last one now points at the new ones. */
    method LinkBehind(last: int, newDclus: int, ghost c: seq<int>, ghost new_: seq<int>)
      requires Attached() && c == Chain() != [] && last == c[|c| - 1]
      requires IsChain(vol.dev.ents, new_) && newDclus == new_[0] && Unowned(vol.live, new_) && vol.pending == new_
      modifies vol`live, vol`pending, vol`trace, vol.dev, vol.dev.data
      ensures Attached() && vol.pending == [] && LogGrows(old(vol.trace), vol.trace, old(vol.live), {ino})
      ensures vol.live == old(vol.live)[ino := c + new_] && vol.dev.ents == old(vol.dev.ents)[last := newDclus]
      ensures vol.dev.stale <= old(vol.dev.stale)
    {
      ghost var f := vol.dev.ents;
      ChainFacts();
      assert last in c && new_[0] in new_;
      var ret, h := vol.dev.EntRead(FatEntInit(), last);
      AppendLive(f, vol.live, ino, new_);
      CountLink(f, last, newDclus);
      vol.EntWrite(h, last, newDclus, vol.live[ino := c + new_], [], HandOver(ino), ino);
      RunsOkTransfer(f, c, vol.dev.ents, c + new_, limit, cacheLru);
    }

    /** The linking part of fat_chain_add; n is the number of clusters found. */
    method Link(newDclus: int, ghost new_: seq<int>) returns (err: int, n: int)
      requires Attached() && IsChain(vol.dev.ents, new_) && newDclus == new_[0]
      requires Unowned(vol.live, new_) && vol.pending == new_ && |Chain()| <= limit + 1
      modifies this`iStart, this`cacheLru, this`nrCaches, vol`live, vol`pending, vol`trace, vol.dev, vol.dev.data
      ensures Attached() && vol.pending == [] && LogGrows(old(vol.trace), vol.trace, old(vol.live), {ino})
      ensures err == 0 && n == |old(Chain())|
      ensures vol.live == old(vol.live)[ino := old(Chain()) + new_]
      ensures vol.dev.ents == if old(Chain()) == [] then old(vol.dev.ents) else old(vol.dev.ents)[old(Chain())[|old(Chain())| - 1] := newDclus]
      ensures vol.dev.stale <= old(vol.dev.stale)
    {
      ghost var c := Chain();
      assert new_[0] in new_;
      var last := 0;
      err, n := 0, 0;
      if iStart != 0 {
        err, last, n := FindLast();
      }
      if last != 0 {
        LinkBehind(last, newDclus, c, new_);
      } else {
        FirstLive(vol.dev.ents, vol.live, ino, new_);
        iStart := newDclus;
        vol.SetLive(vol.live[ino := c + new_], [], HandOver(ino), ino);
      }
    }

    /** fat_chain_add: hang the chain new_, which nobody owns yet, behind the file's last
        cluster. "clusters badly computed" is never reported. */
    method ChainAdd(newDclus: int, nr: nat, ghost new_: seq<int>) returns (err: int)
      requires Valid() && IsChain(vol.dev.ents, new_) && newDclus == new_[0] && nr == |new_|
      requires Unowned(vol.live, new_) && vol.pending == new_ && |Chain()| <= limit + 1
      modifies this`iStart, this`iBlocks, this`cacheLru, this`nrCaches, vol`live, vol`pending, vol`trace, vol.dev, vol.dev.data
      ensures Valid() && vol.pending == [] && LogGrows(old(vol.trace), vol.trace, old(vol.live), {ino}) && err == 0
      ensures vol.live == old(vol.live)[ino := old(Chain()) + new_]
      ensures vol.dev.ents == if old(Chain()) == [] then old(vol.dev.ents) else old(vol.dev.ents)[old(Chain())[|old(Chain())| - 1] := newDclus]
      ensures vol.dev.stale <= old(vol.dev.stale)
    {
      var newFclus;
      err, newFclus := Link(newDclus, new_);
      if err != 0 {
        return err;
      }
      var units := CountedUnits(newFclus);
      TimesIsProduct(nr, units);
      TimesAdd(newFclus, nr, units);
      iBlocks := iBlocks + nr * units;
    }

    /** fat_add_cluster: one more cluster, or -ENOSPC and nothing changed. */
    method AddCluster() returns (err: int)
      requires Valid() && vol.pending == [] && |Chain()| <= limit + 1
      modifies this`iStart, this`iBlocks, this`cacheLru, this`nrCaches, vol, vol.dev, vol.dev.data
      ensures Valid() && vol.pending == [] && LogGrows(old(vol.trace), vol.trace, old(vol.live), {ino})
      ensures err == 0 <==> FreeCount(old(vol.dev.ents)) >= 1
      ensures err != 0 ==> err == ENOSPC && vol.dev.ents == old(vol.dev.ents) && vol.live == old(vol.live)
      ensures err == 0 ==> vol.live == old(vol.live)[ino := old(Chain()) + FirstFree(old(vol.dev.ents), old(vol.Start()), 1)]
      ensures err == 0 ==> |Chain()| == |old(Chain())| + 1
      ensures old(vol.freeClusValid) ==> vol.freeClusValid
      ensures vol.dev.stale <= old(vol.dev.stale)
    {
      ghost var f, c, t0 := vol.dev.ents, Chain(), vol.trace;
      var cluster;
      err, cluster := vol.AllocClusters(1);
      OthersKeep(f, c);
      ghost var t1 := vol.trace;
      if err != 0 {
        GrowsWider(t0, t1, vol.live, {}, {ino});
        return;
      }
      FreeAreUnowned(f, vol.live, cluster);
      ghost var live := vol.live;
      err := ChainAdd(cluster[0], 1, cluster);
      GrowsTrans(t0, t1, vol.trace, live, live, {}, {ino}, {ino});
    }

    /** A change of the FAT that keeps this inode's chain keeps the inode right. */
    lemma OthersKeep(f: Fat, c: seq<int>)
      requires vol.Valid() && vol.Layout() && limit < FAT_ENT_EOF && ino in vol.live && c == Chain()
      requires |f| == |vol.dev.ents| && (c != [] ==> IsChain(f, c))
      requires if c == [] then iStart == 0 && cacheLru == [] && nrCaches == 0 && 0 < cacheValidId < U32
               else iStart == c[0] && iStart != 0 && CacheOk(f)
      ensures Attached()
    {
      if c != [] {
        RunsOkTransfer(f, c, vol.dev.ents, c, limit, cacheLru);
      }
    }

    /** The first part of fat_free for skip > 0: put EOF into cluster skip - 1 of the file
        and hand back where the rest begins; none when the file is not that long. */
    method CutAfter(skip: nat, ghost c: seq<int>) returns (rest: int)
      requires Attached() && skip > 0 && c == Chain() != [] && cacheLru == [] && vol.pending == [] && |c| <= limit + 1
      modifies this`cacheLru, this`nrCaches, vol`live, vol`pending, vol`trace, vol.dev, vol.dev.data
      ensures Attached() && LogGrows(old(vol.trace), vol.trace, old(vol.live), {ino})
      ensures vol.pending == if skip < |c| then c[skip..] else []
      ensures skip >= |c| ==> rest == 0 && vol.dev.ents == old(vol.dev.ents) && vol.live == old(vol.live)
      ensures skip < |c| ==> rest == c[skip] && vol.live == old(vol.live)[ino := c[..skip]]
      ensures skip < |c| ==> vol.dev.ents == old(vol.dev.ents)[c[skip - 1] := FAT_ENT_EOF]
      ensures vol.dev.stale <= old(vol.dev.stale)
    {
      ChainFacts();
      NaiveOnChain(vol.dev.ents, c, skip - 1, limit);
      var ret, fclus, dclus := GetCluster(skip - 1);
      assert ret >= 0;
      if ret == FAT_ENT_EOF {
        return 0;
      }
      rest := CutHere(dclus, skip, c);
    }

    /** The same once cluster skip - 1 has been found. */
    method CutHere(dclus: int, skip: nat, ghost c: seq<int>) returns (rest: int)
      requires Attached() && c == Chain() && 0 < skip <= |c| && dclus == c[skip - 1] && vol.pending == []
      requires forall r :: r in cacheLru ==> r.fcluster + r.nrContig < skip
      modifies vol`live, vol`pending, vol`trace, vol.dev, vol.dev.data
      ensures Attached() && LogGrows(old(vol.trace), vol.trace, old(vol.live), {ino})
      ensures vol.pending == if skip < |c| then c[skip..] else []
      ensures skip == |c| ==> rest == 0 && vol.dev.ents == old(vol.dev.ents) && vol.live == old(vol.live)
      ensures skip < |c| ==> rest == c[skip] && vol.live == old(vol.live)[ino := c[..skip]]
      ensures skip < |c| ==> vol.dev.ents == old(vol.dev.ents)[c[skip - 1] := FAT_ENT_EOF]
      ensures vol.dev.stale <= old(vol.dev.stale)
    {
      ghost var f := vol.dev.ents;
      ChainFacts();
      assert dclus in c;
      var ret, h := vol.dev.EntRead(FatEntInit(), dclus);
      assert ret != FAT_ENT_FREE by {
        ChainEntriesUsed(f, c);
      }
      if ret == FAT_ENT_EOF {
        OnlyLastIsEof(f, c);
        return 0;
      }
      assert skip < |c| && f[c[skip - 1]] == c[skip];
      CutLive(f, vol.live, ino, skip);
      CountLink(f, dclus, FAT_ENT_EOF);
      vol.EntWrite(h, dclus, FAT_ENT_EOF, vol.live[ino := c[..skip]], c[skip..], Move.Cut(ino, skip), ino);
      RunsOkTransfer(f, c, vol.dev.ents, c[..skip], limit, cacheLru);
      rest := ret;
    }

    /** All of fat_free up to the freeing: the cache is dropped, then the chain is cut, so that
        the rest is a chain nobody owns. */
    method Cut(skip: nat, ghost c: seq<int>) returns (rest: int)
      requires Attached() && c == Chain() != [] && vol.pending == [] && |c| <= limit + 1
      modifies this`iStart, this`cacheLru, this`nrCaches, this`cacheValidId, vol`live, vol`pending, vol`trace, vol.dev, vol.dev.data
      ensures Attached() && LogGrows(old(vol.trace), vol.trace, old(vol.live), {ino})
      ensures vol.pending == if skip < |c| then c[skip..] else []
      ensures skip >= |c| ==> rest == 0 && vol.live == old(vol.live) && vol.dev.ents == old(vol.dev.ents)
      ensures skip < |c| ==> rest == c[skip] && vol.live == old(vol.live)[ino := c[..skip]]
      ensures skip < |c| ==> IsChain(vol.dev.ents, c[skip..]) && Unowned(vol.live, c[skip..])
      ensures skip < |c| ==> vol.dev.ents == CutFat(old(vol.dev.ents), c, skip)
      ensures vol.dev.stale <= old(vol.dev.stale)
    {
      ghost var f, live := vol.dev.ents, vol.live;
      ChainFacts();
      CacheInval();
      if skip == 0 {
        rest := iStart;
        DropLive(f, live, ino);
        iStart := 0;
        assert c[skip..] == c && c[..skip] == [];
        vol.SetLive(vol.live[ino := []], c, Move.Cut(ino, 0), ino);
      } else {
        if skip < |c| {
          CutLive(f, live, ino, skip);
        }
        rest := CutAfter(skip, c);
      }
    }

    /** fat_free: keep the first skip clusters, free all after them. */
    method FatFree(skip: nat) returns (err: int)
      requires Valid() && vol.pending == [] && |Chain()| <= limit + 1
      modifies this`iStart, this`iBlocks, this`cacheLru, this`nrCaches, this`cacheValidId,
        vol`live, vol`pending, vol`trace, vol`freeClusters, vol`discarded, vol.dev, vol.dev.data
      ensures Valid() && vol.pending == [] && LogGrows(old(vol.trace), vol.trace, old(vol.live), {ino}) && err == 0
      ensures skip >= |old(Chain())| ==> vol.live == old(vol.live) && vol.dev.ents == old(vol.dev.ents)
      ensures skip < |old(Chain())| ==> vol.live == old(vol.live)[ino := old(Chain())[..skip]]
      ensures skip < |old(Chain())| ==> vol.dev.ents == Cleared(CutFat(old(vol.dev.ents), old(Chain()), skip), old(Chain())[skip..])
      ensures skip < |old(Chain())| ==> vol.discarded == old(vol.discarded) + old(Chain())[skip..]
      ensures vol.dev.stale <= old(vol.dev.stale)
    {
      if iStart == 0 {
        return 0;
      }
      ghost var c, t0, live0 := Chain(), vol.trace, vol.live;
      var freeStart := Cut(skip, c);
      if freeStart == 0 {
        return 0;
      }
      ghost var t1 := vol.trace;
      err := FreeTail(freeStart, skip, c[skip..]);
      GrowsTrans(t0, t1, vol.trace, live0, vol.live, {ino}, {}, {ino});
    }

    /** The rest of fat_free once the chain is cut: i_blocks follows, and what was cut off goes. */
    method FreeTail(freeStart: int, skip: nat, ghost rest: seq<int>) returns (err: int)
      requires Attached() && |Chain()| == skip
      requires IsChain(vol.dev.ents, rest) && rest[0] == freeStart && Unowned(vol.live, rest) && vol.pending == rest
      modifies this`iBlocks, vol`pending, vol`trace, vol`freeClusters, vol`discarded, vol.dev, vol.dev.data
      ensures Valid() && vol.pending == [] && LogGrows(old(vol.trace), vol.trace, vol.live, {}) && err == 0
      ensures vol.dev.ents == Cleared(old(vol.dev.ents), rest)
      ensures vol.discarded == old(vol.discarded) + rest
      ensures vol.dev.stale <= old(vol.dev.stale)
    {
      SetBlocks(skip);
      err := FreeRest(freeStart, rest);
    }

    method SetBlocks(n: nat)
      requires vol.Layout()
      modifies this`iBlocks
      ensures iBlocks == Times(n, vol.ClusterUnits())
    {
      var units := vol.secPerClus * (vol.dev.bs / 512);
      TimesIsProduct(vol.secPerClus, vol.dev.bs / 512);
      TimesIsProduct(n, units);
      iBlocks := n * units;
    }

    /** Freeing clusters nobody owns any more does not disturb this inode. */
    method FreeRest(start: int, ghost rest: seq<int>) returns (err: int)
      requires Attached() && IsChain(vol.dev.ents, rest) && rest[0] == start && Unowned(vol.live, rest) && vol.pending == rest
      modifies vol`pending, vol`trace, vol`freeClusters, vol`discarded, vol.dev, vol.dev.data
      ensures Attached() && vol.pending == [] && LogGrows(old(vol.trace), vol.trace, vol.live, {}) && err == 0
      ensures vol.dev.ents == Cleared(old(vol.dev.ents), rest)
      ensures vol.discarded == old(vol.discarded) + rest
      ensures vol.dev.stale <= old(vol.dev.stale)
    {
      ghost var f := vol.dev.ents;
      FreeWalkOfChain(f, rest, EIO);
      err := vol.FreeClusters(start);
      OthersKeep(f, Chain());
    }

    /** fat_truncate: i_size has been set by the caller; the allocation follows it. */
    method Truncate()
      requires Valid() && SizesOk() && vol.pending == []
      modifies this`iStart, this`iBlocks, this`mmuPrivate, this`cacheLru, this`nrCaches, this`cacheValidId,
        vol`live, vol`pending, vol`trace, vol`freeClusters, vol`discarded, vol.dev, vol.dev.data
      ensures Valid() && SizesOk() && vol.pending == [] && LogGrows(old(vol.trace), vol.trace, old(vol.live), {ino})
      ensures mmuPrivate == iSize
      ensures CeilDiv(iSize, vol.ClusterSize()) <= |old(Chain())|
      ensures vol.live == old(vol.live)[ino := old(Chain())[..CeilDiv(iSize, vol.ClusterSize())]]
      ensures vol.dev.stale <= old(vol.dev.stale)
    {
      CeilMonotone(iSize, mmuPrivate, vol.ClusterSize());
      assert Chain()[..|Chain()|] == Chain();
      if mmuPrivate > iSize {
        mmuPrivate := iSize;
      }
      var clusterSize := vol.secPerClus * vol.dev.bs;
      TimesIsProduct(vol.secPerClus, vol.dev.bs);
      var nrClusters := (iSize + (clusterSize - 1)) / clusterSize;
      QuotRemIsDivMod(iSize + clusterSize - 1, clusterSize);
      var err := FatFree(nrClusters);
    }

    /** The size write-back may set after data was copied into allocated blocks. */
    method SetSize(size: nat)
      requires Valid() && SizesOk() && size <= mmuPrivate
      modifies this`iSize
      ensures Valid() && SizesOk() && iSize == size
    {
      iSize := size;
    }

    /** What fat_write_begin has done to mmu_private before data goes up to byte `end`: an
        allocated size in the middle of a block moves on to the end of that block, so that
        the next block can be allocated. */
    method WriteBegin(end: nat)
      requires Valid() && SizesOk()
      modifies this`mmuPrivate
      ensures Valid() && SizesOk()
      ensures end <= old(mmuPrivate) ==> mmuPrivate == old(mmuPrivate)
      ensures end > old(mmuPrivate) ==> mmuPrivate == Times(CeilDiv(old(mmuPrivate), vol.dev.bs), vol.dev.bs) >= old(mmuPrivate)
    {
      var bs := vol.dev.bs;
      QuotRemIsDivMod(mmuPrivate, bs);
      RoundedUp(mmuPrivate, vol.secPerClus, bs);
      EndOfBlock(mmuPrivate, bs);
      if end > mmuPrivate && mmuPrivate % bs != 0 {
        mmuPrivate := mmuPrivate - mmuPrivate % bs + bs;
      }
    }

    // ----- mapping file blocks to volume blocks

    /** fat_bmap_cluster. */
    method BmapCluster(cluster: nat) returns (dclus: int)
      requires Attached() && |Chain()| <= limit + 1
      modifies this`cacheLru, this`nrCaches
      ensures Attached()
      ensures dclus == if Chain() == [] then 0 else if cluster < |Chain()| then Chain()[cluster] else EIO
    {
      if iStart == 0 {
        return 0;
      }
      ChainFacts();
      NaiveOnChain(vol.dev.ents, Chain(), cluster, limit);
      var ret, fclus;
      ret, fclus, dclus := GetCluster(cluster);
      if ret == FAT_ENT_EOF {
        dclus := EIO;
      }
    }

    /** The number of blocks in a file of size bytes. */
    ghost function BlocksIn(size: nat): nat
      requires vol.dev.bs > 0
    {
      CeilDiv(size, vol.dev.bs)
    }

    /** Where block `sector` of the file with chain c lies on the volume. */
    ghost function Phys(c: seq<int>, sector: nat): nat
      requires HasBlock(vol.Map(), c, sector)
    {
      BlockAt(vol.Map(), c, sector)
    }

    /** The block at which fat_bmap stops mapping: the end of the file, and on the allocating path
        behind that the end of what is allocated. */
    ghost function LastBlock(sector: nat, create: bool): (last: nat)
      requires vol.dev.bs > 0
      reads this`iSize, this`mmuPrivate
      ensures sector < last <==> sector < BlocksIn(iSize) || (create && sector < BlocksIn(mmuPrivate))
      ensures sector < BlocksIn(iSize) ==> last == BlocksIn(iSize)
      ensures sector >= BlocksIn(iSize) && sector < last ==> last == BlocksIn(mmuPrivate)
    {
      if create && sector >= BlocksIn(iSize) then BlocksIn(mmuPrivate) else BlocksIn(iSize)
    }

    /** The last part of fat_bmap: where a block before last_block lies, and how many blocks
        from there on are mapped contiguously. */
    method BmapBefore(sector: nat, lastBlock: nat) returns (phys: nat, mapped: nat)
      requires Valid() && SizesOk() && sector < lastBlock <= BlocksIn(mmuPrivate)
      modifies this`cacheLru, this`nrCaches
      ensures Valid() && SizesOk()
      ensures HasBlock(vol.Map(), Chain(), sector) && phys == Phys(Chain(), sector) && phys > 0
      ensures var left := vol.secPerClus - Rem(sector, vol.secPerClus);
        mapped == if left > lastBlock - sector then lastBlock - sector else left
    {
      var spc := vol.secPerClus;
      QuotRemIsDivMod(sector, spc);
      BlockInFile(mmuPrivate, sector, spc, vol.dev.bs);
      ChainFacts();
      var cluster, offset := sector / spc, sector % spc;
      var dclus := BmapCluster(cluster);
      assert dclus in Chain();
      assert dclus > 0;
      if dclus != 0 {
        TimesIsProduct(dclus - 2, spc);
        phys := (dclus - FAT_START_ENT) * spc + vol.dataStart + offset;
        mapped := spc - offset;
        if mapped > lastBlock - sector {
          mapped := lastBlock - sector;
        }
      }
    }

    /** (size + (blocksize - 1)) >> blocksize_bits. */
    method CountBlocks(size: nat) returns (n: nat)
      requires vol.dev.bs > 0
      ensures n == BlocksIn(size)
    {
      QuotRemIsDivMod(size + vol.dev.bs - 1, vol.dev.bs);
      n := (size + (vol.dev.bs - 1)) / vol.dev.bs;
    }

    /** fat_bmap on a regular file. It never fails, and maps every block before LastBlock. */
    method Bmap(sector: nat, create: bool) returns (err: int, phys: nat, mapped: nat)
      requires Valid() && SizesOk()
      modifies this`cacheLru, this`nrCaches
      ensures Valid() && SizesOk() && err == 0
      ensures sector >= LastBlock(sector, create) ==> phys == 0 && mapped == 0
      ensures sector < LastBlock(sector, create) ==>
        var spc, last := vol.secPerClus, LastBlock(sector, create);
        && HasBlock(vol.Map(), Chain(), sector) && phys == Phys(Chain(), sector) && phys > 0
        && mapped == if spc - Rem(sector, spc) > last - sector then last - sector else spc - Rem(sector, spc)
    {
      phys, mapped, err := 0, 0, 0;
      var lastBlock := CountBlocks(iSize);
      if sector >= lastBlock {
        if !create {
          return;
        }
        lastBlock := CountBlocks(mmuPrivate);
        if sector >= lastBlock {
          return;
        }
      }
      CeilMonotone(iSize, mmuPrivate, vol.dev.bs);
      phys, mapped := BmapBefore(sector, lastBlock);
    }

    /** The allocating step of __fat_get_block: a block that starts a cluster needs a new one. */
    method Extend(iblock: nat, offset: nat) returns (err: int)
      requires Valid() && SizesOk() && vol.pending == [] && mmuPrivate == Times(iblock, vol.dev.bs)
      requires offset == Rem(iblock, vol.secPerClus) && Quot(iblock, vol.secPerClus) <= limit
      modifies this`iStart, this`iBlocks, this`cacheLru, this`nrCaches, vol, vol.dev, vol.dev.data
      ensures Valid() && vol.pending == [] && LogGrows(old(vol.trace), vol.trace, old(vol.live), {ino})
      ensures err != 0 <==> offset == 0 && FreeCount(old(vol.dev.ents)) == 0
      ensures err != 0 ==> err == ENOSPC && vol.live == old(vol.live)
      ensures err == 0 ==> |Chain()| == Quot(iblock, vol.secPerClus) + 1
      ensures err == 0 ==> vol.live == old(vol.live)[ino := Chain()] && old(Chain()) <= Chain()
      ensures old(vol.freeClusValid) ==> vol.freeClusValid
      ensures vol.dev.stale <= old(vol.dev.stale)
    {
      ClustersBefore(iblock, vol.secPerClus, vol.dev.bs);
      err := 0;
      if offset == 0 {
        err := AddCluster();
      }
    }

    /** What __fat_get_block hands out: a mapped extent of the file's own chain. */
    ghost predicate Mapped(iblock: nat, phys: nat, blocks: nat)
      requires vol.Layout() && ino in vol.live
      reads vol`live
    {
      var spc := vol.secPerClus;
      && Quot(iblock, spc) < |Chain()| && Chain()[Quot(iblock, spc)] >= 2
      && phys == Phys(Chain(), iblock) && phys > 0
      && 0 < blocks <= spc - Rem(iblock, spc)
    }

    /** The rest of __fat_get_block once iblock is known to be the block right behind the
        allocated size.  The asserts are the two BUG_ONs, negated. */
    method Grow(iblock: nat, maxBlocks: nat) returns (err: int, phys: nat, blocks: nat)
      requires Valid() && SizesOk() && vol.pending == [] && maxBlocks > 0 && Quot(iblock, vol.secPerClus) <= limit
      requires iblock >= BlocksIn(iSize) && mmuPrivate == Times(iblock, vol.dev.bs)
      modifies this`iStart, this`iBlocks, this`mmuPrivate, this`cacheLru, this`nrCaches, vol, vol.dev, vol.dev.data
      ensures Valid() && SizesOk() && vol.pending == [] && LogGrows(old(vol.trace), vol.trace, old(vol.live), {ino})
      ensures err != 0 <==> Rem(iblock, vol.secPerClus) == 0 && FreeCount(old(vol.dev.ents)) == 0
      ensures err != 0 ==> err == ENOSPC && mmuPrivate == old(mmuPrivate) && vol.live == old(vol.live)
      ensures err == 0 ==> mmuPrivate == Times(iblock + blocks, vol.dev.bs) && blocks <= maxBlocks && Mapped(iblock, phys, blocks)
      ensures err == 0 ==> blocks == maxBlocks || blocks == vol.secPerClus - Rem(iblock, vol.secPerClus)
      ensures vol.live == old(vol.live)[ino := Chain()] && old(Chain()) <= Chain()
      ensures old(vol.freeClusValid) ==> vol.freeClusValid
      ensures vol.dev.stale <= old(vol.dev.stale)
    {
      var spc := vol.secPerClus;
      phys, blocks := 0, 0;
      QuotRemIsDivMod(iblock, spc);
      var offset := iblock % spc;
      err := Extend(iblock, offset);
      if err != 0 {
        return;
      }
      var mapped := spc - offset;
      blocks := if mapped < maxBlocks then mapped else maxBlocks;
      Allocated(iblock, blocks);
      err, phys, mapped := Bmap(iblock, true);
      assert phys != 0;
      assert blocks == mapped;
    }

    /** mmu_private moves on by the blocks just allocated. */
    method Allocated(iblock: nat, blocks: nat)
      requires vol.Layout() && ino in vol.live && iSize <= mmuPrivate == Times(iblock, vol.dev.bs)
      requires 0 < blocks <= vol.secPerClus - Rem(iblock, vol.secPerClus)
      requires |Chain()| == Quot(iblock, vol.secPerClus) + 1 <= limit + 1
      modifies this`mmuPrivate
      ensures SizesOk() && mmuPrivate == Times(iblock + blocks, vol.dev.bs) && BlocksIn(mmuPrivate) == iblock + blocks
    {
      TimesAdd(iblock, blocks, vol.dev.bs);
      TimesIsProduct(blocks, vol.dev.bs);
      mmuPrivate := mmuPrivate + blocks * vol.dev.bs;
      ClustersUpTo(iblock, iblock + blocks, vol.secPerClus, vol.dev.bs);
      CeilOfMultiple(iblock + blocks, vol.dev.bs);
    }

    /** __fat_get_block: map block iblock, allocating it when it is the one right behind the
        allocated size. */
    method GetBlock(iblock: nat, maxBlocks: nat, create: bool) returns (err: int, phys: nat, blocks: nat)
      requires Valid() && SizesOk() && vol.pending == [] && maxBlocks > 0 && Quot(iblock, vol.secPerClus) <= limit
      modifies this`iStart, this`iBlocks, this`mmuPrivate, this`cacheLru, this`nrCaches, vol, vol.dev, vol.dev.data
      ensures Valid() && SizesOk() && vol.pending == [] && LogGrows(old(vol.trace), vol.trace, old(vol.live), {ino})
      ensures iblock < old(LastBlock(iblock, create)) ==> err == 0 && mmuPrivate == old(mmuPrivate) && vol.live == old(vol.live)
      ensures err == 0 && (create || iblock < old(LastBlock(iblock, create))) ==> blocks <= maxBlocks && Mapped(iblock, phys, blocks)
      ensures iblock < old(LastBlock(iblock, create)) ==> iblock + blocks <= old(LastBlock(iblock, create))
      ensures err == 0 && (create || iblock < old(LastBlock(iblock, create))) ==> (blocks == maxBlocks
        || iblock + blocks == old(LastBlock(iblock, create)) || blocks == vol.secPerClus - Rem(iblock, vol.secPerClus))
      ensures iblock >= old(LastBlock(iblock, create)) && !create ==> (err == 0 && phys == 0 && blocks == maxBlocks
        && mmuPrivate == old(mmuPrivate) && vol.live == old(vol.live))
      ensures err != 0 ==> mmuPrivate == old(mmuPrivate) && vol.live == old(vol.live)
      ensures err == EIO <==> create && iblock >= old(LastBlock(iblock, create)) && old(mmuPrivate) != Times(iblock, vol.dev.bs)
      ensures err == ENOSPC <==> (create && old(mmuPrivate) == Times(iblock, vol.dev.bs)
        && Rem(iblock, vol.secPerClus) == 0 && FreeCount(old(vol.dev.ents)) == 0)
      ensures err == 0 && create && iblock >= old(LastBlock(iblock, create)) ==> mmuPrivate == Times(iblock + blocks, vol.dev.bs)
      ensures vol.live == old(vol.live)[ino := Chain()] && old(Chain()) <= Chain()
      ensures old(vol.freeClusValid) ==> vol.freeClusValid
      ensures vol.dev.stale <= old(vol.dev.stale)
    {
      var mapped;
      AlignedEnd(mmuPrivate, iblock, vol.dev.bs);
      CeilMonotone(iSize, mmuPrivate, vol.dev.bs);
      err, phys, mapped := Bmap(iblock, create);
      if phys != 0 {
        blocks := if mapped < maxBlocks then mapped else maxBlocks;
        return;
      }
      blocks := maxBlocks;
      if !create {
        return;
      }
      QuotRemIsDivMod(mmuPrivate, vol.dev.bs);
      if iblock != mmuPrivate / vol.dev.bs {
        err := EIO;
        return;
      }
      err, phys, blocks := Grow(iblock, maxBlocks);
    }

    /** i_blocks counts the clusters of the chain: n == i_blocks >> (cluster_bits - 9). */
    method CountedUnits(n: int) returns (units: nat)
      requires vol.Layout() && n >= 0 && iBlocks == Times(n, vol.ClusterUnits())
      ensures units == vol.ClusterUnits() > 0 && n == iBlocks / units
    {
      units := vol.secPerClus * (vol.dev.bs / 512);
      TimesIsProduct(vol.secPerClus, vol.dev.bs / 512);
      TimesPositive(vol.secPerClus, vol.dev.bs / 512);
      QuotRemUnique(iBlocks, units, n, 0);
      QuotRemIsDivMod(iBlocks, units);
    }
  }

  /** i_blocks: the size rounded up to whole clusters, in 512-byte units. */
  function RoundedUnits(vol: Volume, size: nat): (n: nat)
    requires vol.Layout()
    ensures n == Times(CeilDiv(size, vol.ClusterSize()), vol.ClusterUnits())
  {
    UnitsOfClusters(size, vol.secPerClus, vol.dev.bs);
    assert vol.secPerClus * vol.dev.bs > 0;
    var clusterSize: nat := vol.secPerClus * vol.dev.bs;
    (size + (clusterSize - 1)) / clusterSize * clusterSize / 512
  }

  lemma UnitsOfClusters(size: nat, spc: nat, bs: nat)
    requires spc > 0 && bs > 0 && bs % 512 == 0
    ensures Times(spc, bs) == spc * bs > 0
    ensures (size + (spc * bs - 1)) / (spc * bs) * (spc * bs) / 512 == Times(CeilDiv(size, Times(spc, bs)), Times(spc, bs / 512))
  {
    TimesIsProduct(spc, bs);
    TimesPositive(spc, bs);
    TimesIsProduct(spc, bs / 512);
    var cs, units := spc * bs, spc * (bs / 512);
    QuotRemIsDivMod(size + cs - 1, cs);
    var n := CeilDiv(size, cs);
    TimesIsProduct(n, units);
    assert n * cs == (n * units) * 512 by {
      assert cs == units * 512 by {
        assert bs == (bs / 512) * 512;
        MulAssoc(spc, bs / 512, 512);
      }
      MulAssoc(n, units, 512);
    }
  }

  lemma MulAssoc(a: int, b: int, c: int)
    ensures a * (b * c) == (a * b) * c
  {
  }

  lemma CountLink(f: Fat, last: int, v: int)
    requires 2 <= |f| && InRange(f, last) && f[last] != FAT_ENT_FREE && v != FAT_ENT_FREE
    ensures FreeCount(f[last := v]) == FreeCount(f)
  {
    CountAfterPut(f, 2, |f|, last, v);
  }

  /** The FAT with a chain cut after k clusters; for k == 0 only the inode changes. */
  ghost function CutFat(f: Fat, c: seq<int>, k: nat): Fat
    requires k <= |c| && forall x :: x in c ==> InRange(f, x)
  {
    if k == 0 then f
    else
      assert c[k - 1] in c && InRange(f, c[k - 1]);
      f[c[k - 1] := FAT_ENT_EOF]
  }

  /** Cutting a file after k clusters: the rest becomes a chain nobody owns. */
  lemma CutLive(f: Fat, live: Live, id: nat, k: nat)
    requires LiveOk(f, live) && id in live && 0 < k < |live[id]|
    ensures var c := live[id];
      && LiveOk(f[c[k - 1] := FAT_ENT_EOF], live[id := c[..k]])
      && IsChain(f[c[k - 1] := FAT_ENT_EOF], c[k..])
      && Unowned(live[id := c[..k]], c[k..])
  {
    var c := live[id];
    var g, live' := f[c[k - 1] := FAT_ENT_EOF], live[id := c[..k]];
    CutChain(f, c, k);
    assert c[k - 1] in c;
    forall n | n in live' && live'[n] != []
      ensures IsChain(g, live'[n])
    {
      if n != id {
        assert IsChain(f, live[n]);
        assert forall i :: 0 <= i < |live[n]| ==> live[n][i] in live[n];
      }
    }
    assert forall x :: x in c[..k] ==> x in c;
    assert forall x :: x in c[k..] ==> x in c;
    forall i | 0 <= i < |c[k..]|
      ensures !Owned(live', c[k..][i])
    {
      assert c[k..][i] in c[k..];
    }
  }

  /** A file that gives up its first cluster gives up the whole chain. */
  lemma DropLive(f: Fat, live: Live, id: nat)
    requires LiveOk(f, live) && id in live
    ensures LiveOk(f, live[id := []]) && Unowned(live[id := []], live[id])
  {
    var live' := live[id := []];
    forall i | 0 <= i < |live[id]|
      ensures !Owned(live', live[id][i])
    {
      assert live[id][i] in live[id];
    }
  }

  /** Appending an unowned chain to a file's chain keeps all live chains well formed. */
  lemma AppendLive(f: Fat, live: Live, id: nat, d: seq<int>)
    requires LiveOk(f, live) && id in live && live[id] != [] && IsChain(f, d) && Unowned(live, d)
    ensures LiveOk(f[live[id][|live[id]| - 1] := d[0]], live[id := live[id] + d])
  {
    var c := live[id];
    var last := c[|c| - 1];
    var g, live' := f[last := d[0]], live[id := c + d];
    assert forall x :: x in d ==> !Owned(live, x);
    assert last in c && c != [];
    JoinChains(f, c, d);
    forall k | k in live' && live'[k] != []
      ensures IsChain(g, live'[k])
    {
      if k != id {
        assert IsChain(f, live[k]);
        assert forall i :: 0 <= i < |live[k]| ==> live[k][i] in live[k];
      }
    }
  }

  lemma FirstLive(f: Fat, live: Live, id: nat, d: seq<int>)
    requires LiveOk(f, live) && id in live && live[id] == [] && IsChain(f, d) && Unowned(live, d)
    ensures LiveOk(f, live[id := [] + d])
  {
  }
}
