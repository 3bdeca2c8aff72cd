/** Directories as growing files of 32-byte entries: finding room for a run of entries,
    writing it, and deleting it (dir.c). */
module Directories {
  import opened Arith
  import opened Packing
  import opened FatDevices
  import opened Chains
  import opened Logs
  import opened BlockMath
  import opened Inodes
  import opened LongNames
  import opened DirSearch
  import opened FillOrder
  import opened Machine
  import opened Mapping
  import opened Splicing

  /** Where fat_get_entry stands: the next position, and the entry it handed out last
      (block and index in it); bh is -1 for none. */
  datatype Cursor = Cursor(pos: nat, bh: int, de: nat)

  function Last(bhs: seq<int>): int { if bhs == [] then -1 else bhs[|bhs| - 1] }

  class Directory {
    const inode: Inode
    /** The data area: entry `de` of volume block `bh`. */
    const disk: array2<DirEntry>
    const dpb: nat
    const isRoot: bool
    /** What the directory showed after each step of an addition: every block filled in, and
        the clusters it grew by. */
    ghost var views: seq<seq<DirEntry>>

    constructor (inode: Inode, disk: array2<DirEntry>, dpb: nat, isRoot: bool)
      ensures this.inode == inode && this.disk == disk && this.dpb == dpb && this.isRoot == isRoot && views == []
    {
      this.inode, this.disk, this.dpb, this.isRoot := inode, disk, dpb, isRoot;
      views := [];
    }

    ghost function Map(): Area { Area(inode.vol.secPerClus, inode.vol.dataStart, dpb) }

    /** Blocks of at least 512 bytes; clusters of at most half a megabyte, which bounds
        s_maxbytes >> cluster_bits from below. */
    ghost predicate Geometry() {
      && inode.vol.Layout() && dpb >= 16 && inode.vol.dev.bs == 32 * dpb && inode.limit >= 4096
      && disk.Length1 == dpb && inode.vol.dataStart + Times(inode.vol.dev.maxCluster - 2, inode.vol.secPerClus) <= disk.Length0
    }

    /** Clusters of the data area, no two the same. */
    ghost predicate Inside(c: seq<int>) {
      Distinct(c) && forall i :: 0 <= i < |c| ==> FAT_START_ENT <= c[i] < inode.vol.dev.maxCluster
    }

    ghost function Size(c: seq<int>): nat { Slots(Map(), |c|) }

    lemma SlotOnDisk(c: seq<int>, k: nat)
      requires Geometry() && Inside(c) && k < Size(c)
      ensures HasSlot(Map(), c, k) && SlotBlock(Map(), c, k) < disk.Length0 && Rem(k, dpb) < disk.Length1
    {
      SlotHasBlock(Map(), c, k);
      BlockInside(Map(), c, Quot(k, dpb), inode.vol.dev.maxCluster);
    }

    /** Entry k of the clusters c. */
    ghost function EntryOf(c: seq<int>, k: nat): DirEntry
      requires Geometry() && Inside(c) && k < Size(c)
      reads disk
    {
      SlotOnDisk(c, k);
      disk[SlotBlock(Map(), c, k), Rem(k, dpb)]
    }

    /** All entries in the clusters c, in order. */
    ghost function View(c: seq<int>): (r: seq<DirEntry>)
      requires Geometry() && Inside(c)
      reads disk
      ensures |r| == Size(c)
    {
      seq(Size(c), k requires 0 <= k < Size(c) reads disk => EntryOf(c, k))
    }

    ghost predicate Valid()
      reads inode, inode.vol, inode.vol.dev, inode.vol.dev.data
    {
      && Geometry() && inode.Valid() && |inode.Chain()| <= inode.limit + 1
      && inode.iSize == inode.mmuPrivate == Times(|inode.Chain()|, inode.vol.ClusterSize())
    }

    /** A directory with the chain c. */
    ghost predicate On(c: seq<int>)
      reads inode, inode.vol, inode.vol.dev, inode.vol.dev.data
    {
      Valid() && inode.Chain() == c && Inside(c)
    }

    /** A directory's size is that of its clusters. */
    lemma ValidFacts()
      requires Valid()
      ensures inode.SizesOk() && On(inode.Chain())
      ensures inode.BlocksIn(inode.iSize) == Times(|inode.Chain()|, inode.vol.secPerClus)
    {
      CeilOfMultiple(|inode.Chain()|, inode.vol.ClusterSize());
      TimesAssoc(|inode.Chain()|, inode.vol.secPerClus, inode.vol.dev.bs);
      CeilOfMultiple(Times(|inode.Chain()|, inode.vol.secPerClus), inode.vol.dev.bs);
      if inode.Chain() != [] {
        inode.ChainFacts();
        assert forall i :: 0 <= i < |inode.Chain()| ==> inode.Chain()[i] in inode.Chain();
      }
    }

    // ----- reading

    /** fat__get_entry: look the block up. */
    method GetEntrySlow(cu: Cursor, ghost c: seq<int>) returns (ok: bool, cu': Cursor)
      requires On(c)
      modifies inode`cacheLru, inode`nrCaches
      ensures On(c) && (ok <==> cu.pos < Size(c))
      ensures ok ==> cu'.pos == cu.pos + 1 && Place(Map(), c, cu'.bh, cu'.de, cu.pos)
      ensures !ok ==> cu' == Cursor(cu.pos, -1, 0)
    {
      ValidFacts();
      QuotRemIsDivMod(cu.pos, dpb);
      BeforeEnd(cu.pos, dpb, Times(|c|, inode.vol.secPerClus));
      var iblock := cu.pos / dpb;
      var err, phys, mapped := inode.Bmap(iblock, false);
      if cu.pos < Size(c) {
        SlotOnDisk(c, cu.pos);
      }
      if err != 0 || phys == 0 {
        return false, Cursor(cu.pos, -1, 0);
      }
      return true, Cursor(cu.pos + 1, phys, cu.pos % dpb);
    }

    /** fat_get_entry: the next entry, if there is one. */
    method GetEntry(cu: Cursor, ghost c: seq<int>) returns (ok: bool, cu': Cursor)
      requires On(c) && (cu.bh >= 0 ==> cu.pos > 0 && Place(Map(), c, cu.bh, cu.de, cu.pos - 1))
      modifies inode`cacheLru, inode`nrCaches
      ensures On(c) && (ok <==> cu.pos < Size(c))
      ensures ok ==> cu'.pos == cu.pos + 1 && Place(Map(), c, cu'.bh, cu'.de, cu.pos)
      ensures !ok ==> cu' == Cursor(cu.pos, -1, 0)
    {
      if cu.bh >= 0 && cu.de < dpb - 1 {
        NextSlot(c, cu.pos - 1);
        return true, Cursor(cu.pos + 1, cu.bh, cu.de + 1);
      }
      ok, cu' := GetEntrySlow(cu, c);
    }

    lemma NextSlot(c: seq<int>, k: nat)
      requires HasSlot(Map(), c, k) && Rem(k, dpb) < dpb - 1
      ensures k + 1 < Size(c) && Quot(k + 1, dpb) == Quot(k, dpb) && Rem(k + 1, dpb) == Rem(k, dpb) + 1
    {
      QuotRemAdd(k, dpb, 1);
      BeforeEnd(k, dpb, Times(|c|, inode.vol.secPerClus));
      BeforeEnd(k + 1, dpb, Times(|c|, inode.vol.secPerClus));
    }

    lemma EntryAt(c: seq<int>, bh: int, de: nat, k: nat)
      requires Geometry() && Inside(c) && Place(Map(), c, bh, de, k)
      ensures 0 <= bh < disk.Length0 && de < disk.Length1 && disk[bh, de] == View(c)[k]
    {
      SlotOnDisk(c, k);
    }

    // ----- finding room

    /** At most 21 entries of at least 16 a block touch at most three blocks. */
    lemma ThreeBlocks(p: nat, n: nat)
      requires 1 <= n <= MSDOS_SLOTS && dpb >= 16
      ensures 0 <= Quot(p + n - 1, dpb) - Quot(p, dpb) <= 2
    {
      QuotRem(p, dpb);
      QuotRem(p + n - 1, dpb);
      var q, r := Quot(p, dpb), Quot(p + n - 1, dpb);
      TimesAdd(q, 3, dpb);
      TimesIsProduct(3, dpb);
      if r >= q + 3 {
        TimesMonotone(q + 3, r, dpb);
      } else if r < q {
        TimesMonotone(r + 1, q, dpb);
      }
    }

    /** The next entry is in the same block, or in another one. */
    lemma NextBlock(c: seq<int>, p: nat, n: nat)
      requires n > 0 && HasSlot(Map(), c, p + n) && Distinct(c)
      ensures HasBlock(Map(), c, Quot(p + n - 1, dpb)) && HasBlock(Map(), c, Quot(p + n, dpb))
      ensures Quot(p + n, dpb) == Quot(p + n - 1, dpb) +
        (if BlockAt(Map(), c, Quot(p + n, dpb)) == BlockAt(Map(), c, Quot(p + n - 1, dpb)) then 0 else 1)
    {
      SlotHasBlock(Map(), c, p + n);
      SlotHasBlock(Map(), c, p + n - 1);
      QuotRemAdd(p + n - 1, dpb, 1);
      if BlockAt(Map(), c, Quot(p + n, dpb)) == BlockAt(Map(), c, Quot(p + n - 1, dpb)) {
        BlockInjective(Map(), c, Quot(p + n, dpb), Quot(p + n - 1, dpb));
      }
    }

    /** One more free entry, in block bh: a new block is kept. The assert is the size of
        the array bhs in fat_add_entries. */
    method Collect(bhs: seq<int>, prev: int, bh: int, ghost de: nat, ghost c: seq<int>, ghost p: nat, ghost n: nat)
      returns (bhs': seq<int>)
      requires dpb >= 16 && Distinct(c) && n < MSDOS_SLOTS
      requires Place(Map(), c, bh, de, p + n) && Covers(Map(), c, bhs, p, n) && prev == Last(bhs)
      ensures Covers(Map(), c, bhs', p, n + 1) && |bhs'| <= 3 && Last(bhs') == bh
    {
      SlotHasBlock(Map(), c, p + n);
      ThreeBlocks(p, n + 1);
      if n > 0 {
        NextBlock(c, p, n);
      }
      bhs' := bhs;
      if prev != bh {
        assert |bhs| < 3;
        bhs' := bhs + [bh];
      }
    }

    /** Look at the entry just read, behind the `free` free ones from p on. */
    method LookAt(cu: Cursor, free: nat, bhs: seq<int>, ghost p: nat, ghost c: seq<int>, ghost s: seq<DirEntry>)
      returns (free': nat, bhs': seq<int>, ghost p': nat)
      requires Geometry() && Inside(c) && s == View(c) && free < MSDOS_SLOTS
      requires Covers(Map(), c, bhs, p, free) && Place(Map(), c, cu.bh, cu.de, p + free)
      ensures Covers(Map(), c, bhs', p', free') && |bhs'| <= 3
      ensures p + free < |s| && if IsFree(s[p + free]) then p' == p && free' == free + 1 else p' == p + free + 1 && free' == 0
    {
      EntryAt(c, cu.bh, cu.de, p + free);
      if IsFree(disk[cu.bh, cu.de]) {
        bhs' := Collect(bhs, Last(bhs), cu.bh, cu.de, c, p, free);
        free', p' := free + 1, p;
      } else {
        free', bhs', p' := 0, [], p + free + 1;
      }
    }

    /** The search for nr entries goes on behind the `free` ones from p on, in blocks bhs. */
    ghost predicate Looking(c: seq<int>, s: seq<DirEntry>, nr: nat, cu: Cursor, free: nat, bhs: seq<int>, p: nat)
      requires dpb > 0
    {
      match cu
      case Cursor(pos, bh, de) =>
        && free < nr && pos == p + free <= |s| && pos < MAX_DIR_ENTRIES
        && (bh >= 0 ==> pos > 0 && Place(Map(), c, bh, de, pos - 1))
        && Covers(Map(), c, bhs, p, free) && SearchAt(s, nr, p, free)
    }

    /** The search has ended. */
    ghost predicate Found(c: seq<int>, s: seq<DirEntry>, nr: nat, err: int, cu: Cursor, free: nat, bhs: seq<int>, p: nat)
      requires dpb > 0 && nr >= 1
    {
      match cu
      case Cursor(pos, bh, de) =>
        if err != 0 then err == ENOSPC && Outcome(s, nr, Full)
        else
          && pos == p + free && Outcome(s, nr, Room(p, free)) && Covers(Map(), c, bhs, p, free)
          && if free == nr then Place(Map(), c, bh, de, p + free - 1) else |s| < MAX_DIR_ENTRIES
    }

    /** The loop body of the first stage. */
    method SearchOn(nr: nat, cu: Cursor, free: nat, bhs: seq<int>, ghost p: nat, ghost c: seq<int>, ghost s: seq<DirEntry>)
      returns (more: bool, err: int, cu': Cursor, free': nat, bhs': seq<int>, ghost p': nat)
      requires On(c) && s == View(c) && 1 <= nr <= MSDOS_SLOTS && Looking(c, s, nr, cu, free, bhs, p)
      modifies inode`cacheLru, inode`nrCaches
      ensures On(c)
      ensures if more then Looking(c, s, nr, cu', free', bhs', p') && cu'.pos > cu.pos else Found(c, s, nr, err, cu', free', bhs', p')
    {
      SearchStep(s, nr, p, free);
      var ok;
      ok, cu' := GetEntry(cu, c);
      free', bhs', p', err, more := free, bhs, p, 0, false;
      if !ok {
        return;
      }
      if cu'.pos >= MAX_DIR_ENTRIES {
        err := ENOSPC;
        return;
      }
      free', bhs', p' := LookAt(cu', free, bhs, p, c, s);
      more := free' != nr;
    }

    /** The first stage of fat_add_entries, in a directory that holds s. */
    method SearchFree(nr: nat, ghost c: seq<int>, ghost s: seq<DirEntry>)
      returns (err: int, free: nat, bhs: seq<int>, cu: Cursor, ghost p: nat)
      requires On(c) && s == View(c) && 1 <= nr <= MSDOS_SLOTS
      modifies inode`cacheLru, inode`nrCaches
      ensures On(c) && Found(c, s, nr, err, cu, free, bhs, p)
    {
      err, free, bhs, cu, p := 0, 0, [], Cursor(0, -1, 0), 0;
      SearchStart(s, nr);
      var more := true;
      while more
        invariant On(c) && if more then Looking(c, s, nr, cu, free, bhs, p) else Found(c, s, nr, err, cu, free, bhs, p)
        decreases more, |s| - cu.pos
      {
        more, err, cu, free, bhs, p := SearchOn(nr, cu, free, bhs, p, c, s);
      }
    }

    /** The first stage, with what its outcome means. */
    method FindRoom(nr: nat, ghost c: seq<int>, ghost s: seq<DirEntry>) returns (err: int, pos: nat, free: nat, bhs: seq<int>, cu: Cursor)
      requires On(c) && s == View(c) && 1 <= nr <= MSDOS_SLOTS
      modifies inode`cacheLru, inode`nrCaches
      ensures On(c)
      ensures if err == 0 then Search(s, nr, 0) == Room(pos, free) else err == ENOSPC && Search(s, nr, 0) == Full
      ensures err == 0 ==> free <= nr && FreeRun(s, pos, free) && Covers(Map(), c, bhs, pos, free)
      ensures err == 0 ==> if free == nr then Place(Map(), c, cu.bh, cu.de, pos + free - 1) else pos + free == |s| < MAX_DIR_ENTRIES
    {
      ghost var p;
      err, free, bhs, cu, p := SearchFree(nr, c, s);
      SearchIsRight(s, nr, 0);
      pos := if err == 0 then cu.pos - free else 0;
    }

    // ----- writing

    /** Block bh is the volume block of entry k, which is index `de` in it. */
    method CopyIn(bh: nat, de: nat, src: seq<DirEntry>, ghost c: seq<int>, ghost k: nat)
      requires Geometry() && Inside(c) && Place(Map(), c, bh, de, k) && de + |src| <= dpb && k + |src| <= Size(c)
      modifies disk
      ensures View(c) == Splice(old(View(c)), k, src)
      ensures forall b, e :: 0 <= b < disk.Length0 && b != bh && 0 <= e < disk.Length1 ==> disk[b, e] == old(disk[b, e])
    {
      SlotOnDisk(c, k);
      var i := 0;
      while i < |src|
        invariant 0 <= i <= |src|
        invariant forall b, e :: 0 <= b < disk.Length0 && 0 <= e < disk.Length1 ==>
          disk[b, e] == if b == bh && de <= e < de + i then src[e - de] else old(disk[b, e])
      {
        disk[bh, de + i] := src[i];
        i := i + 1;
      }
      ghost var was := old(View(c));
      forall j | 0 <= j < Size(c)
        ensures View(c)[j] == Splice(was, k, src)[j]
      {
        SlotOnDisk(c, j);
        SlotRange(Map(), c, k, |src|, j);
        assert View(c)[j] == disk[SlotBlock(Map(), c, j), Rem(j, dpb)];
        assert was[j] == old(disk[SlotBlock(Map(), c, j), Rem(j, dpb)]);
      }
    }

    /** The first i of n blocks are filled; the next entry goes to index `offset` of block i. */
    ghost predicate Filling(c: seq<int>, was: seq<DirEntry>, pos: nat, src: seq<DirEntry>, i: nat, done: nat, offset: nat)
      requires Geometry() && Inside(c) && pos + |src| <= |was|
      reads disk
    {
      && done == Upto(dpb, pos, |src|, i) && View(c) == Splice(was, pos, src[..done])
      && offset == if i == 0 then Rem(pos, dpb) else 0
    }

    /** One block of the second stage of fat_add_entries. */
    method FillOne(bh: nat, pos: nat, src: seq<DirEntry>, done: nat, offset: nat,
                   ghost i: nat, ghost c: seq<int>, ghost was: seq<DirEntry>)
      returns (done': nat)
      requires Geometry() && Inside(c) && |was| == Size(c) && pos + |src| <= |was| && i < NrBlocks(dpb, pos, |src|)
      requires BlockIs(Map(), c, bh, Quot(pos, dpb) + i) && Filling(c, was, pos, src, i, done, offset)
      modifies disk, this`views
      ensures Filling(c, was, pos, src, i + 1, done', 0) && views == old(views) + [View(c)]
      ensures OnlyClusters(c)
    {
      UptoAll(dpb, pos, |src|, i);
      UptoPlace(dpb, pos, |src|, i);
      UptoStep(dpb, pos, |src|, i);
      var left := |src| - done;
      var copy := if dpb - offset < left then dpb - offset else left;
      done' := done + copy;
      SlotOnDisk(c, pos + done);
      CopyIn(bh, offset, src[done..done'], c, pos + done);
      SpliceMore(was, pos, src, done, done');
      views := views + [View(c)];
    }

    /** The second stage of fat_add_entries: block after block, and the block with the short
        name last (when all slots go in here). */
    method FillFree(bhs: seq<int>, pos: nat, src: seq<DirEntry>, whole: bool, ghost c: seq<int>)
      requires Geometry() && Inside(c) && 0 < |src| && pos + |src| <= Size(c) && Covers(Map(), c, bhs, pos, |src|)
      requires forall i :: 0 <= i < |bhs| ==> bhs[i] >= 0
      modifies disk, this`views
      ensures View(c) == Splice(old(View(c)), pos, src)
      ensures views == old(views) + FillViews(dpb, old(View(c)), pos, src, |src|)
      ensures OnlyClusters(c)
    {
      ghost var was := View(c);
      FillBlocks(bhs, pos, src, if whole then |bhs| - 1 else |bhs|, c, was, FillViews(dpb, was, pos, src, |src|));
      UptoAll(dpb, pos, |src|, |bhs|);
      assert src[..|src|] == src;
    }

    /** The loop of the second stage, and the last block behind it. */
    method FillBlocks(bhs: seq<int>, pos: nat, src: seq<DirEntry>, longBhs: nat,
                      ghost c: seq<int>, ghost was: seq<DirEntry>, ghost all: seq<seq<DirEntry>>)
      requires Geometry() && Inside(c) && pos + |src| <= Size(c) && Covers(Map(), c, bhs, pos, |src|)
      requires |bhs| - 1 <= longBhs <= |bhs| == NrBlocks(dpb, pos, |src|) && forall i :: 0 <= i < |bhs| ==> bhs[i] >= 0
      requires was == View(c) && |all| == |bhs|
      requires forall i {:trigger all[i]} :: 0 <= i < |bhs| ==> all[i] == Splice(was, pos, src[..Upto(dpb, pos, |src|, i + 1)])
      modifies disk, this`views
      ensures View(c) == Splice(was, pos, src[..Upto(dpb, pos, |src|, |bhs|)])
      ensures views == old(views) + all && OnlyClusters(c)
    {
      QuotRemIsDivMod(pos, dpb);
      var offset: nat, done, i := pos % dpb, 0, 0;
      assert Splice(was, pos, src[..0]) == was;
      while i < longBhs
        invariant 0 <= i <= longBhs && Filling(c, was, pos, src, i, done, offset)
        invariant views == old(views) + all[..i] && OnlyClusters(c)
      {
        done := FillOne(bhs[i], pos, src, done, offset, i, c, was);
        offset := 0;
        assert all[..i + 1] == all[..i] + [all[i]];
        i := i + 1;
      }
      if i < |bhs| {
        done := FillOne(bhs[i], pos, src, done, offset, i, c, was);
        assert all[..i + 1] == all[..i] + [all[i]];
      }
      assert all[..|bhs|] == all;
    }

    // ----- new clusters

    /** Block r of cluster i, the q-th of all, begins with entry k == q * dpb. */
    lemma BlockStart(c: seq<int>, i: nat, r: nat, q: nat, k: nat)
      requires Geometry() && Inside(c) && i < |c| && r < inode.vol.secPerClus
      requires q == Times(i, inode.vol.secPerClus) + r && k == Times(q, dpb)
      ensures Times(q + 1, dpb) <= Size(c) && Place(Map(), c, inode.vol.ClusToBlk(c[i]) + r, 0, k)
    {
      FirstSlot(Map(), c, i, r, q);
      TimesAdd(q, 1, dpb);
      assert Times(1, dpb) == dpb;
      SlotOnDisk(c, k);
    }

    /** A block of the new clusters, from index `de` on; `a` is what is there before it. */
    method Append(bh: nat, de: nat, b: seq<DirEntry>, ghost c: seq<int>, ghost was: seq<DirEntry>, ghost a: seq<DirEntry>)
      requires Geometry() && Inside(c) && |was| == Size(c) && |a| + |b| <= |was| && View(c) == Splice(was, 0, a)
      requires Place(Map(), c, bh, de, |a|) && de + |b| <= dpb
      modifies disk
      ensures View(c) == Splice(was, 0, a + b)
      ensures OnlyClusters(c)
    {
      CopyIn(bh, de, b, c, |a|);
      SpliceAppend(was, a, b);
      SlotHasBlock(Map(), c, |a|);
      assert BlockIs(Map(), c, bh, Quot(|a|, dpb));
    }

    /** No block outside the clusters c has changed. */
    twostate predicate OnlyClusters(c: seq<int>)
      reads disk
    {
      forall b, e :: 0 <= b < disk.Length0 && 0 <= e < disk.Length1 && NoBlock(Map(), c, b) ==> disk[b, e] == old(disk[b, e])
    }

    /** The inner loop of fat_add_new_entries: blocks of cluster i, until src is used up. */
    method FillCluster(c: seq<int>, i: nat, src: seq<DirEntry>, n0: nat, ghost was: seq<DirEntry>) returns (n: nat, start: nat)
      requires Geometry() && Inside(c) && i < |c| && n0 == Times(i, inode.vol.secPerClus)
      requires |was| == Size(c) && Times(n0, dpb) < |src| <= |was| && View(c) == Splice(was, 0, src[..Times(n0, dpb)])
      modifies disk
      ensures n0 <= n <= n0 + inode.vol.secPerClus && OnlyClusters(c) && start == inode.vol.ClusToBlk(c[i])
      ensures if n < n0 + inode.vol.secPerClus then Times(n, dpb) < |src| <= Times(n + 1, dpb) && View(c) == Splice(was, 0, src)
              else Times(n, dpb) < |src| && View(c) == Splice(was, 0, src[..Times(n, dpb)])
    {
      var spc := inode.vol.secPerClus;
      TimesIsProduct(c[i] - 2, spc);
      start := (c[i] - FAT_START_ENT) * spc + inode.vol.dataStart;
      var blk, done := start, 0;
      n := n0;
      TimesIsProduct(n0, dpb);
      done := n0 * dpb;
      while blk < start + spc
        invariant n0 <= n <= n0 + spc && blk == start + (n - n0) && done == Times(n, dpb) < |src|
        invariant View(c) == Splice(was, 0, src[..done]) && OnlyClusters(c)
      {
        var copy := if |src| - done < dpb then |src| - done else dpb;
        BlockStart(c, i, blk - start, n, done);
        Append(blk, 0, src[done..done + copy], c, was, src[..done]);
        assert src[..done] + src[done..done + copy] == src[..done + copy];
        TimesAdd(n, 1, dpb);
        done := done + copy;
        if done == |src| {
          assert src[..done] == src;
          return;
        }
        n := n + 1;
        blk := blk + 1;
      }
    }

    /** fat_zeroed_cluster: the blocks behind the first nrUsed of the last cluster. The
        assert is the size of the array bhs, which is flushed when full. */
    method ZeroedCluster(blknr: nat, nrUsed: nat, ghost c: seq<int>, ghost was: seq<DirEntry>, ghost a: seq<DirEntry>)
      requires Geometry() && Inside(c) && c != [] && blknr == inode.vol.ClusToBlk(c[|c| - 1]) && nrUsed <= 3
      requires |was| == Size(c) && |a| <= Size(c) && View(c) == Splice(was, 0, a)
      requires if nrUsed < inode.vol.secPerClus then |c| == 1 && |a| == Times(nrUsed, dpb) else |a| == Size(c)
      modifies disk
      ensures View(c) == a + Zeros(Size(c) - |a|) && OnlyClusters(c)
    {
      var spc := inode.vol.secPerClus;
      var blk, n := blknr + nrUsed, nrUsed;
      ghost var b := a;
      while blk < blknr + spc
        invariant blknr + nrUsed <= blk && n < MAX_BUF_PER_PAGE && OnlyClusters(c)
        invariant |a| <= |b| <= Size(c) && b == a + Zeros(|b| - |a|) && View(c) == Splice(was, 0, b)
        invariant if nrUsed < spc then blk <= blknr + spc && |b| == Times(blk - blknr, dpb) else b == a
      {
        assert n < MAX_BUF_PER_PAGE;
        BlockStart(c, 0, blk - blknr, blk - blknr, |b|);
        TimesAdd(blk - blknr, 1, dpb);
        Append(blk, 0, Zeros(dpb), c, was, b);
        assert a + Zeros(|b| - |a|) + Zeros(dpb) == a + Zeros(|b| + dpb - |a|);
        b := b + Zeros(dpb);
        n := n + 1;
        blk := blk + 1;
        if n == MAX_BUF_PER_PAGE {
          n := 0;
        }
      }
      if nrUsed < spc {
        assert Times(1, spc) == spc;
      }
    }

    /** The clusters c are the fewest that hold n entries. */
    ghost predicate JustHold(c: seq<int>, n: nat) {
      && 1 <= |c| <= 2 && Slots(Map(), |c| - 1) < n <= Size(c) && n <= MSDOS_SLOTS
      && (|c| == 2 ==> inode.vol.secPerClus == 1)
    }

    /** The end of fat_add_new_entries: clear the rest of the last block used, and of the
        last cluster. */
    method FinishBlock(c: seq<int>, n: nat, start: nat, bh: nat, src: seq<DirEntry>, ghost was: seq<DirEntry>) returns (de: nat)
      requires Geometry() && Inside(c) && JustHold(c, |src|) && |was| == Size(c) && View(c) == Splice(was, 0, src)
      requires Times(n, dpb) < |src| <= Times(n + 1, dpb)
      requires var done := Times(|c| - 1, inode.vol.secPerClus);
        done <= n < done + inode.vol.secPerClus && start == inode.vol.ClusToBlk(c[|c| - 1]) && bh == start + (n - done)
      modifies disk
      ensures View(c) == src + Zeros(Size(c) - |src|) && OnlyClusters(c)
      ensures Place(Map(), c, bh, de, |src| - 1)
    {
      var spc := inode.vol.secPerClus;
      TimesIsProduct(n, dpb);
      var copy := |src| - n * dpb;
      TimesAdd(n, 1, dpb);
      BlockStart(c, |c| - 1, n - Times(|c| - 1, spc), n, |src| - copy);
      SameBlockSlot(c, bh, n, copy - 1);
      de := copy - 1;
      ghost var a := src;
      if copy < dpb {
        SameBlockSlot(c, bh, n, copy);
        Append(bh, copy, Zeros(dpb - copy), c, was, src);
        a := src + Zeros(dpb - copy);
      }
      assert |a| == Times(n + 1, dpb);
      TimesAdd(|c| - 1, 1, spc);
      assert Times(1, spc) == spc;
      assert n <= 1 by {
        if n >= 2 { MulLe(2, n, dpb); }
      }
      ZeroedCluster(start, n + 1, c, was, a);
      assert a + Zeros(Size(c) - |a|) == src + Zeros(Size(c) - |src|);
    }

    lemma SameBlockSlot(c: seq<int>, bh: int, n: nat, de: nat)
      requires Geometry() && Inside(c) && Place(Map(), c, bh, 0, Times(n, dpb)) && de < dpb && Times(n + 1, dpb) <= Size(c)
      ensures Place(Map(), c, bh, de, Times(n, dpb) + de)
    {
      TimesAdd(n, 1, dpb);
      assert Times(1, dpb) == dpb;
      QuotRemAdd(Times(n, dpb), dpb, de);
    }

    /** Both loops of fat_add_new_entries: the new clusters hold src and then zeros; the last
        entry of src is entry `de` of block bh. */
    method FillClusters(c: seq<int>, src: seq<DirEntry>) returns (bh: nat, de: nat)
      requires Geometry() && Inside(c) && JustHold(c, |src|)
      modifies disk
      ensures View(c) == src + Zeros(Size(c) - |src|) && OnlyClusters(c)
      ensures Place(Map(), c, bh, de, |src| - 1)
    {
      ghost var was := View(c);
      var spc, i, n, start := inode.vol.secPerClus, 0, 0, 0;
      bh := 0;
      while i < |c|
        invariant 0 <= i <= |c| && OnlyClusters(c)
        invariant i < |c| ==> n == Times(i, spc) && Times(n, dpb) < |src| && View(c) == Splice(was, 0, src[..Times(n, dpb)])
        invariant i == |c| ==> Times(n, dpb) < |src| <= Times(n + 1, dpb) && View(c) == Splice(was, 0, src)
        invariant i == |c| ==> Times(i - 1, spc) <= n < Times(i, spc) && start == inode.vol.ClusToBlk(c[i - 1])
        invariant i == |c| ==> bh == start + (n - Times(i - 1, spc))
      {
        var n0 := n;
        n, start := FillCluster(c, i, src, n, was);
        bh := start + (n - n0);
        TimesAdd(i, 1, spc);
        assert Times(1, spc) == spc;
        i := i + 1;
        if n < n0 + spc {
          TimesMonotone(n + 1, Times(i, spc), dpb);
        }
      }
      TimesAdd(|c| - 1, 1, spc);
      de := FinishBlock(c, n, start, bh, src, was);
    }

    /** The number of clusters n new entries take. */
    ghost function NewClusters(n: nat): nat
      requires Geometry()
    {
      CeilDiv(32 * n, inode.vol.ClusterSize())
    }

    /** One or two clusters, and two only where a cluster is a single block. */
    lemma NewClustersFit(n: nat)
      requires Geometry() && 1 <= n <= MSDOS_SLOTS
      ensures 1 <= NewClusters(n) <= 2 && Slots(Map(), NewClusters(n) - 1) < n <= Slots(Map(), NewClusters(n))
      ensures NewClusters(n) == 2 ==> inode.vol.secPerClus == 1
    {
      var nc, spc, size := NewClusters(n), inode.vol.secPerClus, inode.vol.ClusterSize();
      CeilBounds(32 * n, size);
      TimesIsProduct(spc, 32 * dpb);
      TimesIsProduct(spc, dpb);
      MulLe(1, spc, 32 * dpb);
      SlotBytes(nc);
      SlotBytes(nc - 1);
      TimesIsProduct(2, size);
      if spc >= 2 {
        MulLe(2, spc, 32 * dpb);
      }
    }

    lemma SlotBytes(n: nat)
      requires Geometry()
      ensures 32 * Slots(Map(), n) == Times(n, inode.vol.ClusterSize())
    {
      var spc := inode.vol.secPerClus;
      TimesAssoc(n, spc, dpb);
      TimesIsProduct(spc, dpb);
      TimesIsProduct(spc, 32 * dpb);
      TimesIsProduct(n, Times(spc, dpb));
      TimesIsProduct(n, Times(spc, 32 * dpb));
      assert spc * (32 * dpb) == 32 * (spc * dpb);
      assert n * (32 * (spc * dpb)) == 32 * (n * (spc * dpb));
    }

    /** Blocks of disjoint chains. */
    lemma ApartBlocks(c: seq<int>, d: seq<int>, j: nat)
      requires Geometry() && Inside(c) && Inside(d) && j < Size(c) && forall i :: 0 <= i < |d| ==> d[i] !in c
      ensures HasSlot(Map(), c, j) && NoBlock(Map(), d, SlotBlock(Map(), c, j))
    {
      SlotOnDisk(c, j);
      SlotHasBlock(Map(), c, j);
      forall q: nat | HasBlock(Map(), d, q)
        ensures BlockAt(Map(), d, q) != SlotBlock(Map(), c, j)
      {
        if BlockAt(Map(), d, q) == SlotBlock(Map(), c, j) {
          SameBlock(Map(), d, q, c, Quot(j, dpb));
        }
      }
    }

    /** The clusters for n new entries, which nobody owns yet. */
    method NewRoom(n: nat, ghost c: seq<int>) returns (err: int, cs: seq<int>)
      requires On(c) && 1 <= n <= MSDOS_SLOTS && inode.vol.pending == []
      modifies inode.vol`pending, inode.vol`trace, inode.vol`prevFree, inode.vol`freeClusters, inode.vol`freeClusValid, inode.vol`discarded
      modifies inode.vol.dev, inode.vol.dev.data
      ensures On(c) && inode.vol.dev.stale <= old(inode.vol.dev.stale)
      ensures inode.vol.pending == cs && LogGrows(old(inode.vol.trace), inode.vol.trace, inode.vol.live, {})
      ensures err == 0 <==> FreeCount(old(inode.vol.dev.ents)) >= NewClusters(n)
      ensures err != 0 ==> err == ENOSPC && cs == []
      ensures err == 0 ==> |cs| == NewClusters(n) && IsChain(inode.vol.dev.ents, cs) && Unowned(inode.vol.live, cs) && Inside(cs)
    {
      ghost var f := inode.vol.dev.ents;
      var size := 32 * n;
      var clusterSize := inode.vol.secPerClus * inode.vol.dev.bs;
      TimesIsProduct(inode.vol.secPerClus, inode.vol.dev.bs);
      QuotRemIsDivMod(size + clusterSize - 1, clusterSize);
      var nrCluster := (size + (clusterSize - 1)) / clusterSize;
      NewClustersFit(n);
      assert nrCluster <= 2;
      err, cs := inode.vol.AllocClusters(nrCluster);
      inode.OthersKeep(f, c);
      if err != 0 {
        cs := [];
      } else {
        FreeAreUnowned(f, inode.vol.live, cs);
      }
    }

    /** Filling clusters that are no part of the directory leaves it as it is. */
    method FillApart(cs: seq<int>, src: seq<DirEntry>, ghost c: seq<int>) returns (bh: nat, de: nat)
      requires Geometry() && Inside(c) && Inside(cs) && JustHold(cs, |src|) && forall i :: 0 <= i < |cs| ==> cs[i] !in c
      modifies disk
      ensures View(c) == old(View(c)) && View(cs) == src + Zeros(Size(cs) - |src|) && OnlyClusters(cs)
      ensures Place(Map(), cs, bh, de, |src| - 1)
    {
      ghost var was := View(c);
      bh, de := FillClusters(cs, src);
      forall j | 0 <= j < Size(c)
        ensures View(c)[j] == was[j]
      {
        ApartBlocks(c, cs, j);
        SlotOnDisk(c, j);
      }
    }

    /** fat_add_new_entries: new clusters that hold src, not yet part of the directory. The
        assert is the source's BUG_ON, negated. */
    method AddNewEntries(src: seq<DirEntry>, ghost c: seq<int>) returns (err: int, cs: seq<int>, bh: nat, de: nat)
      requires On(c) && 1 <= |src| <= MSDOS_SLOTS && inode.vol.pending == []
      modifies inode.vol`pending, inode.vol`trace, inode.vol`prevFree, inode.vol`freeClusters, inode.vol`freeClusValid, inode.vol`discarded
      modifies inode.vol.dev, inode.vol.dev.data, disk
      ensures On(c) && inode.vol.dev.stale <= old(inode.vol.dev.stale)
      ensures inode.vol.pending == cs && LogGrows(old(inode.vol.trace), inode.vol.trace, inode.vol.live, {})
      ensures View(c) == old(View(c))
      ensures err == 0 <==> FreeCount(old(inode.vol.dev.ents)) >= NewClusters(|src|)
      ensures err != 0 ==> err == ENOSPC && cs == [] && OnlyClusters([])
      ensures err == 0 ==> |cs| == NewClusters(|src|) && IsChain(inode.vol.dev.ents, cs) && Unowned(inode.vol.live, cs)
      ensures err == 0 ==> Inside(cs) && (forall i :: 0 <= i < |cs| ==> cs[i] !in c) && Place(Map(), cs, bh, de, |src| - 1)
      ensures err == 0 ==> View(cs) == src + Zeros(Size(cs) - |src|) && OnlyClusters(cs)
      ensures inode.vol.live == old(inode.vol.live)
    {
      bh, de := 0, 0;
      err, cs := NewRoom(|src|, c);
      if err != 0 {
        return;
      }
      NewClustersFit(|src|);
      assert forall i :: 0 <= i < |cs| ==> !Owned(inode.vol.live, cs[i]) && cs[i] !in c;
      bh, de := FillApart(cs, src, c);
    }

    lemma ViewJoin(c: seq<int>, d: seq<int>)
      requires Geometry() && Inside(c) && Inside(d) && Inside(c + d)
      ensures View(c + d) == View(c) + View(d) && Size(c + d) == Size(c) + Size(d)
    {
      TimesAdd(|c|, |d|, inode.vol.secPerClus);
      TimesAdd(Times(|c|, inode.vol.secPerClus), Times(|d|, inode.vol.secPerClus), dpb);
      forall k | 0 <= k < Size(c + d)
        ensures View(c + d)[k] == (View(c) + View(d))[k]
      {
        SlotOnDisk(c + d, k);
        SlotsJoin(Map(), c, d, k);
      }
    }

    /** Below the size limit a directory can take two more clusters. */
    lemma RoomInFile(c: seq<int>)
      requires Geometry() && Size(c) < MAX_DIR_ENTRIES
      ensures |c| + 2 <= inode.limit + 1
    {
      TimesIsProduct(|c|, inode.vol.secPerClus);
      TimesIsProduct(Times(|c|, inode.vol.secPerClus), dpb);
      MulLe(1, inode.vol.secPerClus, |c|);
      MulLe(16, dpb, Times(|c|, inode.vol.secPerClus));
    }

    /** fat_chain_add and the new size. */
    method HangOn(cs: seq<int>, ghost c: seq<int>) returns (err: int)
      requires On(c) && Size(c) < MAX_DIR_ENTRIES && 1 <= |cs| <= 2
      requires IsChain(inode.vol.dev.ents, cs) && Unowned(inode.vol.live, cs) && inode.vol.pending == cs
      modifies inode`iStart, inode`iSize, inode`iBlocks, inode`mmuPrivate, inode`cacheLru, inode`nrCaches
      modifies inode.vol`live, inode.vol`pending, inode.vol`trace, inode.vol.dev, inode.vol.dev.data
      ensures err == 0 && On(c + cs) && inode.vol.dev.stale <= old(inode.vol.dev.stale)
      ensures inode.vol.pending == [] && LogGrows(old(inode.vol.trace), inode.vol.trace, old(inode.vol.live), {inode.ino})
      ensures inode.vol.live == old(inode.vol.live)[inode.ino := c + cs]
    {
      RoomInFile(c);
      err := inode.ChainAdd(cs[0], |cs|, cs);
      var clusterSize := inode.vol.secPerClus * inode.vol.dev.bs;
      TimesIsProduct(inode.vol.secPerClus, inode.vol.dev.bs);
      TimesIsProduct(|cs|, clusterSize);
      TimesAdd(|c|, |cs|, clusterSize);
      inode.iSize := inode.iSize + |cs| * clusterSize;
      inode.mmuPrivate := inode.mmuPrivate + |cs| * clusterSize;
      ValidFacts();
    }

    /** Entry k of the second part of a chain. */
    lemma PlaceJoin(c: seq<int>, d: seq<int>, bh: int, de: nat, k: nat)
      requires Geometry() && Inside(c) && Inside(d) && Inside(c + d) && Place(Map(), d, bh, de, k)
      ensures Place(Map(), c + d, bh, de, Size(c) + k)
    {
      ViewJoin(c, d);
      SlotOnDisk(c + d, Size(c) + k);
      SlotsJoin(Map(), c, d, Size(c) + k);
    }

    /** The third stage of fat_add_entries: fill new clusters, then hang them behind the
        directory's chain. */
    method Extend(src: seq<DirEntry>, ghost c: seq<int>) returns (err: int, bh: nat, de: nat, ghost cs: seq<int>)
      requires On(c) && 1 <= |src| <= MSDOS_SLOTS && Size(c) < MAX_DIR_ENTRIES && inode.vol.pending == []
      modifies inode`iStart, inode`iSize, inode`iBlocks, inode`mmuPrivate, inode`cacheLru, inode`nrCaches
      modifies inode.vol, inode.vol.dev, inode.vol.dev.data, disk
      ensures inode.vol.dev.stale <= old(inode.vol.dev.stale)
      ensures inode.vol.pending == [] && LogGrows(old(inode.vol.trace), inode.vol.trace, old(inode.vol.live), {inode.ino})
      ensures err == 0 <==> FreeCount(old(inode.vol.dev.ents)) >= NewClusters(|src|)
      ensures err == 0 || err == ENOSPC
      ensures |cs| == if err == 0 then NewClusters(|src|) else 0
      ensures Inside(cs) && Inside(c + cs) && OnlyClusters(cs) && On(c + cs)
      ensures err == 0 ==> Size(c + cs) >= Size(c) + |src|
      ensures View(c + cs) == old(View(c)) + if err == 0 then src + Zeros(Size(c + cs) - Size(c) - |src|) else []
      ensures err == 0 ==> Place(Map(), c + cs, bh, de, Size(c) + |src| - 1)
      ensures inode.vol.live == old(inode.vol.live)[inode.ino := c + cs]
    {
      ghost var t0, live := inode.vol.trace, inode.vol.live;
      var new_;
      err, new_, bh, de := AddNewEntries(src, c);
      ghost var t1 := inode.vol.trace;
      cs := [];
      assert c + [] == c;
      if err != 0 {
        GrowsWider(t0, t1, live, {}, {inode.ino});
        return;
      }
      cs := new_;
      NewClustersFit(|src|);
      err := HangOn(new_, c);
      GrowsTrans(t0, t1, inode.vol.trace, live, live, {}, {inode.ino}, {inode.ino});
      ViewJoin(c, cs);
      PlaceJoin(c, cs, bh, de, |src| - 1);
    }

    // ----- deleting

    /** de->name[0] = DELETED_FLAG. */
    method MarkEntry(bh: nat, de: nat, ghost c: seq<int>, ghost k: nat)
      requires Geometry() && Inside(c) && Place(Map(), c, bh, de, k)
      modifies disk
      ensures View(c) == Marked(old(View(c)), k, 1) && OnlyClusters(c)
    {
      ghost var was := View(c);
      SlotOnDisk(c, k);
      disk[bh, de] := Deleted(disk[bh, de]);
      forall j | 0 <= j < Size(c)
        ensures View(c)[j] == Marked(was, k, 1)[j]
      {
        SlotOnDisk(c, j);
        SlotRange(Map(), c, k, 1, j);
        assert was[j] == old(disk[SlotBlock(Map(), c, j), Rem(j, dpb)]);
      }
      SlotHasBlock(Map(), c, k);
      assert BlockIs(Map(), c, bh, Quot(k, dpb));
    }

    /** The inner loop of __fat_remove_entries: forwards to the end of the block. */
    method MarkOn(bh: nat, de: nat, n: nat, ghost c: seq<int>, ghost k: nat) returns (left: nat)
      requires Geometry() && Inside(c) && Place(Map(), c, bh, de, k) && k + n <= Size(c)
      modifies disk
      ensures left == (if n > dpb - de then n - (dpb - de) else 0)
      ensures View(c) == Marked(old(View(c)), k, n - left) && OnlyClusters(c)
    {
      ghost var was, done := View(c), 0;
      left := n;
      var at := de;
      assert Marked(was, k, 0) == was;
      while left > 0 && at < dpb
        invariant left + done == n && at == de + done <= dpb
        invariant View(c) == Marked(was, k, done) && OnlyClusters(c)
      {
        SlotOn(c, bh, de, k, done);
        MarkEntry(bh, at, c, k + done);
        MarkedTwice(was, k, done, 1);
        done := done + 1;
        at := at + 1;
        left := left - 1;
      }
    }

    /** The loop of fat_remove_entries: from the short name backwards to the start of its block. */
    method MarkBack(bh: nat, last: nat, n: nat, ghost c: seq<int>, ghost k: nat) returns (left: nat)
      requires Geometry() && Inside(c) && n <= k + 1 && Place(Map(), c, bh, last, k)
      modifies disk
      ensures left == (if n > last + 1 then n - last - 1 else 0)
      ensures View(c) == Marked(old(View(c)), k + 1 - (n - left), n - left) && OnlyClusters(c)
    {
      ghost var was := View(c);
      var de: int := last;
      left := n;
      assert Marked(was, k + 1, 0) == was;
      while left > 0 && de >= 0
        invariant -1 <= de <= last && n - left == last - de
        invariant View(c) == Marked(was, k + 1 - (n - left), n - left) && OnlyClusters(c)
        decreases left
      {
        SlotBack(c, bh, last, k, n - left);
        MarkEntry(bh, de, c, k - (n - left));
        MarkedTwice(was, k - (n - left), 1, n - left);
        de := de - 1;
        left := left - 1;
      }
    }

    lemma SlotOn(c: seq<int>, bh: int, de: nat, k: nat, m: nat)
      requires Geometry() && Inside(c) && Place(Map(), c, bh, de, k) && de + m < dpb && k + m < Size(c)
      ensures Place(Map(), c, bh, de + m, k + m)
    {
      QuotRemAdd(k, dpb, m);
      SlotOnDisk(c, k + m);
    }

    lemma SlotBack(c: seq<int>, bh: int, de: nat, k: nat, m: nat)
      requires Geometry() && Inside(c) && Place(Map(), c, bh, de, k) && m <= de
      ensures m <= k && Place(Map(), c, bh, de - m, k - m)
    {
      QuotRem(k, dpb);
      QuotRemUnique(k - m, dpb, Quot(k, dpb), de - m);
      SlotOnDisk(c, k - m);
    }

    /** Two neighbouring ranges, marked in either order. */
    static lemma MarkedTwice(s: seq<DirEntry>, p: nat, m: nat, n: nat)
      requires p + m + n <= |s|
      ensures Marked(Marked(s, p, m), p + m, n) == Marked(s, p, m + n) == Marked(Marked(s, p + m, n), p, m)
    {
    }

    /** One round of __fat_remove_entries: the entries of one block. */
    method RemoveBlock(pos: nat, nr: nat, ghost c: seq<int>) returns (ok: bool, next: nat, left: nat)
      requires On(c) && 0 < nr && pos + nr <= Size(c)
      modifies inode`cacheLru, inode`nrCaches, disk
      ensures On(c) && ok && left < nr && next == pos + (nr - left)
      ensures View(c) == Marked(old(View(c)), pos, nr - left) && OnlyClusters(c)
    {
      var cu;
      left := nr;
      ok, cu := GetEntry(Cursor(pos, -1, 0), c);
      if !ok {
        return;
      }
      left := MarkOn(cu.bh, cu.de, nr, c, pos);
      next := cu.pos + (nr - left) - 1;
    }

    /** __fat_remove_entries. */
    method RemoveSlots(pos0: nat, nr0: nat, ghost c: seq<int>) returns (err: int)
      requires On(c) && pos0 + nr0 <= Size(c)
      modifies inode`cacheLru, inode`nrCaches, disk
      ensures On(c) && err == 0
      ensures View(c) == Marked(old(View(c)), pos0, nr0) && OnlyClusters(c)
    {
      ghost var was, done := View(c), 0;
      var pos: nat, nr: nat := pos0, nr0;
      assert Marked(was, pos, 0) == was;
      while nr > 0
        invariant On(c) && OnlyClusters(c)
        invariant pos == pos0 + done && done + nr == nr0 && View(c) == Marked(was, pos0, done)
      {
        var ok, next, left := RemoveBlock(pos, nr, c);
        if !ok {
          return EIO;
        }
        MarkedTwice(was, pos0, done, nr - left);
        done := done + (nr - left);
        pos, nr := next, left;
      }
      err := 0;
    }

    /** The part of a run that lies before the block of its short name. */
    method RemoveBefore(slotOff: nat, left: nat, nr: nat, ghost c: seq<int>, ghost was: seq<DirEntry>)
      requires On(c) && left <= nr && slotOff + nr <= Size(c) == |was| && View(c) == Marked(was, slotOff + left, nr - left)
      modifies inode`cacheLru, inode`nrCaches, disk
      ensures On(c) && View(c) == Marked(was, slotOff, nr) && OnlyClusters(c)
    {
      var err := RemoveSlots(slotOff, left, c);
      MarkedTwice(was, slotOff, left, nr - left);
    }

    /** fat_remove_entries: nr entries up to the short name at index de of block bh. */
    method RemoveEntries(slotOff: nat, nr: nat, bh: nat, de: nat, ghost c: seq<int>) returns (err: int)
      requires On(c) && 1 <= nr && Place(Map(), c, bh, de, slotOff + nr - 1)
      modifies inode`cacheLru, inode`nrCaches, disk
      ensures On(c) && err == 0 && slotOff + nr <= Size(c)
      ensures View(c) == Marked(old(View(c)), slotOff, nr) && OnlyClusters(c)
    {
      ghost var was := View(c);
      var left := MarkBack(bh, de, nr, c, slotOff + nr - 1);
      if left > 0 {
        RemoveBefore(slotOff, left, nr, c, was);
      }
      err := 0;
    }

    lemma NeitherBlock(c: seq<int>, d: seq<int>, b: int)
      requires Geometry() && Inside(c) && Inside(d) && NoBlock(Map(), c + d, b)
      ensures NoBlock(Map(), c, b) && NoBlock(Map(), d, b)
    {
      forall q: nat
        ensures !BlockIs(Map(), c, b, q) && !BlockIs(Map(), d, b, q)
      {
        BlockJoin(Map(), c, d, q);
        assert !BlockIs(Map(), c + d, b, q) && !BlockIs(Map(), c + d, b, q + Times(|c|, inode.vol.secPerClus));
      }
    }

    /** The free entries that are there already, if any. */
    method FillStart(bhs: seq<int>, pos: nat, slots: seq<DirEntry>, free: nat, ghost c: seq<int>)
      requires Geometry() && Inside(c) && free <= |slots| && pos + free <= Size(c) && Covers(Map(), c, bhs, pos, free)
      modifies disk, this`views
      ensures View(c) == Splice(old(View(c)), pos, slots[..free]) && OnlyClusters(c)
      ensures views == old(views) + FillViews(dpb, old(View(c)), pos, slots, free)
    {
      ghost var was := View(c);
      if free == 0 {
        return;
      }
      forall i | 0 <= i < |bhs|
        ensures bhs[i] >= 0 && BlockIs(Map(), c, bhs[i], Quot(pos, dpb) + i)
      {
      }
      FillFree(bhs, pos, slots[..free], free == |slots|, c);
      SameViews(dpb, was, pos, slots, free);
    }

    /** error_remove: the entries filled in are marked deleted. */
    method GiveBack(pos: nat, src: seq<DirEntry>, ghost c: seq<int>, ghost was: seq<DirEntry>)
      requires On(c) && FreeRun(was, pos, |src|) && |was| == Size(c) && View(c) == Splice(was, pos, src)
      modifies inode`cacheLru, inode`nrCaches, disk
      ensures On(c) && Untouched(was, View(c)) && OnlyClusters(c)
    {
      UndoFill(was, pos, src);
      if |src| > 0 {
        var e := RemoveSlots(pos, |src|, c);
      }
    }

    /** The second and the third stage of fat_add_entries, when the directory has to grow. */
    method FillAndExtend(slots: seq<DirEntry>, pos: nat, free: nat, bhs: seq<int>, ghost c: seq<int>)
      returns (err: int, bh: nat, de: nat, ghost cs: seq<int>)
      requires On(c) && free < |slots| <= MSDOS_SLOTS && pos + free == Size(c) < MAX_DIR_ENTRIES && inode.vol.pending == []
      requires Covers(Map(), c, bhs, pos, free) && FreeRun(View(c), pos, free)
      modifies inode`iStart, inode`iSize, inode`iBlocks, inode`mmuPrivate, inode`cacheLru, inode`nrCaches
      modifies inode.vol, inode.vol.dev, inode.vol.dev.data, disk, this`views
      ensures inode.vol.dev.stale <= old(inode.vol.dev.stale)
      ensures inode.vol.pending == [] && LogGrows(old(inode.vol.trace), inode.vol.trace, old(inode.vol.live), {inode.ino})
      ensures err == if FreeCount(old(inode.vol.dev.ents)) >= NewClusters(|slots| - free) then 0 else ENOSPC
      ensures |cs| == (if err == 0 then NewClusters(|slots| - free) else 0) && Inside(c + cs) && On(c + cs)
      ensures inode.vol.live == old(inode.vol.live)[inode.ino := c + cs]
      ensures views == old(views) + FillViews(dpb, old(View(c)), pos, slots, free) + if err == 0 && free < |slots| then [View(c + cs)] else []
      ensures err != 0 ==> Untouched(old(View(c)), View(c + cs))
      ensures err == 0 ==> Added(old(View(c)), slots, pos, View(c + cs)) && Place(Map(), c + cs, bh, de, pos + |slots| - 1)
      ensures OnlyClusters(c + cs)
    {
      ghost var was := View(c);
      FillStart(bhs, pos, slots, free, c);
      err, bh, de, cs := Extend(slots[free..], c);
      forall b | NoBlock(Map(), c + cs, b)
        ensures NoBlock(Map(), c, b) && NoBlock(Map(), cs, b)
      {
        NeitherBlock(c, cs, b);
      }
      if err != 0 {
        assert c + cs == c;
        GiveBack(pos, slots[..free], c, was);
        return;
      }
      SpliceBehind(was, pos, slots, free, Size(c + cs) - Size(c) - |slots[free..]|);
      views := views + [View(c + cs)];
    }

    /** fat_add_entries behind the search. */
    method AddFound(slots: seq<DirEntry>, pos: nat, free: nat, bhs: seq<int>, cu: Cursor, ghost c: seq<int>, ghost was: seq<DirEntry>)
      returns (err: int, bh: int, de: nat, ghost cs: seq<int>)
      requires On(c) && 1 <= |slots| <= MSDOS_SLOTS && free <= |slots| && inode.vol.pending == []
      requires was == View(c) && FreeRun(was, pos, free) && (free < |slots| ==> pos + free == |was|) && Covers(Map(), c, bhs, pos, free)
      requires if free == |slots| then Place(Map(), c, cu.bh, cu.de, pos + free - 1) else |was| < MAX_DIR_ENTRIES
      modifies inode`iStart, inode`iSize, inode`iBlocks, inode`mmuPrivate, inode`cacheLru, inode`nrCaches
      modifies inode.vol, inode.vol.dev, inode.vol.dev.data, disk, this`views
      ensures inode.vol.dev.stale <= old(inode.vol.dev.stale)
      ensures inode.vol.pending == [] && LogGrows(old(inode.vol.trace), inode.vol.trace, old(inode.vol.live), {inode.ino})
      ensures err == if free == |slots| then 0 else if !isRoot && c == [] then EIO
        else if FreeCount(old(inode.vol.dev.ents)) >= NewClusters(|slots| - free) then 0 else ENOSPC
      ensures |cs| == (if err == 0 && free < |slots| then NewClusters(|slots| - free) else 0)
      ensures Inside(c + cs) && On(c + cs) && OnlyClusters(c + cs)
      ensures inode.vol.live == old(inode.vol.live)[inode.ino := c + cs]
      ensures views == old(views) + FillViews(dpb, was, pos, slots, free) + if err == 0 && free < |slots| then [View(c + cs)] else []
      ensures err != 0 ==> Untouched(was, View(c + cs))
      ensures err == 0 ==> Added(was, slots, pos, View(c + cs)) && Place(Map(), c + cs, bh, de, pos + |slots| - 1)
    {
      cs, err := [], 0;
      assert c + cs == c;
      if free == |slots| {
        FillStart(bhs, pos, slots, free, c);
        assert was + Zeros(0) == was && slots[..free] == slots;
        bh, de := cu.bh, cu.de;
      } else {
        if !isRoot && inode.iStart == 0 {
          return EIO, -1, 0, cs;
        }
        err, bh, de, cs := FillAndExtend(slots, pos, free, bhs, c);
      }
    }

    /** What adding n entries to a directory that holds s comes to, with `unused` clusters free. */
    ghost function AddError(c: seq<int>, s: seq<DirEntry>, n: nat, unused: nat): int
      requires Geometry() && n >= 1
    {
      match Search(s, n, 0)
      case Full => ENOSPC
      case Room(_, free) =>
        if free == n then 0
        else if !isRoot && c == [] then EIO
        else if unused >= NewClusters(n - free) then 0 else ENOSPC
    }

    /** fat_add_entries, for a directory with the chain c; cs are the clusters it grew by. */
    method AddEntries(slots: seq<DirEntry>, ghost c: seq<int>) returns (err: int, slotOff: nat, bh: int, de: nat, ghost cs: seq<int>)
      requires On(c) && 1 <= |slots| <= MSDOS_SLOTS && inode.vol.pending == []
      modifies inode`iStart, inode`iSize, inode`iBlocks, inode`mmuPrivate, inode`cacheLru, inode`nrCaches
      modifies inode.vol, inode.vol.dev, inode.vol.dev.data, disk, this`views
      ensures inode.vol.dev.stale <= old(inode.vol.dev.stale)
      ensures inode.vol.pending == [] && LogGrows(old(inode.vol.trace), inode.vol.trace, old(inode.vol.live), {inode.ino})
      ensures Inside(c + cs) && On(c + cs) && OnlyClusters(c + cs)
      ensures err == AddError(c, old(View(c)), |slots|, FreeCount(old(inode.vol.dev.ents)))
      ensures match Search(old(View(c)), |slots|, 0)
        case Full => cs == [] && views == old(views)
        case Room(pos, free) =>
          && slotOff == pos
          && |cs| == (if err == 0 && free < |slots| then NewClusters(|slots| - free) else 0)
          && views == old(views) + FillViews(dpb, old(View(c)), pos, slots, free) + if err == 0 && free < |slots| then [View(c + cs)] else []
      ensures inode.vol.live == old(inode.vol.live)[inode.ino := c + cs]
      ensures err != 0 ==> Untouched(old(View(c)), View(c + cs))
      ensures err == 0 ==> Added(old(View(c)), slots, slotOff, View(c + cs)) && Place(Map(), c + cs, bh, de, slotOff + |slots| - 1)
    {
      var free, bhs, cu;
      bh, de, slotOff, cs := -1, 0, 0, [];
      assert c + [] == c;
      ghost var was := View(c);
      err, slotOff, free, bhs, cu := FindRoom(|slots|, c, was);
      if err != 0 {
        return;
      }
      err, bh, de, cs := AddFound(slots, slotOff, free, bhs, cu, c, was);
    }
  }
}
