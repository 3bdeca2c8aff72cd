/** Where the blocks of a file, and the entries of a directory, lie on the volume
    (fat_clus_to_blknr and the mapping of fat_bmap). */
module Mapping {
  import opened Arith
  import opened Packing
  import opened Chains

  /** The data area: blocks per cluster, its first block, entries per block. */
  datatype Area = Area(spc: nat, start: nat, dpb: nat)

  ghost predicate Clusters(c: seq<int>) { forall i :: 0 <= i < |c| ==> c[i] >= FAT_START_ENT }

  /** fat_clus_to_blknr. */
  ghost function ClusToBlk(a: Area, c: int): nat
    requires c >= FAT_START_ENT
  {
    Times(c - FAT_START_ENT, a.spc) + a.start
  }

  ghost predicate HasBlock(a: Area, c: seq<int>, sector: nat) {
    a.spc > 0 && Quot(sector, a.spc) < |c| && c[Quot(sector, a.spc)] >= FAT_START_ENT
  }

  /** The volume block of block `sector` of the file with chain c. */
  ghost function BlockAt(a: Area, c: seq<int>, sector: nat): nat
    requires HasBlock(a, c, sector)
  {
    ClusToBlk(a, c[Quot(sector, a.spc)]) + Rem(sector, a.spc)
  }

  /** Every mapped block lies in the data area of max clusters, behind its start. */
  lemma BlockInside(a: Area, c: seq<int>, sector: nat, max: nat)
    requires HasBlock(a, c, sector) && forall i :: 0 <= i < |c| ==> c[i] < max
    ensures a.start <= BlockAt(a, c, sector) < a.start + Times(max - 2, a.spc)
  {
    TimesMonotone(c[Quot(sector, a.spc)] - 1, max - 2, a.spc);
  }

  /** An extent: inside its cluster the mapping is a shift. */
  lemma Extent(a: Area, c: seq<int>, sector: nat, k: nat)
    requires HasBlock(a, c, sector) && k < a.spc - Rem(sector, a.spc)
    ensures HasBlock(a, c, sector + k) && BlockAt(a, c, sector + k) == BlockAt(a, c, sector) + k
  {
    QuotRemAdd(sector, a.spc, k);
  }

  /** A volume block tells its cluster, and its place in it. */
  lemma SameBlock(a: Area, c: seq<int>, i: nat, d: seq<int>, j: nat)
    requires HasBlock(a, c, i) && HasBlock(a, d, j) && BlockAt(a, c, i) == BlockAt(a, d, j)
    ensures c[Quot(i, a.spc)] == d[Quot(j, a.spc)] && Rem(i, a.spc) == Rem(j, a.spc)
  {
    var x, y := c[Quot(i, a.spc)] - 2, d[Quot(j, a.spc)] - 2;
    QuotRemUnique(BlockAt(a, c, i) - a.start, a.spc, x, Rem(i, a.spc));
    QuotRemUnique(BlockAt(a, d, j) - a.start, a.spc, y, Rem(j, a.spc));
  }

  lemma BlockInjective(a: Area, c: seq<int>, i: nat, j: nat)
    requires HasBlock(a, c, i) && HasBlock(a, c, j) && Distinct(c) && BlockAt(a, c, i) == BlockAt(a, c, j)
    ensures i == j
  {
    SameBlock(a, c, i, c, j);
    QuotRemInjective(i, j, a.spc);
  }

  /** No two files, and no two blocks of one file, share a volume block. */
  lemma FilesShareNoBlock(a: Area, f: Fat, live: Live, id: nat, i: nat, id': nat, j: nat)
    requires LiveOk(f, live) && id in live && id' in live
    requires HasBlock(a, live[id], i) && HasBlock(a, live[id'], j)
    requires BlockAt(a, live[id], i) == BlockAt(a, live[id'], j)
    ensures id == id' && i == j
  {
    SameBlock(a, live[id], i, live[id'], j);
    var x := live[id][Quot(i, a.spc)];
    assert x in live[id] && x in live[id'];
    BlockInjective(a, live[id], i, j);
  }

  /** The blocks of two chains are blocks of their concatenation. */
  lemma BlockJoin(a: Area, c: seq<int>, d: seq<int>, q: nat)
    requires a.spc > 0 && Clusters(c) && Clusters(d)
    ensures HasBlock(a, c, q) ==> HasBlock(a, c + d, q) && BlockAt(a, c + d, q) == BlockAt(a, c, q)
    ensures HasBlock(a, d, q) ==>
      HasBlock(a, c + d, q + Times(|c|, a.spc)) && BlockAt(a, c + d, q + Times(|c|, a.spc)) == BlockAt(a, d, q)
  {
    ShiftQuotRem(q, a.spc, |c|);
  }

  // ----- directory entries

  /** The number of entries n clusters hold. */
  ghost function Slots(a: Area, n: nat): nat { Times(Times(n, a.spc), a.dpb) }

  ghost predicate HasSlot(a: Area, c: seq<int>, k: nat) {
    a.spc > 0 && a.dpb > 0 && Clusters(c) && k < Slots(a, |c|)
  }

  lemma BeforeEnd(x: nat, b: nat, n: nat)
    requires b > 0
    ensures x < Times(n, b) <==> Quot(x, b) < n
  {
    QuotRem(x, b);
    if x < Times(n, b) {
      QuotBound(x, b, n);
    } else if Quot(x, b) < n {
      TimesMonotone(Quot(x, b) + 1, n, b);
    }
  }

  lemma SlotHasBlock(a: Area, c: seq<int>, k: nat)
    requires HasSlot(a, c, k)
    ensures HasBlock(a, c, Quot(k, a.dpb))
  {
    QuotBound(k, a.dpb, Times(|c|, a.spc));
    QuotBound(Quot(k, a.dpb), a.spc, |c|);
  }

  ghost function SlotBlock(a: Area, c: seq<int>, k: nat): nat
    requires HasSlot(a, c, k)
  {
    SlotHasBlock(a, c, k);
    BlockAt(a, c, Quot(k, a.dpb))
  }

  /** Block r of cluster i begins with entry (i * spc + r) * dpb. */
  lemma FirstSlot(a: Area, c: seq<int>, i: nat, r: nat, q: nat)
    requires a.dpb > 0 && Clusters(c) && i < |c| && r < a.spc && q == Times(i, a.spc) + r
    ensures Times(q + 1, a.dpb) <= Slots(a, |c|) && HasSlot(a, c, Times(q, a.dpb))
    ensures SlotBlock(a, c, Times(q, a.dpb)) == ClusToBlk(a, c[i]) + r && Rem(Times(q, a.dpb), a.dpb) == 0
  {
    QuotRemUnique(q, a.spc, i, r);
    QuotRemUnique(Times(q, a.dpb), a.dpb, q, 0);
    TimesMonotone(i + 1, |c|, a.spc);
    TimesMonotone(q + 1, Times(|c|, a.spc), a.dpb);
  }

  /** The n entries from k on, which do not cross a block end, are exactly those the block
      holds from the place of k on. */
  lemma SlotRange(a: Area, c: seq<int>, k: nat, n: nat, j: nat)
    requires HasSlot(a, c, k) && HasSlot(a, c, j) && Distinct(c) && Rem(k, a.dpb) + n <= a.dpb
    ensures k <= j < k + n <==>
      SlotBlock(a, c, j) == SlotBlock(a, c, k) && Rem(k, a.dpb) <= Rem(j, a.dpb) < Rem(k, a.dpb) + n
    ensures k <= j < k + n ==> Rem(j, a.dpb) - Rem(k, a.dpb) == j - k
  {
    QuotRem(k, a.dpb);
    QuotRem(j, a.dpb);
    SlotHasBlock(a, c, k);
    SlotHasBlock(a, c, j);
    if SlotBlock(a, c, j) == SlotBlock(a, c, k) {
      BlockInjective(a, c, Quot(j, a.dpb), Quot(k, a.dpb));
    }
    if k <= j < k + n {
      QuotRemAdd(k, a.dpb, j - k);
    }
  }

  /** A longer chain: the entries of its first part, then those of its second. */
  lemma SlotsJoin(a: Area, c: seq<int>, d: seq<int>, k: nat)
    requires HasSlot(a, c + d, k) && Clusters(c) && Clusters(d)
    ensures Slots(a, |c + d|) == Slots(a, |c|) + Slots(a, |d|)
    ensures k < Slots(a, |c|) ==> HasSlot(a, c, k) && SlotBlock(a, c + d, k) == SlotBlock(a, c, k)
    ensures k >= Slots(a, |c|) ==> HasSlot(a, d, k - Slots(a, |c|))
    ensures k >= Slots(a, |c|) ==> SlotBlock(a, c + d, k) == SlotBlock(a, d, k - Slots(a, |c|))
    ensures k >= Slots(a, |c|) ==> Rem(k, a.dpb) == Rem(k - Slots(a, |c|), a.dpb)
  {
    var q := Quot(k, a.dpb);
    SlotHasBlock(a, c + d, k);
    TimesAdd(|c|, |d|, a.spc);
    TimesAdd(Times(|c|, a.spc), Times(|d|, a.spc), a.dpb);
    if k < Slots(a, |c|) {
      SlotHasBlock(a, c, k);
    } else {
      var j := k - Slots(a, |c|);
      ShiftQuotRem(j, a.dpb, Times(|c|, a.spc));
      SlotHasBlock(a, d, j);
      ShiftQuotRem(Quot(j, a.dpb), a.spc, |c|);
    }
  }

  lemma ShiftQuotRem(x: nat, b: nat, n: nat)
    requires b > 0
    ensures Quot(x + Times(n, b), b) == Quot(x, b) + n && Rem(x + Times(n, b), b) == Rem(x, b)
  {
    QuotRem(x, b);
    TimesAdd(Quot(x, b), n, b);
    QuotRemUnique(x + Times(n, b), b, Quot(x, b) + n, Rem(x, b));
  }

  /** Entry k of the clusters c lies in block bh, at index de. */
  ghost predicate Place(a: Area, c: seq<int>, bh: int, de: nat, k: nat) {
    HasSlot(a, c, k) && bh == SlotBlock(a, c, k) && de == Rem(k, a.dpb)
  }

  ghost predicate BlockIs(a: Area, c: seq<int>, bh: int, q: nat) {
    HasBlock(a, c, q) && bh == BlockAt(a, c, q)
  }

  ghost predicate NoBlock(a: Area, c: seq<int>, b: int) { forall q: nat :: !BlockIs(a, c, b, q) }

  /** bhs are the blocks of the n entries from p on. */
  ghost predicate Covers(a: Area, c: seq<int>, bhs: seq<int>, p: nat, n: nat)
    requires a.dpb > 0
  {
    if n == 0 then bhs == []
    else
      && 0 < |bhs| == Quot(p + n - 1, a.dpb) - Quot(p, a.dpb) + 1
      && forall i :: 0 <= i < |bhs| ==> BlockIs(a, c, bhs[i], Quot(p, a.dpb) + i)
  }
}
