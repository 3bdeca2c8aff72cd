/** In which order a run of entries reaches the blocks of a directory, dpb entries to a block. */
module FillOrder {
  import opened Arith
  import opened LongNames
  import opened Splicing

  /** How many of n entries from position pos on lie in the first i of their blocks. */
  ghost function Upto(dpb: nat, pos: nat, n: nat, i: nat): (m: nat)
    requires dpb > 0
    ensures m <= n
  {
    if i == 0 then 0
    else
      var room := Times(i, dpb) - Rem(pos, dpb);
      if room < n then room else n
  }

  /** The number of blocks that n entries from position pos on touch. */
  ghost function NrBlocks(dpb: nat, pos: nat, n: nat): nat
    requires dpb > 0
  {
    if n == 0 then 0
    else
      QuotMonotone(pos, pos + n - 1, dpb);
      Quot(pos + n - 1, dpb) - Quot(pos, dpb) + 1
  }

  /** Entry Upto(i) is the first one in block i: at its start, or where the run starts. */
  lemma UptoPlace(dpb: nat, pos: nat, n: nat, i: nat)
    requires dpb > 0 && Upto(dpb, pos, n, i) < n
    ensures Quot(pos + Upto(dpb, pos, n, i), dpb) == Quot(pos, dpb) + i
    ensures Rem(pos + Upto(dpb, pos, n, i), dpb) == if i == 0 then Rem(pos, dpb) else 0
  {
    QuotRem(pos, dpb);
    if i > 0 {
      TimesMonotone(1, i, dpb);
      assert Times(1, dpb) == dpb;
      TimesAdd(Quot(pos, dpb), i, dpb);
      QuotRemUnique(Times(Quot(pos, dpb) + i, dpb), dpb, Quot(pos, dpb) + i, 0);
    }
  }

  /** What one more block takes: what it has room for, of what is left. */
  lemma UptoStep(dpb: nat, pos: nat, n: nat, i: nat)
    requires dpb > 0
    ensures var room, left := dpb - (if i == 0 then Rem(pos, dpb) else 0), n - Upto(dpb, pos, n, i);
      Upto(dpb, pos, n, i + 1) == Upto(dpb, pos, n, i) + if room < left then room else left
  {
    QuotRem(pos, dpb);
    TimesAdd(i, 1, dpb);
    assert Times(1, dpb) == dpb;
    if i > 0 {
      TimesMonotone(1, i, dpb);
    }
  }

  /** All entries are in exactly when all blocks are. */
  lemma UptoAll(dpb: nat, pos: nat, n: nat, i: nat)
    requires dpb > 0 && n > 0
    ensures Upto(dpb, pos, n, i) == n <==> i >= NrBlocks(dpb, pos, n)
  {
    var q, r := Quot(pos, dpb), Quot(pos + n - 1, dpb);
    QuotMonotone(pos, pos + n - 1, dpb);
    QuotRem(pos, dpb);
    QuotRem(pos + n - 1, dpb);
    TimesAdd(q, i, dpb);
    assert Times(r + 1, dpb) == Times(r, dpb) + dpb;
    if q + i >= r + 1 {
      TimesMonotone(r + 1, q + i, dpb);
    } else {
      TimesMonotone(q + i, r, dpb);
    }
  }

  /** What the directory `was` shows after each block, when the first n of slots go in from
      pos on: whole blocks, lowest first. */
  ghost function FillViews(dpb: nat, was: seq<DirEntry>, pos: nat, slots: seq<DirEntry>, n: nat): (r: seq<seq<DirEntry>>)
    requires dpb > 0 && n <= |slots| && pos + n <= |was|
    ensures |r| == NrBlocks(dpb, pos, n)
  {
    seq(NrBlocks(dpb, pos, n), i requires 0 <= i < NrBlocks(dpb, pos, n) => Splice(was, pos, slots[..Upto(dpb, pos, n, i + 1)]))
  }

  /** From one view to the next only the entries of one block change, and never those of the
      same block twice. */
  lemma OneBlockEach(dpb: nat, was: seq<DirEntry>, pos: nat, slots: seq<DirEntry>, n: nat, i: nat, k: nat)
    requires dpb > 0 && n <= |slots| && pos + n <= |was| && i < NrBlocks(dpb, pos, n)
    requires k < |was| && Quot(k, dpb) != Quot(pos, dpb) + i
    ensures var views := FillViews(dpb, was, pos, slots, n);
      views[i][k] == (if i == 0 then was else views[i - 1])[k]
  {
    var m, m' := Upto(dpb, pos, n, i), Upto(dpb, pos, n, i + 1);
    NotInBlock(dpb, pos, n, i, k);
    PrefixAt(was, pos, slots, m, k);
    PrefixAt(was, pos, slots, m', k);
    if i == 0 {
      assert Splice(was, pos, slots[..0]) == was;
    }
  }

  lemma NotInBlock(dpb: nat, pos: nat, n: nat, i: nat, k: nat)
    requires dpb > 0 && Quot(k, dpb) != Quot(pos, dpb) + i
    ensures Upto(dpb, pos, n, i) <= Upto(dpb, pos, n, i + 1)
    ensures !(pos + Upto(dpb, pos, n, i) <= k < pos + Upto(dpb, pos, n, i + 1))
  {
    var m := Upto(dpb, pos, n, i);
    UptoStep(dpb, pos, n, i);
    if m < n {
      UptoPlace(dpb, pos, n, i);
      if pos + m <= k < pos + Upto(dpb, pos, n, i + 1) {
        QuotRemAdd(pos + m, dpb, k - (pos + m));
      }
    }
  }

  lemma PrefixAt(was: seq<DirEntry>, pos: nat, slots: seq<DirEntry>, m: nat, k: nat)
    requires m <= |slots| && pos + m <= |was| && k < |was|
    ensures Splice(was, pos, slots[..m])[k] == if pos <= k < pos + m then slots[k - pos] else was[k]
  {
  }

  /** The last entry, a name's short one, appears with the last block only; with it the run
      is complete. */
  lemma LastEntryLast(dpb: nat, was: seq<DirEntry>, pos: nat, slots: seq<DirEntry>, n: nat, i: nat)
    requires dpb > 0 && 0 < n <= |slots| && pos + n <= |was| && i < NrBlocks(dpb, pos, n)
    ensures var views := FillViews(dpb, was, pos, slots, n);
      if i == NrBlocks(dpb, pos, n) - 1 then views[i] == Splice(was, pos, slots[..n]) else views[i][pos + n - 1] == was[pos + n - 1]
  {
    UptoAll(dpb, pos, n, i + 1);
  }

  lemma SameViews(dpb: nat, was: seq<DirEntry>, pos: nat, slots: seq<DirEntry>, n: nat)
    requires dpb > 0 && n <= |slots| && pos + n <= |was|
    ensures FillViews(dpb, was, pos, slots[..n], n) == FillViews(dpb, was, pos, slots, n)
  {
    forall i | 0 <= i < NrBlocks(dpb, pos, n)
      ensures FillViews(dpb, was, pos, slots[..n], n)[i] == FillViews(dpb, was, pos, slots, n)[i]
    {
      assert slots[..n][..Upto(dpb, pos, n, i + 1)] == slots[..Upto(dpb, pos, n, i + 1)];
    }
  }
}
