/** Byte sizes, blocks and clusters of a file, for any block and cluster size. */
module BlockMath {
  import opened Arith

  /** m / s rounded up, as (m + s - 1) / s. */
  ghost function CeilDiv(m: nat, s: nat): nat
    requires s > 0
  {
    Quot(m + s - 1, s)
  }

  lemma CeilBounds(m: nat, s: nat)
    requires s > 0
    ensures m <= Times(CeilDiv(m, s), s)
    ensures CeilDiv(m, s) > 0 ==> Times(CeilDiv(m, s) - 1, s) < m
    ensures CeilDiv(m, s) == 0 <==> m == 0
  {
    QuotRem(m + s - 1, s);
  }

  lemma CeilUnique(m: nat, s: nat, n: nat)
    requires s > 0 && n > 0 && Times(n - 1, s) < m <= Times(n, s)
    ensures CeilDiv(m, s) == n
  {
    QuotRemUnique(m + s - 1, s, n, m - 1 - Times(n - 1, s));
  }

  lemma CeilMonotone(m: nat, m': nat, s: nat)
    requires s > 0 && m <= m'
    ensures CeilDiv(m, s) <= CeilDiv(m', s)
  {
    CeilBounds(m, s);
    CeilBounds(m', s);
    var n, n' := CeilDiv(m, s), CeilDiv(m', s);
    if n > n' {
      TimesMonotone(n', n - 1, s);
    }
  }

  lemma CeilOfMultiple(k: nat, s: nat)
    requires s > 0
    ensures CeilDiv(Times(k, s), s) == k
  {
    if k > 0 {
      CeilUnique(Times(k, s), s, k);
    }
  }

  /** From the end of the file on, only the block right behind an aligned end starts there. */
  lemma AlignedEnd(m: nat, b: nat, s: nat)
    requires s > 0
    ensures b < CeilDiv(m, s) ==> m != Times(b, s)
    ensures b >= CeilDiv(m, s) ==> (Quot(m, s) == b <==> m == Times(b, s))
  {
    CeilOfMultiple(b, s);
    QuotRem(m, s);
    CeilBounds(m, s);
    if m == Times(b, s) {
      QuotRemUnique(m, s, b, 0);
    } else if b >= CeilDiv(m, s) {
      TimesMonotone(CeilDiv(m, s), b, s);
    }
  }

  /** A block that lies before the end of a file of m bytes lies in one of its clusters. */
  lemma BlockInFile(m: nat, sector: nat, spc: nat, bs: nat)
    requires spc > 0 && bs > 0 && Times(spc, bs) > 0 && sector < CeilDiv(m, bs)
    ensures Quot(sector, spc) < CeilDiv(m, Times(spc, bs))
  {
    var cs, q := Times(spc, bs), Quot(sector, spc);
    QuotRem(sector, spc);
    CeilBounds(m, bs);
    CeilBounds(m, cs);
    TimesMonotone(sector, CeilDiv(m, bs) - 1, bs);
    TimesMonotone(Times(q, spc), sector, bs);
    TimesAssoc(q, spc, bs);
    if q >= CeilDiv(m, cs) {
      TimesMonotone(CeilDiv(m, cs), q, cs);
    }
  }

  /** Clusters of a file that ends n blocks in, n not past the end of the cluster of block b. */
  lemma ClustersUpTo(b: nat, n: nat, spc: nat, bs: nat)
    requires spc > 0 && bs > 0 && Times(spc, bs) > 0 && b < n <= b + spc - Rem(b, spc)
    ensures CeilDiv(Times(n, bs), Times(spc, bs)) == Quot(b, spc) + 1
  {
    var q := Quot(b, spc);
    QuotRem(b, spc);
    TimesAssoc(q, spc, bs);
    TimesAssoc(q + 1, spc, bs);
    TimesMonotone(Times(q, spc) + 1, n, bs);
    TimesMonotone(n, Times(q + 1, spc), bs);
    CeilUnique(Times(n, bs), Times(spc, bs), q + 1);
  }

  /** Clusters of a file that ends exactly before block b. */
  lemma ClustersBefore(b: nat, spc: nat, bs: nat)
    requires spc > 0 && bs > 0 && Times(spc, bs) > 0
    ensures CeilDiv(Times(b, bs), Times(spc, bs)) == Quot(b, spc) + if Rem(b, spc) == 0 then 0 else 1
  {
    var q := Quot(b, spc);
    QuotRem(b, spc);
    TimesAssoc(q, spc, bs);
    if Rem(b, spc) == 0 {
      CeilOfMultiple(q, Times(spc, bs));
    } else {
      QuotRemUnique(b - 1, spc, q, Rem(b, spc) - 1);
      ClustersUpTo(b - 1, b, spc, bs);
    }
  }

  /** Rounding a size up to whole blocks takes no further cluster. */
  lemma RoundedUp(m: nat, spc: nat, bs: nat)
    requires spc > 0 && bs > 0 && Times(spc, bs) > 0
    ensures CeilDiv(Times(CeilDiv(m, bs), bs), Times(spc, bs)) == CeilDiv(m, Times(spc, bs))
    ensures m <= Times(CeilDiv(m, bs), bs)
  {
    var cs, up := Times(spc, bs), Times(CeilDiv(m, bs), bs);
    var n := CeilDiv(m, cs);
    CeilBounds(m, bs);
    CeilBounds(m, cs);
    TimesAssoc(n, spc, bs);
    CeilMonotone(m, Times(n, cs), bs);
    CeilOfMultiple(Times(n, spc), bs);
    TimesMonotone(CeilDiv(m, bs), Times(n, spc), bs);
    CeilMonotone(up, Times(n, cs), cs);
    CeilOfMultiple(n, cs);
    CeilMonotone(m, up, cs);
  }

  /** The end of the block that size m ends in. */
  lemma EndOfBlock(m: nat, bs: nat)
    requires bs > 0
    ensures Rem(m, bs) == 0 ==> Times(CeilDiv(m, bs), bs) == m
    ensures Rem(m, bs) != 0 ==> Times(CeilDiv(m, bs), bs) == m - Rem(m, bs) + bs
  {
    QuotRem(m, bs);
    var q := Quot(m, bs);
    if Rem(m, bs) == 0 {
      CeilOfMultiple(q, bs);
    } else {
      CeilUnique(m, bs, q + 1);
    }
  }

  lemma TimesPositive(a: nat, b: nat)
    requires a > 0 && b > 0
    ensures Times(a, b) > 0
  {
  }
}
