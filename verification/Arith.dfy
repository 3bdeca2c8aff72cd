/** Multiplication and division by a variable, as recursive functions so that the
    facts about them are available one lemma at a time. */
module Arith {

  ghost function Times(a: nat, b: nat): nat {
    if a == 0 then 0 else b + Times(a - 1, b)
  }

  ghost function Quot(x: nat, b: nat): nat
    requires b > 0
  {
    if x < b then 0 else 1 + Quot(x - b, b)
  }

  ghost function Rem(x: nat, b: nat): (r: nat)
    requires b > 0
    ensures r < b
  {
    if x < b then x else Rem(x - b, b)
  }

  lemma {:induction false} TimesIsProduct(a: nat, b: nat)
    ensures Times(a, b) == a * b
  {
    if a > 0 {
      TimesIsProduct(a - 1, b);
      assert a * b == (a - 1) * b + b;
    }
  }

  lemma DivMod(x: int, b: int)
    requires b > 0
    ensures x == (x / b) * b + x % b && 0 <= x % b < b
  {
  }

  lemma MulLe(a: int, b: int, c: int)
    requires a <= b && 0 <= c
    ensures a * c <= b * c
  {
  }

  lemma DivModUnique(x: int, b: int, q: int, r: int)
    requires b > 0 && 0 <= r < b && x == q * b + r
    ensures x / b == q && x % b == r
  {
    DivMod(x, b);
    var p := x / b;
    if p > q {
      MulLe(q + 1, p, b);
    } else if p < q {
      MulLe(p + 1, q, b);
    }
  }

  lemma {:induction false} QuotRem(x: nat, b: nat)
    requires b > 0
    ensures x == Times(Quot(x, b), b) + Rem(x, b)
  {
    if x >= b {
      QuotRem(x - b, b);
    }
  }

  /** Quot and Rem are division and remainder. */
  lemma QuotRemIsDivMod(x: nat, b: nat)
    requires b > 0
    ensures Quot(x, b) == x / b && Rem(x, b) == x % b
  {
    QuotRem(x, b);
    TimesIsProduct(Quot(x, b), b);
    DivModUnique(x, b, Quot(x, b), Rem(x, b));
  }

  lemma {:induction false} QuotRemUnique(x: nat, b: nat, q: nat, r: nat)
    requires b > 0 && r < b && x == Times(q, b) + r
    ensures Quot(x, b) == q && Rem(x, b) == r
  {
    if q > 0 {
      QuotRemUnique(x - b, b, q - 1, r);
    }
  }

  lemma {:induction false} TimesMonotone(a: nat, b: nat, c: nat)
    requires a <= b
    ensures Times(a, c) <= Times(b, c)
  {
    if a > 0 {
      TimesMonotone(a - 1, b - 1, c);
    }
  }

  lemma {:induction false} TimesAdd(a: nat, b: nat, c: nat)
    ensures Times(a + b, c) == Times(a, c) + Times(b, c)
  {
    if a > 0 {
      TimesAdd(a - 1, b, c);
    }
  }

  lemma {:induction false} TimesAssoc(a: nat, b: nat, c: nat)
    ensures Times(Times(a, b), c) == Times(a, Times(b, c))
  {
    if a > 0 {
      TimesAssoc(a - 1, b, c);
      TimesAdd(b, Times(a - 1, b), c);
    }
  }

  /** Dividing by a and then by b is dividing by their product. */
  lemma QuotTwice(x: nat, a: nat, b: nat)
    requires a > 0 && b > 0 && Times(b, a) > 0
    ensures Quot(x, Times(b, a)) == Quot(Quot(x, a), b)
    ensures x == Times(Quot(Quot(x, a), b), Times(b, a)) + Times(Rem(Quot(x, a), b), a) + Rem(x, a)
  {
    var q := Quot(x, a);
    var r := Rem(q, b);
    QuotRem(x, a);
    QuotRem(q, b);
    TimesAssoc(Quot(q, b), b, a);
    TimesAdd(Times(Quot(q, b), b), r, a);
    TimesMonotone(r + 1, b, a);
    QuotRemUnique(x, Times(b, a), Quot(q, b), Times(r, a) + Rem(x, a));
  }

  lemma QuotBound(x: nat, b: nat, n: nat)
    requires b > 0 && x < Times(n, b)
    ensures Quot(x, b) < n
  {
    QuotRem(x, b);
    if Quot(x, b) >= n {
      TimesMonotone(n, Quot(x, b), b);
    }
  }

  lemma QuotMonotone(x: nat, y: nat, b: nat)
    requires b > 0 && x <= y
    ensures Quot(x, b) <= Quot(y, b)
  {
    QuotRem(x, b);
    QuotRem(y, b);
    if Quot(y, b) < Quot(x, b) {
      TimesMonotone(Quot(y, b) + 1, Quot(x, b), b);
    }
  }

  /** Going k further inside a block, or exactly to the start of the next one. */
  lemma {:induction false} QuotRemAdd(x: nat, b: nat, k: nat)
    requires b > 0 && Rem(x, b) + k <= b
    ensures Rem(x, b) + k < b ==> Quot(x + k, b) == Quot(x, b) && Rem(x + k, b) == Rem(x, b) + k
    ensures Rem(x, b) + k == b ==> Quot(x + k, b) == Quot(x, b) + 1 && Rem(x + k, b) == 0
  {
    if x >= b {
      QuotRemAdd(x - b, b, k);
    }
  }

  lemma QuotRemInjective(x: nat, y: nat, b: nat)
    requires b > 0 && Quot(x, b) == Quot(y, b) && Rem(x, b) == Rem(y, b)
    ensures x == y
  {
    QuotRem(x, b);
    QuotRem(y, b);
  }

  /** An aligned w-byte field never straddles a block whose size w divides. */
  lemma {:induction false} AlignedRem(x: nat, b: nat, w: nat)
    requires w > 0 && b > 0 && b % w == 0 && x % w == 0
    ensures Rem(x, b) % w == 0 && Rem(x, b) + w <= b
  {
    if x >= b {
      var xq, bq := x / w, b / w;
      assert x - b == (xq - bq) * w by {
        assert x == xq * w && b == bq * w;
      }
      DivModUnique(x - b, w, xq - bq, 0);
      AlignedRem(x - b, b, w);
    } else {
      var xq, bq := x / w, b / w;
      assert x == xq * w && b == bq * w;
      if xq >= bq {
        MulLe(bq, xq, w);
      }
      MulLe(xq + 1, bq, w);
    }
  }
}
