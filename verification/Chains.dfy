/** Cluster chains inside a FAT seen as a plain sequence of entries: what a well-formed
    chain is, what allocation and freeing mean, and what one entry write can disturb. */
module Chains {
  import opened Packing

  type Fat = seq<int>

  predicate InRange(f: Fat, c: int) { FAT_START_ENT <= c < |f| }

  predicate Distinct(c: seq<int>) { forall i, j :: 0 <= i < j < |c| ==> c[i] != c[j] }

  /** c is in range, acyclic, linked in order and ended by EOF. No entry of it is FREE. */
  ghost predicate IsChain(f: Fat, c: seq<int>) {
    && |c| > 0 && Distinct(c)
    && (forall i :: 0 <= i < |c| ==> InRange(f, c[i]))
    && (forall i {:trigger f[c[i]]} :: 0 <= i < |c| - 1 ==> f[c[i]] == c[i + 1])
    && f[c[|c| - 1]] == FAT_ENT_EOF
  }

  /** The chain of every live file, by file id; [] for a file without clusters. */
  type Live = map<nat, seq<int>>

  ghost predicate LiveOk(f: Fat, live: Live) {
    && (forall id :: id in live && live[id] != [] ==> IsChain(f, live[id]))
    && (forall id, id', c :: id in live && id' in live && id != id' && c in live[id] ==> c !in live[id'])
  }

  ghost predicate Owned(live: Live, c: int) { exists id :: id in live && c in live[id] }

  ghost predicate Unowned(live: Live, cs: seq<int>) { forall i :: 0 <= i < |cs| ==> !Owned(live, cs[i]) }

  /** A write to an entry of no live chain leaves all of them well formed. */
  lemma PutOutsideLive(f: Fat, live: Live, e: int, v: int)
    requires LiveOk(f, live) && InRange(f, e) && !Owned(live, e)
    ensures LiveOk(f[e := v], live)
  {
    forall id | id in live && live[id] != []
      ensures IsChain(f[e := v], live[id])
    {
      assert IsChain(f, live[id]);
      assert forall i :: 0 <= i < |live[id]| ==> live[id][i] in live[id];
    }
  }

  /** A chain that nobody owns may get an owner. */
  lemma OneMoreLive(f: Fat, live: Live, id: nat, c: seq<int>)
    requires LiveOk(f, live) && id !in live && Unowned(live, c) && (c != [] ==> IsChain(f, c))
    ensures LiveOk(f, live[id := c])
  {
    assert forall x :: x in c ==> !Owned(live, x);
  }

  /** No entry of a chain is FREE. */
  lemma ChainEntriesUsed(f: Fat, c: seq<int>)
    requires IsChain(f, c)
    ensures forall x :: x in c ==> InRange(f, x) && f[x] != FAT_ENT_FREE
  {
    forall i | 0 <= i < |c|
      ensures InRange(f, c[i]) && f[c[i]] != FAT_ENT_FREE
    {
      if i < |c| - 1 {
        assert InRange(f, c[i + 1]);
      }
    }
  }

  /** A free entry belongs to no live chain. */
  lemma FreeIsUnowned(f: Fat, live: Live, e: int)
    requires LiveOk(f, live) && InRange(f, e) && f[e] == FAT_ENT_FREE
    ensures !Owned(live, e)
  {
    forall id | id in live
      ensures e !in live[id]
    {
      if live[id] != [] {
        ChainEntriesUsed(f, live[id]);
      }
    }
  }

  lemma FreeAreUnowned(f: Fat, live: Live, cs: seq<int>)
    requires LiveOk(f, live) && AllFree(f, cs)
    ensures Unowned(live, cs)
  {
    forall i | 0 <= i < |cs|
      ensures !Owned(live, cs[i])
    {
      FreeIsUnowned(f, live, cs[i]);
    }
  }

  /** The chain from a start cluster is unique. */
  lemma ChainUnique(f: Fat, c: seq<int>, d: seq<int>)
    requires IsChain(f, c) && IsChain(f, d) && c[0] == d[0] && |f| <= FAT_ENT_EOF
    ensures c == d
  {
    OnlyLastIsEof(f, c);
    OnlyLastIsEof(f, d);
    ChainPrefixUnique(f, c, d, if |c| < |d| then |c| else |d|);
  }

  lemma OnlyLastIsEof(f: Fat, c: seq<int>)
    requires IsChain(f, c) && |f| <= FAT_ENT_EOF
    ensures forall i :: 0 <= i < |c| - 1 ==> f[c[i]] != FAT_ENT_EOF
  {
    forall i | 0 <= i < |c| - 1
      ensures f[c[i]] != FAT_ENT_EOF
    {
      assert InRange(f, c[i + 1]);
    }
  }

  lemma {:induction false} ChainPrefixUnique(f: Fat, c: seq<int>, d: seq<int>, n: nat)
    requires IsChain(f, c) && IsChain(f, d) && c[0] == d[0] && n <= |c| && n <= |d|
    ensures forall i :: 0 <= i < n ==> c[i] == d[i]
  {
    if n > 1 {
      ChainPrefixUnique(f, c, d, n - 1);
      assert f[c[n - 2]] == c[n - 1] && f[d[n - 2]] == d[n - 1];
    }
  }

  /** Pointing the last cluster of c at the first of d makes one chain of the two. */
  lemma JoinChains(f: Fat, c: seq<int>, d: seq<int>)
    requires IsChain(f, c) && IsChain(f, d) && forall x :: x in c ==> x !in d
    ensures IsChain(f[c[|c| - 1] := d[0]], c + d)
  {
    var g, r := f[c[|c| - 1] := d[0]], c + d;
    assert forall i :: 0 <= i < |c| ==> r[i] == c[i] && c[i] in c;
    assert forall i :: |c| <= i < |r| ==> r[i] == d[i - |c|] && d[i - |c|] in d;
    forall i | 0 <= i < |r| - 1
      ensures g[r[i]] == r[i + 1]
    {
      if i >= |c| {
        assert f[d[i - |c|]] == d[i - |c| + 1];
      }
    }
  }

  /** Putting EOF after k clusters splits a chain in two. */
  lemma CutChain(f: Fat, c: seq<int>, k: nat)
    requires IsChain(f, c) && 0 < k < |c|
    ensures IsChain(f[c[k - 1] := FAT_ENT_EOF], c[..k])
    ensures IsChain(f[c[k - 1] := FAT_ENT_EOF], c[k..])
    ensures forall x :: x in c[k..] ==> x !in c[..k]
  {
    var g := f[c[k - 1] := FAT_ENT_EOF];
    forall i | 0 <= i < |c[k..]| - 1
      ensures g[c[k..][i]] == c[k..][i + 1]
    {
      assert f[c[k + i]] == c[k + i + 1];
    }
  }

  // ----- counting free entries

  function CountRange(f: Fat, a: nat, b: nat): (n: nat)
    requires a <= b <= |f|
    ensures n <= b - a
    decreases b
  {
    if a == b then 0 else CountRange(f, a, b - 1) + if f[b - 1] == FAT_ENT_FREE then 1 else 0
  }

  function FreeCount(f: Fat): nat
    requires 2 <= |f|
  {
    CountRange(f, 2, |f|)
  }

  lemma {:induction false} CountSplit(f: Fat, a: nat, b: nat, c: nat)
    requires a <= b <= c <= |f|
    ensures CountRange(f, a, c) == CountRange(f, a, b) + CountRange(f, b, c)
    decreases c
  {
    if b < c {
      CountSplit(f, a, b, c - 1);
    }
  }

  lemma {:induction false} CountAfterPut(f: Fat, a: nat, b: nat, e: nat, v: int)
    requires a <= b <= |f| && e < |f|
    ensures CountRange(f[e := v], a, b) == CountRange(f, a, b)
      + if a <= e < b then (if v == FAT_ENT_FREE then 1 else 0) - (if f[e] == FAT_ENT_FREE then 1 else 0) else 0
    decreases b
  {
    if a < b {
      CountAfterPut(f, a, b - 1, e, v);
    }
  }

  // ----- what the allocator takes

  /** The i-th entry met when scanning cyclically from p. */
  function ScanPos(m: nat, p: nat, i: nat): nat
    requires ScanStart(m, p) && i < m - 2
  {
    if p + i < m then p + i else p + i - m + 2
  }

  predicate ScanStart(m: nat, p: nat) { 2 <= m && 2 <= p && (p < m || m == 2) }

  /** Where the scan goes after the last entry. */
  function Wrap(m: nat, e: nat): nat { if e >= m then 2 else e }

  /** The free entries among the first n met, in the order met. */
  function FreeMet(f: Fat, p: nat, n: nat): (r: seq<int>)
    requires ScanStart(|f|, p) && n <= |f| - 2
    ensures |r| <= n
  {
    if n == 0 then []
    else
      var e := ScanPos(|f|, p, n - 1);
      FreeMet(f, p, n - 1) + if f[e] == FAT_ENT_FREE then [e] else []
  }

  /** A full turn meets every free entry. */
  lemma FullTurnMeetsAll(f: Fat, p: nat)
    requires ScanStart(|f|, p)
    ensures |FreeMet(f, p, |f| - 2)| == FreeCount(f)
  {
    if |f| > 2 {
      FreeMetCount(f, p, |f| - 2);
      CountSplit(f, 2, p, |f|);
    }
  }

  lemma {:induction false} FreeMetCount(f: Fat, p: nat, n: nat)
    requires 2 <= p < |f| && n <= |f| - 2
    ensures |FreeMet(f, p, n)| ==
      if p + n <= |f| then CountRange(f, p, p + n) else CountRange(f, p, |f|) + CountRange(f, 2, p + n - |f| + 2)
  {
    if n > 0 {
      FreeMetCount(f, p, n - 1);
    }
  }

  /** Exactly the free entries, each once, among those met so far. */
  lemma {:induction false} FreeMetExact(f: Fat, p: nat, n: nat)
    requires ScanStart(|f|, p) && n <= |f| - 2
    ensures Distinct(FreeMet(f, p, n)) && AllFree(f, FreeMet(f, p, n))
    ensures forall c :: c in FreeMet(f, p, n) <==> exists i :: 0 <= i < n && ScanPos(|f|, p, i) == c && f[c] == FAT_ENT_FREE
  {
    if n > 0 {
      FreeMetExact(f, p, n - 1);
      var e := ScanPos(|f|, p, n - 1);
      assert e !in FreeMet(f, p, n - 1);
    }
  }

  lemma {:induction false} FreeMetPrefix(f: Fat, p: nat, n: nat, k: nat)
    requires ScanStart(|f|, p) && n <= k <= |f| - 2
    ensures FreeMet(f, p, n) <= FreeMet(f, p, k)
    decreases k
  {
    if n < k {
      FreeMetPrefix(f, p, n, k - 1);
    }
  }

  predicate AllFree(f: Fat, cs: seq<int>) {
    forall i :: 0 <= i < |cs| ==> InRange(f, cs[i]) && f[cs[i]] == FAT_ENT_FREE
  }

  /** The FAT after the entries cs have been chained one after the other. */
  function Linked(f: Fat, cs: seq<int>): (r: Fat)
    ensures |r| == |f|
  {
    if cs == [] then f else LinkNext(Linked(f, cs[..|cs| - 1]), cs[..|cs| - 1], cs[|cs| - 1])
  }

  /** One more entry behind the chain cs: EOF goes into it, then the last of cs points at it. */
  function LinkNext(f: Fat, cs: seq<int>, e: int): (r: Fat)
    ensures |r| == |f|
  {
    var g := Written(f, e, FAT_ENT_EOF);
    if cs == [] then g else Written(g, cs[|cs| - 1], e)
  }

  function Written(f: Fat, e: int, v: int): (r: Fat)
    ensures |r| == |f|
  {
    if 0 <= e < |f| then f[e := v] else f
  }

  /** Linking makes cs a chain and touches nothing else. */
  lemma {:induction false} LinkedExact(f: Fat, cs: seq<int>)
    requires Distinct(cs) && forall i :: 0 <= i < |cs| ==> InRange(f, cs[i])
    ensures forall c :: 0 <= c < |f| && c !in cs ==> Linked(f, cs)[c] == f[c]
    ensures cs != [] ==> IsChain(Linked(f, cs), cs)
  {
    if cs != [] {
      var k := |cs| - 1;
      var init, e := cs[..k], cs[k];
      LinkedExact(f, init);
      assert cs == init + [e] && e !in init;
      var g := Linked(f, init)[e := FAT_ENT_EOF];
      if k > 0 {
        assert IsChain(g, init);
        JoinChains(g, init, [e]);
        assert init[k - 1] == cs[k - 1] && InRange(f, cs[k - 1]);
        assert Linked(f, cs) == g[init[k - 1] := e];
      } else {
        assert Linked(f, cs) == g;
      }
    }
  }

  /** The first k free entries in cyclic order from p, or all of them if there are fewer. */
  function FirstFree(f: Fat, p: nat, k: nat): seq<int>
    requires ScanStart(|f|, p)
  {
    var all := FreeMet(f, p, |f| - 2);
    if k <= |all| then all[..k] else all
  }

  /** A scan that stops as soon as it has nr free entries, or after a full turn. */
  lemma ScanOutcome(f: Fat, p: nat, n: nat, nr: nat)
    requires ScanStart(|f|, p) && n <= |f| - 2
    requires |FreeMet(f, p, n)| <= nr && (|FreeMet(f, p, n)| < nr ==> n == |f| - 2)
    ensures |FreeMet(f, p, n)| == nr <==> FreeCount(f) >= nr
    ensures FreeCount(f) >= nr ==> FreeMet(f, p, n) == FirstFree(f, p, nr)
    ensures |FreeMet(f, p, n)| < nr ==> |FreeMet(f, p, n)| == FreeCount(f)
  {
    FreeMetPrefix(f, p, n, |f| - 2);
    FullTurnMeetsAll(f, p);
  }

  lemma LinkedAppend(f: Fat, cs: seq<int>, e: nat)
    ensures Linked(f, cs + [e]) == LinkNext(Linked(f, cs), cs, e)
  {
    assert (cs + [e])[..|cs|] == cs;
  }

  /** One entry met by the allocator's scan, with what was taken so far already linked. */
  lemma ScanStepEffect(f: Fat, p: nat, n: nat)
    requires ScanStart(|f|, p) && n < |f| - 2
    ensures var cs, e := FreeMet(f, p, n), ScanPos(|f|, p, n);
      && AllFree(f, cs) && Linked(f, cs)[e] == f[e]
      && (cs != [] ==> IsChain(Linked(f, cs), cs))
      && FreeMet(f, p, n + 1) == (if f[e] == FAT_ENT_FREE then cs + [e] else cs)
      && Linked(f, cs + [e]) == LinkNext(Linked(f, cs), cs, e)
  {
    var cs, e := FreeMet(f, p, n), ScanPos(|f|, p, n);
    FreeMetExact(f, p, n);
    LinkedExact(f, cs);
    LinkedAppend(f, cs, e);
  }

  /** How far the scan from p goes before it meets e. */
  function Distance(m: nat, p: nat, e: int): int { if e >= p then e - p else e - p + m - 2 }

  lemma {:induction false} FreeMetSorted(f: Fat, p: nat, n: nat)
    requires 2 <= p < |f| && n <= |f| - 2
    ensures var r := FreeMet(f, p, n);
      && (forall i :: 0 <= i < |r| ==> InRange(f, r[i]) && f[r[i]] == FAT_ENT_FREE && 0 <= Distance(|f|, p, r[i]) < n)
      && (forall i, j :: 0 <= i < j < |r| ==> Distance(|f|, p, r[i]) < Distance(|f|, p, r[j]))
      && (forall e :: InRange(f, e) && f[e] == FAT_ENT_FREE && Distance(|f|, p, e) < n ==> e in r)
  {
    if n > 0 {
      FreeMetSorted(f, p, n - 1);
      var e := ScanPos(|f|, p, n - 1);
      assert Distance(|f|, p, e) == n - 1;
      assert forall x :: InRange(f, x) && Distance(|f|, p, x) == n - 1 ==> x == e;
      assert f[e] == FAT_ENT_FREE ==> FreeMet(f, p, n) == FreeMet(f, p, n - 1) + [e];
    }
  }

  /** What is taken are free entries in the order of their distance from p, and no free entry
      nearer than one of them is left out. */
  lemma FirstFreeNearest(f: Fat, p: nat, k: nat)
    requires 2 <= p < |f|
    ensures var r := FirstFree(f, p, k);
      && |r| == (if k <= FreeCount(f) then k else FreeCount(f)) && AllFree(f, r)
      && (forall i, j :: 0 <= i < j < |r| ==> Distance(|f|, p, r[i]) < Distance(|f|, p, r[j]))
      && (forall e, i :: InRange(f, e) && f[e] == FAT_ENT_FREE && 0 <= i < |r| && Distance(|f|, p, e) < Distance(|f|, p, r[i]) ==> e in r)
  {
    FreeMetSorted(f, p, |f| - 2);
    FullTurnMeetsAll(f, p);
    var all, r := FreeMet(f, p, |f| - 2), FirstFree(f, p, k);
    assert forall i :: 0 <= i < |r| ==> r[i] == all[i];
    forall e, i | InRange(f, e) && f[e] == FAT_ENT_FREE && 0 <= i < |r| && Distance(|f|, p, e) < Distance(|f|, p, r[i])
      ensures e in r
    {
      NearIsBefore(|f|, p, all, e, i);
    }
  }

  lemma NearIsBefore(m: nat, p: nat, all: seq<int>, e: int, i: nat)
    requires e in all && i < |all| && Distance(m, p, e) < Distance(m, p, all[i])
    requires forall i, j :: 0 <= i < j < |all| ==> Distance(m, p, all[i]) < Distance(m, p, all[j])
    ensures exists j :: 0 <= j < i && all[j] == e
  {
    var j :| 0 <= j < |all| && all[j] == e;
    assert j < i;
  }

  // ----- what freeing does

  datatype FreeResult = FreeResult(err: int, fat: Fat, freed: seq<int>)

  /** fat_free_clusters on an arbitrary FAT: clear and follow until EOF, or stop with an
      error (err) at a FREE entry or an entry out of range. */
  function FreeWalk(f: Fat, c: int, err: int): (r: FreeResult)
    requires 2 <= |f|
    ensures |r.fat| == |f|
    decreases |f| - FreeCount(f)
  {
    if !InRange(f, c) || f[c] == FAT_ENT_FREE then FreeResult(err, f, [])
    else
      CountAfterPut(f, 2, |f|, c, FAT_ENT_FREE);
      var f1 := f[c := FAT_ENT_FREE];
      if f[c] == FAT_ENT_EOF then FreeResult(0, f1, [c])
      else
        var r := FreeWalk(f1, f[c], err);
        r.(freed := [c] + r.freed)
  }

  ghost predicate WalkGives(f: Fat, c: int, err: int, rest: FreeResult)
    requires 2 <= |f|
  {
    rest == FreeWalk(f, c, err)
  }

  /** A free walk with result r0 has freed `freed`, left the FAT f, and stands at c; what is
      still to come is whatever the rest of the walk gives. */
  ghost predicate WalkAt(r0: FreeResult, freed: seq<int>, f: Fat, c: int, err: int, more: bool)
    requires 2 <= |f|
  {
    if more then
      forall rest {:trigger WalkGives(f, c, err, rest)} :: WalkGives(f, c, err, rest) ==> r0 == FreeResult(rest.err, rest.fat, freed + rest.freed)
    else r0 == FreeResult(0, f, freed)
  }

  lemma WalkAtStart(f: Fat, c: int, err: int)
    requires 2 <= |f|
    ensures WalkAt(FreeWalk(f, c, err), [], f, c, err, true)
  {
    var r := FreeWalk(f, c, err);
    assert [] + r.freed == r.freed;
  }

  lemma WalkAtStep(r0: FreeResult, freed: seq<int>, f: Fat, c: int, err: int)
    requires 2 <= |f| && InRange(f, c) && f[c] != FAT_ENT_FREE && WalkAt(r0, freed, f, c, err, true)
    ensures WalkAt(r0, freed + [c], f[c := FAT_ENT_FREE], f[c], err, f[c] != FAT_ENT_EOF)
    ensures FreeCount(f[c := FAT_ENT_FREE]) == FreeCount(f) + 1 <= |f| - 2
    ensures |freed| < |r0.freed| && r0.freed[|freed|] == c
  {
    CountAfterPut(f, 2, |f|, c, FAT_ENT_FREE);
    assert WalkGives(f, c, err, FreeWalk(f, c, err));
    var f1 := f[c := FAT_ENT_FREE];
    if f[c] != FAT_ENT_EOF {
      var rest := FreeWalk(f1, f[c], err);
      assert freed + ([c] + rest.freed) == (freed + [c]) + rest.freed;
    }
  }

  lemma WalkAtStop(r0: FreeResult, freed: seq<int>, f: Fat, c: int, err: int)
    requires 2 <= |f| && WalkAt(r0, freed, f, c, err, true) && (!InRange(f, c) || f[c] == FAT_ENT_FREE)
    ensures r0 == FreeResult(err, f, freed)
  {
    assert WalkGives(f, c, err, FreeWalk(f, c, err));
  }

  function Cleared(f: Fat, c: seq<int>): (r: Fat)
    ensures |r| == |f|
  {
    seq(|f|, e requires 0 <= e < |f| => if e in c then FAT_ENT_FREE else f[e])
  }

  /** On a well-formed chain exactly that chain is freed. */
  lemma {:induction false} FreeWalkOfChain(f: Fat, c: seq<int>, err: int)
    requires 2 <= |f| <= FAT_ENT_EOF && IsChain(f, c)
    ensures FreeWalk(f, c[0], err) == FreeResult(0, Cleared(f, c), c)
    decreases |c|
  {
    var f1 := f[c[0] := FAT_ENT_FREE];
    if |c| == 1 {
      assert f1 == Cleared(f, c);
      assert c == [c[0]];
    } else {
      var d := c[1..];
      assert f[c[0]] == c[1] == d[0];
      assert IsChain(f1, d);
      FreeWalkOfChain(f1, d, err);
      assert c == [c[0]] + d;
      assert Cleared(f1, d) == Cleared(f, c);
    }
  }

  /** A walk that ends without error has freed a well-formed chain. */
  lemma {:induction false} FreeWalkFindsChain(f: Fat, c: int, err: int)
    requires 2 <= |f| && err != 0 && FreeWalk(f, c, err).err == 0
    ensures IsChain(f, FreeWalk(f, c, err).freed) && FreeWalk(f, c, err).freed[0] == c
    decreases |f| - FreeCount(f)
  {
    var f1 := f[c := FAT_ENT_FREE];
    if f[c] != FAT_ENT_EOF {
      CountAfterPut(f, 2, |f|, c, FAT_ENT_FREE);
      FreeWalkFindsChain(f1, f[c], err);
      var d := FreeWalk(f1, f[c], err).freed;
      assert c !in d by {
        ChainEntriesUsed(f1, d);
      }
      var r := [c] + d;
      assert forall i :: 0 < i < |r| ==> r[i] == d[i - 1];
      forall i | 0 <= i < |r| - 1
        ensures f[r[i]] == r[i + 1]
      {
        if i > 0 {
          assert f1[d[i - 1]] == d[i];
        }
      }
    }
  }

  /** Freeing succeeds exactly on well-formed chains, whatever the rest of the FAT holds. */
  lemma FreeSucceedsIffChain(f: Fat, c: int, err: int)
    requires 2 <= |f| <= FAT_ENT_EOF && err != 0
    ensures FreeWalk(f, c, err).err == 0 <==> exists s :: IsChain(f, s) && s[0] == c
  {
    if FreeWalk(f, c, err).err == 0 {
      FreeWalkFindsChain(f, c, err);
    }
    forall s | IsChain(f, s) && s[0] == c
      ensures FreeWalk(f, c, err).err == 0
    {
      FreeWalkOfChain(f, s, err);
    }
  }

  /** Whether or not it succeeds, a free walk clears exactly the entries it reports. */
  lemma {:induction false} FreeWalkExact(f: Fat, c: int, err: int)
    requires 2 <= |f|
    ensures var r := FreeWalk(f, c, err);
      Distinct(r.freed) && r.fat == Cleared(f, r.freed) && FreeCount(r.fat) == FreeCount(f) + |r.freed|
      && forall x :: x in r.freed ==> InRange(f, x) && f[x] != FAT_ENT_FREE
    decreases |f| - FreeCount(f)
  {
    if InRange(f, c) && f[c] != FAT_ENT_FREE {
      CountAfterPut(f, 2, |f|, c, FAT_ENT_FREE);
      var f1 := f[c := FAT_ENT_FREE];
      if f[c] == FAT_ENT_EOF {
        assert f1 == Cleared(f, [c]);
      } else {
        FreeWalkExact(f1, f[c], err);
        var d := FreeWalk(f1, f[c], err).freed;
        assert c !in d;
        assert forall i :: 0 < i < |[c] + d| ==> ([c] + d)[i] == d[i - 1] && d[i - 1] in d;
        assert Cleared(f1, d) == Cleared(f, [c] + d);
      }
    } else {
      assert f == Cleared(f, []);
    }
  }

  /** It starts at c, follows the links, and stops at the end mark, or with the error at an entry
      that is out of range, free, or cleared on the way. */
  lemma {:induction false} FreeWalkPath(f: Fat, c: int, err: int)
    requires 2 <= |f| && err != 0
    ensures var r := FreeWalk(f, c, err);
      && (r.freed != [] ==> r.freed[0] == c)
      && (forall i :: 0 <= i < |r.freed| ==> InRange(f, r.freed[i])) && (forall i :: 0 <= i < |r.freed| - 1 ==> f[r.freed[i]] == r.freed[i + 1])
      && var next := if r.freed == [] then c else f[r.freed[|r.freed| - 1]];
        if r.err == 0 then r.freed != [] && next == FAT_ENT_EOF
        else r.err == err && (!InRange(f, next) || f[next] == FAT_ENT_FREE || next in r.freed)
    decreases |f| - FreeCount(f)
  {
    if InRange(f, c) && f[c] != FAT_ENT_FREE && f[c] != FAT_ENT_EOF {
      CountAfterPut(f, 2, |f|, c, FAT_ENT_FREE);
      var f1 := f[c := FAT_ENT_FREE];
      FreeWalkPath(f1, f[c], err);
      FreeWalkExact(f1, f[c], err);
      var d, r := FreeWalk(f1, f[c], err).freed, FreeWalk(f, c, err).freed;
      assert r == [c] + d && forall x :: x in d ==> x != c;
      assert forall i :: 0 < i < |r| ==> r[i] == d[i - 1];
      forall i | 0 <= i < |r| - 1
        ensures f[r[i]] == r[i + 1]
      {
        assert i > 0 ==> r[i] == d[i - 1] && d[i - 1] in d;
      }
      assert d != [] ==> r[|r| - 1] == d[|d| - 1] && d[|d| - 1] in d;
    }
  }

  /** Rolling an allocation back restores the FAT. */
  lemma ClearLinked(f: Fat, cs: seq<int>)
    requires Distinct(cs) && AllFree(f, cs)
    ensures Cleared(Linked(f, cs), cs) == f
  {
    LinkedExact(f, cs);
  }

  /** Chaining free entries uses up exactly that many of them. */
  lemma {:induction false} CountLinked(f: Fat, cs: seq<int>)
    requires 2 <= |f| && Distinct(cs) && AllFree(f, cs)
    ensures FreeCount(Linked(f, cs)) == FreeCount(f) - |cs|
  {
    if cs != [] {
      var k := |cs| - 1;
      var init, e := cs[..k], cs[k];
      CountLinked(f, init);
      LinkedExact(f, init);
      assert cs == init + [e] && e !in init;
      var g := Linked(f, init);
      assert cs[..k] == init;
      CountAfterPut(g, 2, |f|, e, FAT_ENT_EOF);
      if k > 0 {
        ChainEntriesUsed(g, init);
        assert cs[k - 1] == init[k - 1] && init[k - 1] in init;
        CountAfterPut(g[e := FAT_ENT_EOF], 2, |f|, cs[k - 1], e);
      }
    }
  }

  /** Linking the free entries met uses up exactly that many, and can be undone. */
  lemma MetLinked(f: Fat, p: nat, n: nat, cs: seq<int>)
    requires ScanStart(|f|, p) && n <= |f| - 2 && cs == FreeMet(f, p, n)
    ensures AllFree(f, cs) && FreeCount(Linked(f, cs)) == FreeCount(f) - |cs| && Cleared(Linked(f, cs), cs) == f
    ensures cs != [] ==> IsChain(Linked(f, cs), cs)
  {
    FreeMetExact(f, p, n);
    LinkedExact(f, cs);
    CountLinked(f, cs);
    ClearLinked(f, cs);
  }
}
