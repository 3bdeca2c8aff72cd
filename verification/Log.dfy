/** The log of a volume: its FAT after every single entry write, with the chains that files
    own at that moment and the chain that is just being built or given back. */
module Logs {
  import opened Packing
  import opened Chains

  /** pending: the clusters that are allocated but not yet part of a file, or cut off one but
      not yet free. */
  datatype Snapshot = Snapshot(fat: Fat, live: Live, pending: seq<int>)

  /** Every file's chain is in range, acyclic, ended by EOF and disjoint from all others, and so
      is the pending one. */
  ghost predicate SnapOk(s: Snapshot) {
    LiveOk(s.fat, s.live) && Unowned(s.live, s.pending) && (s.pending != [] ==> IsChain(s.fat, s.pending))
  }

  ghost predicate OneWrite(f: Fat, g: Fat) {
    |f| == |g| && (f == g || exists e: nat :: e < |f| && g == f[e := g[e]])
  }

  /** What a write means for who owns what. */
  datatype Move = Stay | Take(c: int) | Release(c: int) | HandOver(id: nat) | Cut(id: nat, k: nat) | Open(id: nat, chain: seq<int>)

  ghost predicate MoveOk(s: Snapshot, t: Snapshot, m: Move) {
    match m
    case Stay => t.live == s.live && t.pending == s.pending
    case Take(c) => t.live == s.live && t.pending == s.pending + [c]
    case Release(c) =>
      t.live == s.live && s.pending == [c] + t.pending && InRange(s.fat, c) && t.fat == s.fat[c := FAT_ENT_FREE]
    case HandOver(id) =>
      id in s.live && s.pending != [] && t.pending == [] && t.live == s.live[id := s.live[id] + s.pending]
    case Cut(id, k) =>
      && id in s.live && k <= |s.live[id]| && s.pending == []
      && t.live == s.live[id := s.live[id][..k]] && t.pending == s.live[id][k..]
    case Open(id, c) => id !in s.live && t.fat == s.fat && t.live == s.live[id := c] && t.pending == s.pending
  }

  /** From one snapshot to the next at most one entry is written, and clusters change hands
      in one of the six ways. */
  ghost predicate StepOk(s: Snapshot, t: Snapshot) {
    OneWrite(s.fat, t.fat) && exists m :: MoveOk(s, t, m)
  }

  /** All snapshots, and all steps between them. */
  ghost predicate LogOk(trace: seq<Snapshot>) {
    && trace != []
    && (forall i :: 0 <= i < |trace| ==> SnapOk(trace[i]))
    && (forall i :: 0 < i < |trace| ==> StepOk(trace[i - 1], trace[i]))
  }

  /** The same files, and the same chains except for the files ids. */
  ghost predicate LiveBut(l: Live, l0: Live, ids: set<nat>) {
    l.Keys == l0.Keys && forall k :: k in l0 && k !in ids ==> l[k] == l0[k]
  }

  /** Snapshot i is right, one step behind the one before it, and only the files ids own
      something else in it than in l0. */
  ghost predicate EntryOk(trace: seq<Snapshot>, i: nat, l0: Live, ids: set<nat>) {
    && 0 < i < |trace| && SnapOk(trace[i]) && StepOk(trace[i - 1], trace[i])
    && LiveBut(trace[i].live, l0, ids)
  }

  /** The log has grown from t0 to t1 by such snapshots. */
  ghost predicate LogGrows(t0: seq<Snapshot>, t1: seq<Snapshot>, l0: Live, ids: set<nat>) {
    t0 <= t1 && forall i {:trigger EntryOk(t1, i, l0, ids)} :: |t0| <= i < |t1| ==> EntryOk(t1, i, l0, ids)
  }

  lemma GrowsMeans(t0: seq<Snapshot>, t1: seq<Snapshot>, l0: Live, ids: set<nat>)
    requires LogGrows(t0, t1, l0, ids)
    ensures LogOk(t0) ==> LogOk(t1)
    ensures forall i :: |t0| <= i < |t1| ==> SnapOk(t1[i]) && LiveBut(t1[i].live, l0, ids)
  {
    forall i | |t0| <= i < |t1|
      ensures SnapOk(t1[i]) && LiveBut(t1[i].live, l0, ids)
    {
      assert EntryOk(t1, i, l0, ids);
    }
    forall i | 0 < i < |t1| && |t0| <= i
      ensures StepOk(t1[i - 1], t1[i])
    {
      assert EntryOk(t1, i, l0, ids);
    }
    assert forall i :: 0 <= i < |t0| ==> t1[i] == t0[i];
  }

  lemma LogOneMore(t: seq<Snapshot>, next: Snapshot)
    requires t != [] && SnapOk(next) && StepOk(t[|t| - 1], next)
    ensures LogOk(t) ==> LogOk(t + [next])
  {
    var u := t + [next];
    assert u[|t|] == next && forall i :: 0 <= i < |t| ==> u[i] == t[i];
  }

  lemma GrowsOne(t: seq<Snapshot>, now: Snapshot, next: Snapshot, m: Move, l: Live, ids: set<nat>)
    requires t != [] && t[|t| - 1] == now && SnapOk(next) && OneWrite(now.fat, next.fat) && MoveOk(now, next, m)
    requires LiveBut(next.live, l, ids)
    ensures LogGrows(t, t + [next], l, ids)
  {
    var u := t + [next];
    assert u[|t| - 1] == now && u[|t|] == next;
  }

  /** First one thing, then another. */
  lemma GrowsTrans(t0: seq<Snapshot>, t1: seq<Snapshot>, t2: seq<Snapshot>, l0: Live, l1: Live, a: set<nat>, b: set<nat>, ids: set<nat>)
    requires LogGrows(t0, t1, l0, a) && LogGrows(t1, t2, l1, b) && LiveBut(l1, l0, ids) && a <= ids && b <= ids
    ensures LogGrows(t0, t2, l0, ids)
  {
    forall i | |t0| <= i < |t2|
      ensures EntryOk(t2, i, l0, ids)
    {
      if i < |t1| {
        assert EntryOk(t1, i, l0, a) && t2[i - 1] == t1[i - 1] && t2[i] == t1[i];
      } else {
        assert EntryOk(t2, i, l1, b);
      }
    }
  }

  /** Going on without changing who owns what. */
  lemma GrowsOn(t0: seq<Snapshot>, t1: seq<Snapshot>, t2: seq<Snapshot>, l: Live)
    requires LogGrows(t0, t1, l, {}) && LogGrows(t1, t2, l, {})
    ensures LogGrows(t0, t2, l, {})
  {
    GrowsTrans(t0, t1, t2, l, l, {}, {}, {});
  }

  lemma GrowsWider(t0: seq<Snapshot>, t1: seq<Snapshot>, l: Live, a: set<nat>, ids: set<nat>)
    requires LogGrows(t0, t1, l, a) && a <= ids
    ensures LogGrows(t0, t1, l, ids)
  {
    GrowsTrans(t0, t1, t1, l, l, a, {}, ids);
  }

  // ----- that single writes are snapshots that are right

  lemma WriteIsOne(f: Fat, e: nat, v: int)
    requires e < |f|
    ensures OneWrite(f, f[e := v])
  {
    assert f[e := v] == f[e := f[e := v][e]];
  }

  /** A write outside every chain. */
  lemma OutsideOk(s: Snapshot, e: int, v: int)
    requires SnapOk(s) && InRange(s.fat, e) && !Owned(s.live, e) && e !in s.pending
    ensures SnapOk(s.(fat := s.fat[e := v]))
  {
    PutOutsideLive(s.fat, s.live, e, v);
    assert forall i :: 0 <= i < |s.pending| ==> s.pending[i] in s.pending;
  }

  /** The first cluster of a pending chain. */
  lemma FirstTaken(s: Snapshot, e: int)
    requires SnapOk(s) && InRange(s.fat, e) && !Owned(s.live, e) && s.pending == []
    ensures SnapOk(Snapshot(s.fat[e := FAT_ENT_EOF], s.live, [e]))
  {
    PutOutsideLive(s.fat, s.live, e, FAT_ENT_EOF);
  }

  /** Linking one more cluster, into which EOF has already been written. */
  lemma NextTaken(s: Snapshot, e: int)
    requires SnapOk(s) && s.pending != [] && InRange(s.fat, e) && s.fat[e] == FAT_ENT_EOF
    requires !Owned(s.live, e) && e !in s.pending
    ensures SnapOk(Snapshot(s.fat[s.pending[|s.pending| - 1] := e], s.live, s.pending + [e]))
  {
    var c := s.pending;
    assert c[|c| - 1] in c && forall i :: 0 <= i < |c| ==> c[i] in c;
    PutOutsideLive(s.fat, s.live, c[|c| - 1], e);
    JoinChains(s.fat, c, [e]);
  }

  /** In the other order no log would be right: once the link to an entry that is still FREE is
      written, no move makes a right snapshot of it. */
  lemma LinkFirstIsWrong(s: Snapshot, e: int, t: Snapshot, m: Move)
    requires SnapOk(s) && s.pending != [] && InRange(s.fat, e) && s.fat[e] == FAT_ENT_FREE && |s.fat| <= FAT_ENT_EOF
    requires t.fat == s.fat[s.pending[|s.pending| - 1] := e] && t.live == s.live && MoveOk(s, t, m)
    ensures !SnapOk(t)
  {
    var c := s.pending;
    var last := c[|c| - 1];
    assert e !in c by {
      ChainEntriesUsed(s.fat, c);
    }
    assert t.fat[last] == e && last != e && t.fat[e] == FAT_ENT_FREE;
    if m.Take? {
      assert t.pending[|c| - 1] == last && t.pending[|c|] == m.c;
    }
  }

  /** Giving back the first cluster of a pending chain. */
  lemma HeadReleased(s: Snapshot, c: int, rest: seq<int>)
    requires SnapOk(s) && s.pending == [c] + rest && InRange(s.fat, c)
    ensures SnapOk(Snapshot(s.fat[c := FAT_ENT_FREE], s.live, rest))
  {
    assert s.pending[0] == c && forall i :: 0 <= i < |rest| ==> rest[i] == s.pending[i + 1];
    PutOutsideLive(s.fat, s.live, c, FAT_ENT_FREE);
  }
}
