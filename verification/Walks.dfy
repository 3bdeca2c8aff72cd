/** Following a cluster chain step by step on an arbitrary FAT, and what a cached run of
    contiguous clusters claims about such a walk. */
module Walks {
  import opened Packing
  import opened Machine
  import opened Chains

  datatype Pos = Nowhere | AtCluster(d: int)

  /** Where k steps from cluster s lead. */
  function Steps(f: Fat, s: int, k: nat): Pos {
    if k == 0 then AtCluster(s)
    else
      match Steps(f, s, k - 1)
      case Nowhere => Nowhere
      case AtCluster(d) =>
        if InRange(f, d) && f[d] != FAT_ENT_FREE && f[d] != FAT_ENT_EOF then AtCluster(f[d]) else Nowhere
  }

  /** What fat_get_cluster reports: its return code, *fclus and *dclus. */
  datatype Reply = Reply(nr: int, fclus: int, dclus: int)

  /** The walk without any cache, from file cluster fc at disk cluster dc. */
  function Naive(f: Fat, fc: nat, dc: int, cluster: int, limit: nat): Reply
    decreases limit + 1 - fc
  {
    if fc >= cluster then Reply(0, fc, dc)
    else if fc > limit || !InRange(f, dc) || f[dc] == FAT_ENT_FREE then Reply(EIO, fc, dc)
    else if f[dc] == FAT_ENT_EOF then Reply(FAT_ENT_EOF, fc, dc)
    else Naive(f, fc + 1, f[dc], cluster, limit)
  }

  /** Starting further along the walk gives the same answer. */
  lemma {:induction false} NaiveSkips(f: Fat, s: int, k: nat, cluster: int, limit: nat)
    requires Steps(f, s, k).AtCluster? && k <= cluster && k <= limit + 1
    ensures Naive(f, 0, s, cluster, limit) == Naive(f, k, Steps(f, s, k).d, cluster, limit)
  {
    if k > 0 {
      NaiveSkips(f, s, k - 1, cluster, limit);
    }
  }

  /** The reply on any FAT: the walk stands where fclus steps lead, and stops early exactly at
      the size limit, at an entry out of range or free, or at the end mark. */
  lemma {:induction false} NaiveExact(f: Fat, s: int, k: nat, cluster: nat, limit: nat)
    requires Steps(f, s, k).AtCluster? && k <= cluster && k <= limit + 1
    ensures var r := Naive(f, k, Steps(f, s, k).d, cluster, limit);
      && k <= r.fclus <= cluster && r.fclus <= limit + 1 && Steps(f, s, r.fclus) == AtCluster(r.dclus)
      && (r.nr == 0 <==> r.fclus == cluster)
      && (r.nr == FAT_ENT_EOF <==> r.fclus < cluster && r.fclus <= limit && InRange(f, r.dclus) && f[r.dclus] == FAT_ENT_EOF)
      && (r.nr == EIO <==> r.fclus < cluster && (r.fclus > limit || !InRange(f, r.dclus) || f[r.dclus] == FAT_ENT_FREE))
    decreases limit + 1 - k
  {
    var d := Steps(f, s, k).d;
    if k < cluster && k <= limit && InRange(f, d) && f[d] != FAT_ENT_FREE && f[d] != FAT_ENT_EOF {
      assert Steps(f, s, k + 1) == AtCluster(f[d]);
      NaiveExact(f, s, k + 1, cluster, limit);
    }
  }

  /** struct fat_cache: file clusters fcluster .. fcluster + nrContig lie at
      dcluster .. dcluster + nrContig on disk. */
  datatype CacheRun = CacheRun(nrContig: int, fcluster: int, dcluster: int)

  ghost predicate RunOk(f: Fat, s: int, limit: nat, r: CacheRun) {
    && 1 <= r.fcluster && 0 <= r.nrContig && r.fcluster + r.nrContig <= limit + 1
    && forall i: nat {:trigger Steps(f, s, i)} :: r.fcluster <= i <= r.fcluster + r.nrContig
         ==> Steps(f, s, i) == AtCluster(r.dcluster + (i - r.fcluster))
  }

  /** A cache, most recently used run first: right, and no two runs with the same start. */
  ghost predicate RunsOk(f: Fat, s: int, limit: nat, runs: seq<CacheRun>) {
    && (forall i, j :: 0 <= i < j < |runs| ==> runs[i].fcluster != runs[j].fcluster)
    && (forall i {:trigger RunOk(f, s, limit, runs[i])} :: 0 <= i < |runs| ==> RunOk(f, s, limit, runs[i]))
  }

  function ToFront(runs: seq<CacheRun>, i: nat): seq<CacheRun>
    requires i < |runs|
  {
    [runs[i]] + runs[..i] + runs[i + 1..]
  }

  lemma ToFrontOk(f: Fat, s: int, limit: nat, runs: seq<CacheRun>, i: nat)
    requires RunsOk(f, s, limit, runs) && i < |runs|
    ensures RunsOk(f, s, limit, ToFront(runs, i))
  {
    var r := ToFront(runs, i);
    forall k | 0 <= k < |r|
      ensures r[k] == runs[if k == 0 then i else if k <= i then k - 1 else k] && RunOk(f, s, limit, r[k])
    {
      assert RunOk(f, s, limit, runs[if k == 0 then i else if k <= i then k - 1 else k]);
    }
  }

  /** The position of the run that starts at file cluster fc, or |runs|. */
  function FindRun(runs: seq<CacheRun>, fc: int): (i: nat)
    ensures i <= |runs| && (i < |runs| ==> runs[i].fcluster == fc) && forall k :: 0 <= k < i ==> runs[k].fcluster != fc
  {
    if runs == [] || runs[0].fcluster == fc then 0 else 1 + FindRun(runs[1..], fc)
  }

  function Longer(r: CacheRun, other: CacheRun): CacheRun {
    if other.nrContig > r.nrContig then r.(nrContig := other.nrContig) else r
  }

  /** What adding a run does to the cache: extend the run with the same start, or else put
      the new one in front, dropping the least recently used if there are `max` already. */
  function AddRun(runs: seq<CacheRun>, run: CacheRun, max: nat): seq<CacheRun>
    requires max > 0
  {
    var i := FindRun(runs, run.fcluster);
    if i < |runs| then ToFront(runs[i := Longer(runs[i], run)], i)
    else if |runs| < max then [run] + runs
    else [run] + runs[..|runs| - 1]
  }

  /** Adding a right run to a right cache leaves it right. */
  lemma AddRunOk(f: Fat, s: int, limit: nat, runs: seq<CacheRun>, run: CacheRun, max: nat)
    requires RunsOk(f, s, limit, runs) && RunOk(f, s, limit, run) && 0 < max && |runs| <= max
    ensures RunsOk(f, s, limit, AddRun(runs, run, max)) && |AddRun(runs, run, max)| <= max
    ensures FindRun(runs, run.fcluster) < |runs| ==> runs[FindRun(runs, run.fcluster)].dcluster == run.dcluster
  {
    var i := FindRun(runs, run.fcluster);
    if i < |runs| {
      assert RunOk(f, s, limit, runs[i]);
      assert Steps(f, s, run.fcluster) == AtCluster(runs[i].dcluster);
      var longer := runs[i := Longer(runs[i], run)];
      forall k | 0 <= k < |longer|
        ensures RunOk(f, s, limit, longer[k])
      {
        assert RunOk(f, s, limit, runs[k]);
      }
      ToFrontOk(f, s, limit, longer, i);
    } else {
      var r := AddRun(runs, run, max);
      forall k | 0 <= k < |r|
        ensures RunOk(f, s, limit, r[k])
      {
        if k > 0 {
          assert RunOk(f, s, limit, runs[k - 1]);
        }
      }
    }
  }

  /** The run added stands in front, or the longer one of the same start; the others follow in
      their order, all of them unless a new run meets a full cache. */
  lemma AddRunMeans(runs: seq<CacheRun>, run: CacheRun, max: nat)
    requires 0 < max && |runs| <= max
    ensures var r, i := AddRun(runs, run, max), FindRun(runs, run.fcluster);
      && |r| == (if i == |runs| && |runs| < max then |runs| + 1 else |runs|)
      && (forall k :: 0 < k < |r| ==> r[k] == runs[if k <= i then k - 1 else k])
      && r[0].fcluster == run.fcluster && r[0].nrContig >= run.nrContig
      && (if i == |runs| then r[0] == run else r[0].dcluster == runs[i].dcluster && (r[0] == runs[i] || r[0].nrContig == run.nrContig))
  {
    var r, i := AddRun(runs, run, max), FindRun(runs, run.fcluster);
    if i < |runs| {
      var longer := runs[i := Longer(runs[i], run)];
      assert r == [longer[i]] + longer[..i] + longer[i + 1..];
    }
  }

  // ----- what fat_get_cluster has found out so far

  /** The walk from s towards file cluster `cluster` has reached fclus at dclus, and run is the
      stretch of contiguous clusters it is in, if it has left cluster 0. */
  ghost predicate Tracking(f: Fat, s: int, limit: nat, cluster: int, run: CacheRun, fclus: int, dclus: int) {
    match run
    case CacheRun(n, fc, dc) =>
      && 0 <= fclus <= limit + 1 && Steps(f, s, fclus) == AtCluster(dclus)
      && Naive(f, fclus, dclus, cluster, limit) == Naive(f, 0, s, cluster, limit)
      && (fc == -1 ==> dc == -1 && n == 0 && fclus == 0)
      && (fc != -1 ==> RunOk(f, s, limit, run))
      && (fc != -1 && fclus < cluster ==> fc + n == fclus && dc + n == dclus)
  }

  lemma TrackStart(f: Fat, s: int, limit: nat, cluster: int, run: CacheRun, k: nat)
    requires RunOk(f, s, limit, run) && k <= run.nrContig && run.fcluster + k <= cluster
    requires run.fcluster + k < cluster ==> k == run.nrContig
    ensures Tracking(f, s, limit, cluster, run, run.fcluster + k, run.dcluster + k)
  {
    NaiveSkips(f, s, run.fcluster + k, cluster, limit);
  }

  /** One more cluster, which continues the run or starts another. */
  lemma TrackOn(f: Fat, s: int, limit: nat, cluster: int, run: CacheRun, fclus: int, dclus: int)
    requires Tracking(f, s, limit, cluster, run, fclus, dclus) && fclus < cluster && fclus <= limit
    requires InRange(f, dclus) && f[dclus] != FAT_ENT_FREE && f[dclus] != FAT_ENT_EOF
    ensures Tracking(f, s, limit, cluster,
                     if run.dcluster + run.nrContig + 1 == f[dclus] then run.(nrContig := run.nrContig + 1)
                     else CacheRun(0, fclus + 1, f[dclus]),
                     fclus + 1, f[dclus])
  {
    assert Steps(f, s, fclus + 1) == AtCluster(f[dclus]);
    assert Naive(f, fclus, dclus, cluster, limit) == Naive(f, fclus + 1, f[dclus], cluster, limit);
  }

  /** Where the walk ends early. */
  lemma TrackEnd(f: Fat, s: int, limit: nat, cluster: int, run: CacheRun, fclus: int, dclus: int)
    requires Tracking(f, s, limit, cluster, run, fclus, dclus)
    ensures fclus >= cluster ==> Naive(f, 0, s, cluster, limit) == Reply(0, fclus, dclus)
    ensures (fclus < cluster && (fclus > limit || !InRange(f, dclus) || f[dclus] == FAT_ENT_FREE)
      ==> Naive(f, 0, s, cluster, limit) == Reply(EIO, fclus, dclus))
    ensures (fclus < cluster && fclus <= limit && InRange(f, dclus) && f[dclus] == FAT_ENT_EOF
      ==> Naive(f, 0, s, cluster, limit) == Reply(FAT_ENT_EOF, fclus, dclus))
  {
  }

  // ----- the same on a well-formed chain

  lemma {:induction false} StepsOfChain(f: Fat, c: seq<int>, k: nat)
    requires IsChain(f, c) && |f| <= FAT_ENT_EOF
    ensures Steps(f, c[0], k) == if k < |c| then AtCluster(c[k]) else Nowhere
  {
    if k > 0 {
      StepsOfChain(f, c, k - 1);
      if k < |c| {
        assert InRange(f, c[k]) && f[c[k - 1]] == c[k];
      }
    }
  }

  ghost predicate RunOnChain(c: seq<int>, limit: nat, r: CacheRun) {
    && 1 <= r.fcluster && 0 <= r.nrContig && r.fcluster + r.nrContig < |c| && r.fcluster + r.nrContig <= limit + 1
    && forall i {:trigger c[i]} :: r.fcluster <= i <= r.fcluster + r.nrContig ==> c[i] == r.dcluster + (i - r.fcluster)
  }

  /** On a well-formed chain a run is right exactly when it is a stretch of that chain. */
  lemma RunOkIffOnChain(f: Fat, c: seq<int>, limit: nat, r: CacheRun)
    requires IsChain(f, c) && |f| <= FAT_ENT_EOF
    ensures RunOk(f, c[0], limit, r) <==> RunOnChain(c, limit, r)
  {
    forall k: nat
      ensures Steps(f, c[0], k) == if k < |c| then AtCluster(c[k]) else Nowhere
    {
      StepsOfChain(f, c, k);
    }
    if RunOk(f, c[0], limit, r) {
      assert Steps(f, c[0], r.fcluster + r.nrContig).AtCluster?;
      forall i | r.fcluster <= i <= r.fcluster + r.nrContig
        ensures i < |c| && c[i] == r.dcluster + (i - r.fcluster)
      {
        assert Steps(f, c[0], i).AtCluster?;
      }
    }
  }

  /** The reply on a well-formed chain. */
  lemma NaiveOnChain(f: Fat, c: seq<int>, cluster: nat, limit: nat)
    requires IsChain(f, c) && |f| <= FAT_ENT_EOF && |c| <= limit + 1
    ensures Naive(f, 0, c[0], cluster, limit) ==
      if cluster < |c| then Reply(0, cluster, c[cluster]) else Reply(FAT_ENT_EOF, |c| - 1, c[|c| - 1])
  {
    var k := if cluster < |c| then cluster else |c| - 1;
    StepsOfChain(f, c, k);
    NaiveSkips(f, c[0], k, cluster, limit);
  }

  /** A right cache stays right when the chain grows, shrinks behind the cached runs, or
      merely other parts of the FAT change. */
  lemma RunsOkTransfer(f: Fat, c: seq<int>, f': Fat, c': seq<int>, limit: nat, runs: seq<CacheRun>)
    requires IsChain(f, c) && IsChain(f', c') && |f| <= FAT_ENT_EOF && |f'| <= FAT_ENT_EOF
    requires c <= c' || c' <= c
    requires RunsOk(f, c[0], limit, runs)
    requires c <= c' || forall r :: r in runs ==> r.fcluster + r.nrContig < |c'|
    ensures RunsOk(f', c'[0], limit, runs)
  {
    forall i | 0 <= i < |runs|
      ensures RunOk(f', c'[0], limit, runs[i])
    {
      assert RunOk(f, c[0], limit, runs[i]);
      RunOkIffOnChain(f, c, limit, runs[i]);
      RunOkIffOnChain(f', c', limit, runs[i]);
    }
  }
}
