/** fat_cache_add as it interleaves with itself and with the other cache operations: the
    lock is dropped while memory is allocated, so every critical section is one step. */
module CacheSteps {
  import opened Chains
  import opened Walks
  import opened Inodes
  import opened Machine

  /** cache_lru, nr_caches and cache_valid_id, and the threads between their two critical
      sections with the runs they are about to add. */
  datatype Shared = Shared(lru: seq<CacheRun>, nr: int, validId: int, window: map<nat, CacheRun>)

  datatype Act =
    | Enter(t: nat, id: int, run: CacheRun) // fat_cache_add up to the allocation, or all of it
    | Leave(t: nat)                         // the rest, once the allocation succeeded
    | Hit(i: nat)                           // fat_cache_lookup finding the i-th run
    | Inval                                 // fat_cache_inval_inode

  /** NoVictim: there is no entry to reuse. Conflict: the BUG_ON of fat_cache_merge. */
  datatype Outcome = Next(s: Shared) | NoVictim | Conflict

  predicate Enabled(s: Shared, a: Act) {
    match a
    case Enter(t, _, _) => t !in s.window
    case Leave(t) => t in s.window
    case Hit(i) => i < |s.lru|
    case Inval => true
  }

  /** fat_cache_merge when there is a run with the same start, at i. */
  function Merged(s: Shared, i: nat, run: CacheRun): Outcome
    requires i < |s.lru|
  {
    if s.lru[i].dcluster != run.dcluster then Conflict
    else Next(s.(lru := ToFront(s.lru[i := Longer(s.lru[i], run)], i)))
  }

  function DoEnter(s: Shared, t: nat, id: int, run: CacheRun): Outcome {
    var i := FindRun(s.lru, run.fcluster);
    if run.fcluster == -1 || (id != FAT_CACHE_VALID && id != s.validId) then Next(s)
    else if i < |s.lru| then Merged(s, i, run)
    else if s.nr < FAT_MAX_CACHE then Next(s.(nr := s.nr + 1, window := s.window[t := run]))
    else if s.lru == [] then NoVictim
    else Next(s.(lru := [run] + s.lru[..|s.lru| - 1]))
  }

  function DoLeave(s: Shared, t: nat): Outcome
    requires t in s.window
  {
    var run := s.window[t];
    var i := FindRun(s.lru, run.fcluster);
    var s' := s.(window := s.window - {t});
    if i < |s.lru| then Merged(s'.(nr := s.nr - 1), i, run)
    else Next(s'.(lru := [run] + s.lru))
  }

  /** The next generation: 1 to 2^32 - 1 in turn. */
  function NextId(id: int): int {
    if (id + 1) % U32 == FAT_CACHE_VALID then FAT_CACHE_VALID + 1 else (id + 1) % U32
  }

  function Step(s: Shared, a: Act): Outcome
    requires Enabled(s, a)
  {
    match a
    case Enter(t, id, run) => DoEnter(s, t, id, run)
    case Leave(t) => DoLeave(s, t)
    case Hit(i) => Next(s.(lru := ToFront(s.lru, i)))
    case Inval => Next(s.(lru := [], nr := s.nr - |s.lru|, validId := NextId(s.validId)))
  }

  /** nr_caches counts the list and the entries being allocated, and no two runs in the list
      start at the same file cluster. */
  ghost predicate Counted(s: Shared) {
    && s.nr == |s.lru| + |s.window| <= FAT_MAX_CACHE
    && forall i, j :: 0 <= i < j < |s.lru| ==> s.lru[i].fcluster != s.lru[j].fcluster
  }

  lemma ToFrontDistinct(runs: seq<CacheRun>, i: nat)
    requires i < |runs| && forall j, k :: 0 <= j < k < |runs| ==> runs[j].fcluster != runs[k].fcluster
    ensures var r := ToFront(runs, i);
      |r| == |runs| && forall j, k :: 0 <= j < k < |r| ==> r[j].fcluster != r[k].fcluster
  {
    var r := ToFront(runs, i);
    forall k | 0 <= k < |r|
      ensures r[k] == runs[if k == 0 then i else if k <= i then k - 1 else k]
    {
    }
  }

  lemma AddKey(m: map<nat, CacheRun>, t: nat, run: CacheRun)
    requires t !in m
    ensures |m[t := run]| == |m| + 1
  {
    assert m[t := run].Keys == m.Keys + {t};
    assert |m[t := run].Keys| == |m.Keys| + 1;
  }

  lemma DropKey(m: map<nat, CacheRun>, t: nat)
    requires t in m
    ensures |m - {t}| == |m| - 1
  {
    assert m.Keys == (m - {t}).Keys + {t};
    assert |m.Keys| == |(m - {t}).Keys| + 1;
  }

  lemma MergedCounts(s: Shared, i: nat, run: CacheRun)
    requires Counted(s) && i < |s.lru| && s.lru[i].fcluster == run.fcluster
    ensures Merged(s, i, run).Next? ==> Counted(Merged(s, i, run).s)
  {
    ToFrontDistinct(s.lru[i := Longer(s.lru[i], run)], i);
  }

  /** One step, by any thread: the count stays right; and a victim is missing exactly when an
      adder finds all eight places taken by adders that are still allocating. */
  lemma StepCounts(s: Shared, a: Act)
    requires Counted(s) && Enabled(s, a)
    ensures Step(s, a).Next? ==> Counted(Step(s, a).s)
    ensures Step(s, a).NoVictim? <==> (a.Enter? && |s.window| == FAT_MAX_CACHE && a.run.fcluster != -1 && (a.id == FAT_CACHE_VALID || a.id == s.validId))
  {
    match a
    case Enter(t, id, run) =>
      EnterCounts(s, t, id, run);
    case Leave(t) =>
      LeaveCounts(s, t);
    case Hit(i) =>
      ToFrontDistinct(s.lru, i);
    case Inval =>
  }

  lemma EnterCounts(s: Shared, t: nat, id: int, run: CacheRun)
    requires Counted(s) && t !in s.window
    ensures DoEnter(s, t, id, run).Next? ==> Counted(DoEnter(s, t, id, run).s)
    ensures DoEnter(s, t, id, run).NoVictim? <==> |s.window| == FAT_MAX_CACHE && run.fcluster != -1 && (id == FAT_CACHE_VALID || id == s.validId)
  {
    var i := FindRun(s.lru, run.fcluster);
    AddKey(s.window, t, run);
    if i < |s.lru| {
      MergedCounts(s, i, run);
    }
  }

  lemma LeaveCounts(s: Shared, t: nat)
    requires Counted(s) && t in s.window
    ensures DoLeave(s, t).Next? ==> Counted(DoLeave(s, t).s)
    ensures !DoLeave(s, t).NoVictim?
  {
    var i := FindRun(s.lru, s.window[t].fcluster);
    DropKey(s.window, t);
    if i < |s.lru| {
      MergedCounts(s.(nr := s.nr - 1, window := s.window - {t}), i, s.window[t]);
    }
  }

  // ----- runs

  /** The steps can be taken one after the other, with never more than `most` threads inside
      fat_cache_add at once. */
  ghost predicate Possible(s: Shared, acts: seq<Act>, most: nat)
    decreases |acts|
  {
    acts == [] || (
      && Enabled(s, acts[0]) && (acts[0].Enter? ==> |s.window| < most)
      && (Step(s, acts[0]).Next? ==> Possible(Step(s, acts[0]).s, acts[1..], most)))
  }

  /** The state after all steps, or the first failure. */
  ghost function Exec(s: Shared, acts: seq<Act>, most: nat): Outcome
    requires Possible(s, acts, most)
    decreases |acts|
  {
    if acts == [] then Next(s)
    else
      match Step(s, acts[0])
      case Next(s') => Exec(s', acts[1..], most)
      case failed => failed
  }

  /** With at most eight threads in fat_cache_add, whatever the interleaving: eviction always
      finds a victim, and the count and the distinctness of the runs hold after every step. */
  lemma {:induction false} EightAddersAreSafe(s: Shared, acts: seq<Act>)
    requires Counted(s) && Possible(s, acts, FAT_MAX_CACHE)
    ensures !Exec(s, acts, FAT_MAX_CACHE).NoVictim?
    ensures Exec(s, acts, FAT_MAX_CACHE).Next? ==> Counted(Exec(s, acts, FAT_MAX_CACHE).s)
    decreases |acts|
  {
    if acts != [] {
      StepCounts(s, acts[0]);
      if Step(s, acts[0]).Next? {
        EightAddersAreSafe(Step(s, acts[0]).s, acts[1..]);
      }
    }
  }

  function Empty(): Shared { Shared([], 0, 1, map[]) }

  /** Threads 0 .. n - 1 wait for memory, each with a run of its own. */
  function Waiting(n: nat): (w: map<nat, CacheRun>)
    ensures |w| == n && forall t :: t in w ==> t < n
  {
    if n == 0 then map[]
    else
      AddKey(Waiting(n - 1), n - 1, Own(n - 1));
      Waiting(n - 1)[n - 1 := Own(n - 1)]
  }

  function Own(t: nat): CacheRun { CacheRun(0, t + 1, 100 + t) }

  function Enters(from: nat, to: nat): seq<Act>
    requires from <= to
  {
    seq(to - from, k requires 0 <= k < to - from => Enter(from + k, FAT_CACHE_VALID, Own(from + k)))
  }

  /** Nine adders at once do run out of victims. */
  lemma NineAddersAreNot()
    ensures Possible(Empty(), Enters(0, 9), 9) && Exec(Empty(), Enters(0, 9), 9) == NoVictim
  {
    NineFrom(0);
  }

  lemma {:induction false} NineFrom(n: nat)
    requires n <= 8
    ensures var s := Shared([], n, 1, Waiting(n));
      Possible(s, Enters(n, 9), 9) && Exec(s, Enters(n, 9), 9) == NoVictim
    decreases 8 - n
  {
    assert Enters(n, 9)[0] == Enter(n, FAT_CACHE_VALID, Own(n));
    if n < 8 {
      assert Enters(n, 9)[1..] == Enters(n + 1, 9);
      NineFrom(n + 1);
    }
  }

  // ----- what a completed add does

  /** An add that nothing comes between is the add of the sequential cache. */
  lemma AloneIsAddRun(s: Shared, t: nat, run: CacheRun)
    requires Counted(s) && s.window == map[] && run.fcluster != -1
    ensures var o := DoEnter(s, t, FAT_CACHE_VALID, run);
      && (o == Conflict || o.Next?)
      && (o.Next? ==> if t in o.s.window then DoLeave(o.s, t) == Next(s.(lru := AddRun(s.lru, run, FAT_MAX_CACHE), nr := s.nr + 1))
                      else o.s.lru == AddRun(s.lru, run, FAT_MAX_CACHE))
  {
    var o := DoEnter(s, t, FAT_CACHE_VALID, run);
    if o.Next? && t in o.s.window {
      assert s.window[t := run] - {t} == s.window;
    }
  }

  /** Runs that were all read off one and the same chain. */
  ghost predicate Coherent(f: Fat, start: int, limit: nat, s: Shared) {
    RunsOk(f, start, limit, s.lru) && forall t :: t in s.window ==> RunOk(f, start, limit, s.window[t])
  }

  /** An add that is not dropped at once. */
  predicate Brings(s: Shared, a: Act) {
    a.Enter? && a.run.fcluster != -1 && (a.id == FAT_CACHE_VALID || a.id == s.validId)
  }

  /** Every run that is taken in on the way was read off this chain. */
  ghost predicate BringsRight(f: Fat, start: int, limit: nat, s: Shared, acts: seq<Act>)
    decreases |acts|
  {
    acts == [] || (
      && (Brings(s, acts[0]) ==> RunOk(f, start, limit, acts[0].run))
      && (Enabled(s, acts[0]) && Step(s, acts[0]).Next? ==> BringsRight(f, start, limit, Step(s, acts[0]).s, acts[1..])))
  }

  /** While the chain stands still, no step conflicts and every run stays right, whichever
      threads are between their critical sections. */
  lemma StepCoherent(f: Fat, start: int, limit: nat, s: Shared, a: Act)
    requires Counted(s) && Coherent(f, start, limit, s) && Enabled(s, a)
    requires Brings(s, a) ==> RunOk(f, start, limit, a.run)
    ensures Step(s, a) != Conflict
    ensures Step(s, a).Next? ==> Coherent(f, start, limit, Step(s, a).s)
  {
    match a
    case Enter(t, id, run) =>
      if Brings(s, a) {
        AddRunOk(f, start, limit, s.lru, run, if s.lru == [] then 1 else |s.lru|);
      }
    case Leave(t) =>
      AddRunOk(f, start, limit, s.lru, s.window[t], |s.lru| + 1);
    case Hit(i) =>
      ToFrontOk(f, start, limit, s.lru, i);
    case Inval =>
  }

  /** So whole runs over a chain that stands still end well. */
  lemma {:induction false} QuietRunsSucceed(f: Fat, start: int, limit: nat, s: Shared, acts: seq<Act>)
    requires Counted(s) && Coherent(f, start, limit, s) && Possible(s, acts, FAT_MAX_CACHE)
    requires BringsRight(f, start, limit, s, acts)
    ensures Exec(s, acts, FAT_MAX_CACHE).Next? && Counted(Exec(s, acts, FAT_MAX_CACHE).s) && Coherent(f, start, limit, Exec(s, acts, FAT_MAX_CACHE).s)
    decreases |acts|
  {
    if acts != [] {
      StepCounts(s, acts[0]);
      StepCoherent(f, start, limit, s, acts[0]);
      QuietRunsSucceed(f, start, limit, Step(s, acts[0]).s, acts[1..]);
    }
  }

  // ----- generations

  function Invals(acts: seq<Act>): nat {
    if acts == [] then 0 else (if acts[0] == Inval then 1 else 0) + Invals(acts[1..])
  }

  /** The generation n invalidations later. */
  function Later(id: int, n: nat): int { (id - 1 + n) % (U32 - 1) + 1 }

  lemma LaterNext(id: int, n: nat)
    requires 0 < id < U32
    ensures Later(NextId(id), n) == Later(id, n + 1) && Later(id, 0) == id
  {
    assert (U32 - 1 + n) % (U32 - 1) == n % (U32 - 1);
  }

  lemma {:induction false} IdAfter(s: Shared, acts: seq<Act>, most: nat)
    requires 0 < s.validId < U32 && Possible(s, acts, most) && Exec(s, acts, most).Next?
    ensures Exec(s, acts, most).s.validId == Later(s.validId, Invals(acts))
    decreases |acts|
  {
    LaterNext(s.validId, if acts == [] then 0 else Invals(acts[1..]));
    if acts != [] {
      IdAfter(Step(s, acts[0]).s, acts[1..], most);
    }
  }

  /** A run seen before an invalidation is dropped when it is added with the generation it was
      seen in, whatever else has happened, unless all generations have gone by. */
  lemma OutdatedIsDropped(s: Shared, acts: seq<Act>, most: nat, t: nat, run: CacheRun)
    requires 0 < s.validId < U32 && Possible(s, acts, most) && Exec(s, acts, most).Next? && 0 < Invals(acts) < U32 - 1
    ensures var s' := Exec(s, acts, most).s; DoEnter(s', t, s.validId, run) == Next(s')
  {
    IdAfter(s, acts, most);
  }

  /** But one whose walk began at the file's first cluster, or went over to another run, carries
      no generation, and is taken in after an invalidation as before. */
  lemma UndatedIsTaken(s: Shared, t: nat, run: CacheRun)
    requires Counted(s) && |s.window| < FAT_MAX_CACHE && run.fcluster != -1
    ensures var s' := Step(s, Inval).s; DoEnter(s', t, FAT_CACHE_VALID, run) == Next(s'.(nr := s'.nr + 1, window := s.window[t := run]))
  {
  }

  // ----- when the chain changes

  /** After an invalidation the cache is right for whatever chain the file has then, exactly
      when no adder waits for memory at that moment. */
  lemma InvalidationCompleteIff(limit: nat, s: Shared)
    requires Counted(s)
    ensures (forall f', start' :: Coherent(f', start', limit, Step(s, Inval).s)) <==> s.window == map[]
  {
    if s.window != map[] {
      var t :| t in s.window;
      OffEveryChain(limit, s.window[t]);
      assert !Coherent([], 0, limit, Step(s, Inval).s);
    }
  }

  /** On a FAT without clusters no run is right. */
  lemma OffEveryChain(limit: nat, run: CacheRun)
    ensures !RunOk([], 0, limit, run)
  {
    if run.fcluster >= 1 {
      assert Steps([], 0, run.fcluster) == Nowhere by {
        NowhereFrom(run.fcluster);
      }
    }
  }

  lemma {:induction false} NowhereFrom(k: nat)
    requires k >= 1
    ensures Steps([], 0, k) == Nowhere
  {
    if k > 1 {
      NowhereFrom(k - 1);
    }
  }

  lemma {:induction false} ExecSplit(s: Shared, before: seq<Act>, after: seq<Act>, most: nat)
    requires Possible(s, before + after, most)
    ensures Possible(s, before, most)
    ensures Exec(s, before, most).Next? ==> Possible(Exec(s, before, most).s, after, most)
    ensures Exec(s, before + after, most) == if Exec(s, before, most).Next? then Exec(Exec(s, before, most).s, after, most) else Exec(s, before, most)
    decreases |before|
  {
    if before == [] {
      assert before + after == after;
    } else {
      assert (before + after)[0] == before[0] && (before + after)[1..] == before[1..] + after;
      if Step(s, before[0]).Next? {
        ExecSplit(Step(s, before[0]).s, before[1..], after, most);
      }
    }
  }

  /** So a run of steps over one chain, an invalidation that no adder waits through, and a run
      of steps over another chain end well. */
  lemma RunsAcrossInval(f: Fat, start: int, f': Fat, start': int, limit: nat, s: Shared, before: seq<Act>, after: seq<Act>)
    requires Counted(s) && Coherent(f, start, limit, s) && Possible(s, before + ([Inval] + after), FAT_MAX_CACHE)
    requires BringsRight(f, start, limit, s, before)
    requires Possible(s, before, FAT_MAX_CACHE) && Exec(s, before, FAT_MAX_CACHE).Next? ==>
      var s1 := Exec(s, before, FAT_MAX_CACHE).s;
      s1.window == map[] && BringsRight(f', start', limit, Step(s1, Inval).s, after)
    ensures var o := Exec(s, before + ([Inval] + after), FAT_MAX_CACHE); o.Next? && Counted(o.s) && Coherent(f', start', limit, o.s)
  {
    ExecSplit(s, before, [Inval] + after, FAT_MAX_CACHE);
    QuietRunsSucceed(f, start, limit, s, before);
    var s1 := Exec(s, before, FAT_MAX_CACHE).s;
    var s2 := Step(s1, Inval).s;
    assert ([Inval] + after)[1..] == after;
    StepCounts(s1, Inval);
    QuietRunsSucceed(f', start', limit, s2, after);
  }

  /** And whichever run t an adder waits with while the cache is invalidated: another adder u can
      bring in a run of the new chain that starts at the same file cluster elsewhere on disk,
      and the BUG_ON is met. */
  lemma WaitingRunsCanConflict(s: Shared, t: nat, u: nat)
    requires Counted(s) && t in s.window && u !in s.window && |s.window| < FAT_MAX_CACHE && s.window[t].fcluster != -1
    ensures var other := s.window[t].(dcluster := s.window[t].dcluster + 1);
      var acts := [Inval, Enter(u, FAT_CACHE_VALID, other), Leave(u), Leave(t)];
      Possible(s, acts, FAT_MAX_CACHE) && Exec(s, acts, FAT_MAX_CACHE) == Conflict
  {
    var other := s.window[t].(dcluster := s.window[t].dcluster + 1);
    var acts := [Inval, Enter(u, FAT_CACHE_VALID, other), Leave(u), Leave(t)];
    var s1 := Step(s, Inval).s;
    var s2 := s1.(nr := s1.nr + 1, window := s1.window[u := other]);
    var s3 := s2.(lru := [other], window := s1.window);
    assert s2.window - {u} == s1.window;
    assert Step(s1, acts[1]) == Next(s2) && Step(s2, acts[2]) == Next(s3) && Step(s3, acts[3]) == Conflict;
    assert acts[1..][1..] == acts[2..] && acts[2..][1..] == acts[3..] && acts[3..][1..] == [];
    assert Possible(s3, acts[3..], FAT_MAX_CACHE) && Exec(s3, acts[3..], FAT_MAX_CACHE) == Conflict;
    assert Possible(s2, acts[2..], FAT_MAX_CACHE) && Exec(s2, acts[2..], FAT_MAX_CACHE) == Conflict;
    assert Possible(s1, acts[1..], FAT_MAX_CACHE) && Exec(s1, acts[1..], FAT_MAX_CACHE) == Conflict;
  }

  /** From an empty cache: thread 0 took its run from a chain that was then cut and grew again
      elsewhere, and its second section meets the new run. */
  lemma InvalidationMissesTheWindow()
    ensures var acts := [Enter(0, FAT_CACHE_VALID, CacheRun(0, 5, 100)), Inval, Enter(1, FAT_CACHE_VALID, CacheRun(0, 5, 101)), Leave(1), Leave(0)];
      Possible(Empty(), acts, FAT_MAX_CACHE) && Exec(Empty(), acts, FAT_MAX_CACHE) == Conflict
  {
    var old_, new_ := CacheRun(0, 5, 100), CacheRun(0, 5, 101);
    var acts := [Enter(0, FAT_CACHE_VALID, old_), Inval, Enter(1, FAT_CACHE_VALID, new_), Leave(1), Leave(0)];
    var s := Shared([], 1, 1, map[0 := old_]);
    WaitingRunsCanConflict(s, 0, 1);
    assert Step(Empty(), acts[0]) == Next(s);
    assert acts[1..] == [Inval, Enter(1, FAT_CACHE_VALID, old_.(dcluster := 101)), Leave(1), Leave(0)];
  }
}
