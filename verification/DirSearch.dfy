/** A directory as a plain sequence of entries: where new ones go, and what adding and
    deleting do to it. */
module DirSearch {
  import opened LongNames
  import opened Splicing

  const MAX_DIR_ENTRIES := 65536 // FAT_MAX_DIR_SIZE / 32
  const MSDOS_SLOTS := 21

  function Zeros(n: nat): (r: seq<DirEntry>)
    ensures |r| == n
  {
    seq(n, _ => seq(32, _ => 0))
  }

  function Deleted(e: DirEntry): DirEntry { e[0 := DELETED_FLAG] }

  function AllDeleted(s: seq<DirEntry>): (r: seq<DirEntry>)
    ensures |r| == |s| && forall k :: 0 <= k < |s| ==> r[k] == Deleted(s[k])
  {
    seq(|s|, k requires 0 <= k < |s| => Deleted(s[k]))
  }

  /** s with the n entries from p on marked deleted. */
  function Marked(s: seq<DirEntry>, p: nat, n: nat): (r: seq<DirEntry>)
    requires p + n <= |s|
    ensures |r| == |s| && forall k :: 0 <= k < |s| ==> r[k] == if p <= k < p + n then Deleted(s[k]) else s[k]
  {
    Splice(s, p, AllDeleted(s[p..p + n]))
  }

  /** n free entries from p on. */
  predicate FreeRun(s: seq<DirEntry>, p: nat, n: nat) {
    p + n <= |s| && forall k :: p <= k < p + n ==> IsFree(s[k])
  }

  predicate NoRunBefore(s: seq<DirEntry>, n: nat, end: nat) {
    forall p: nat :: p + n <= end ==> !FreeRun(s, p, n)
  }

  /** The number of free entries right before position pos. */
  function FreeTail(s: seq<DirEntry>, pos: nat): (r: nat)
    requires pos <= |s|
    ensures r <= pos
  {
    if pos > 0 && IsFree(s[pos - 1]) then FreeTail(s, pos - 1) + 1 else 0
  }

  /** Outcome of the search for n free entries: none and no growing, or a place and how many
      of its entries are there already. */
  datatype Room = Full | Room(pos: nat, free: nat)

  /** The search from position pos on, with fewer than n free entries right before it. */
  function Search(s: seq<DirEntry>, n: nat, pos: nat): (r: Room)
    requires pos <= |s| && FreeTail(s, pos) < n
    ensures r.Room? ==> r.free <= n && r.pos + r.free <= |s| && (r.free < n ==> r.pos + r.free == |s|)
    decreases |s| - pos
  {
    if pos == |s| then Room(pos - FreeTail(s, pos), FreeTail(s, pos))
    else if pos + 1 >= MAX_DIR_ENTRIES then Full
    else if FreeTail(s, pos + 1) == n then Room(pos + 1 - n, n)
    else Search(s, n, pos + 1)
  }

  ghost predicate Outcome(s: seq<DirEntry>, n: nat, r: Room)
    requires n >= 1
  {
    r == Search(s, n, 0)
  }

  /** Where a search for n entries stands: the `free` entries from p on, fewer than n, are
      free, and whatever the outcome is, it is that of the search from behind them. */
  ghost predicate SearchAt(s: seq<DirEntry>, n: nat, p: nat, free: nat)
    requires n >= 1
  {
    forall r {:trigger Outcome(s, n, r)} :: Outcome(s, n, r) ==>
      p + free <= |s| && free == FreeTail(s, p + free) < n && r == Search(s, n, p + free)
  }

  lemma SearchStart(s: seq<DirEntry>, n: nat)
    requires n >= 1
    ensures SearchAt(s, n, 0, 0)
  {
  }

  /** At the end, at the size limit, and on to the next entry. */
  lemma SearchStep(s: seq<DirEntry>, n: nat, p: nat, free: nat)
    requires n >= 1 && p + free <= |s| && SearchAt(s, n, p, free)
    ensures p + free == |s| ==> Outcome(s, n, Room(p, free))
    ensures p + free < |s| && p + free + 1 >= MAX_DIR_ENTRIES ==> Outcome(s, n, Full)
    ensures (p + free < |s| && p + free + 1 < MAX_DIR_ENTRIES ==>
      if !IsFree(s[p + free]) then SearchAt(s, n, p + free + 1, 0)
      else if free + 1 == n then Outcome(s, n, Room(p, n))
      else SearchAt(s, n, p, free + 1))
  {
    assert Outcome(s, n, Search(s, n, 0));
    assert p + free < |s| ==> FreeTail(s, p + free + 1) == if IsFree(s[p + free]) then free + 1 else 0;
  }

  lemma {:induction false} FreeTailIsRun(s: seq<DirEntry>, pos: nat)
    requires pos <= |s|
    ensures FreeRun(s, pos - FreeTail(s, pos), FreeTail(s, pos))
    ensures pos > FreeTail(s, pos) ==> !IsFree(s[pos - FreeTail(s, pos) - 1])
  {
    if pos > 0 && IsFree(s[pos - 1]) {
      FreeTailIsRun(s, pos - 1);
    }
  }

  /** What the search finds: the lowest run of n free entries that ends below the size limit,
      or else the free entries at the end, unless the directory has its greatest size. */
  ghost predicate Rightly(s: seq<DirEntry>, n: nat, r: Room) {
    match r
    case Full => |s| >= MAX_DIR_ENTRIES && NoRunBefore(s, n, MAX_DIR_ENTRIES - 1)
    case Room(p, f) =>
      && FreeRun(s, p, f) && p + f < MAX_DIR_ENTRIES
      && (if f == n then n > 0 && NoRunBefore(s, n, p + n - 1)
          else f < n && p + f == |s| && NoRunBefore(s, n, |s|) && (p > 0 ==> !IsFree(s[p - 1])))
  }

  lemma {:induction false} SearchIsRight(s: seq<DirEntry>, n: nat, pos: nat)
    requires pos <= |s| && pos < MAX_DIR_ENTRIES && FreeTail(s, pos) < n && NoRunBefore(s, n, pos)
    ensures Rightly(s, n, Search(s, n, pos))
    decreases |s| - pos
  {
    FreeTailIsRun(s, pos);
    if pos < |s| && pos + 1 < MAX_DIR_ENTRIES {
      FreeTailIsRun(s, pos + 1);
      if FreeTail(s, pos + 1) < n {
        forall p: nat | p + n == pos + 1
          ensures !FreeRun(s, p, n)
        {
          assert !IsFree(s[pos - FreeTail(s, pos + 1)]);
        }
        SearchIsRight(s, n, pos + 1);
      }
    }
  }

  /** From the start of any directory the search gives the one right answer. */
  lemma SearchExact(s: seq<DirEntry>, n: nat, r: Room)
    requires n >= 1
    ensures r == Search(s, n, 0) <==> Rightly(s, n, r)
  {
    SearchIsRight(s, n, 0);
  }

  /** Entries in use are as they were, free ones still free. */
  ghost predicate Untouched(was: seq<DirEntry>, now: seq<DirEntry>) {
    |now| == |was| && forall k :: 0 <= k < |was| ==> if IsFree(was[k]) then IsFree(now[k]) else now[k] == was[k]
  }

  /** `now` is `was`, with zero entries behind it, except for slots, which stand in order
      from p on. */
  ghost predicate Added(was: seq<DirEntry>, slots: seq<DirEntry>, p: nat, now: seq<DirEntry>) {
    |was| <= |now| && p + |slots| <= |now| && now == Splice(was + Zeros(|now| - |was|), p, slots)
  }

  /** Adding overwrites free entries only, so deleting what was added leaves what was there
      before, and free entries. */
  lemma AddThenRemove(was: seq<DirEntry>, slots: seq<DirEntry>, now: seq<DirEntry>)
    requires |slots| >= 1 && Search(was, |slots|, 0).Room? && Added(was, slots, Search(was, |slots|, 0).pos, now)
    ensures Untouched(was + Zeros(|now| - |was|), Marked(now, Search(was, |slots|, 0).pos, |slots|))
  {
    var room := Search(was, |slots|, 0);
    SearchIsRight(was, |slots|, 0);
    UndoAdd(was, slots, room.pos, room.free, now);
  }

  lemma UndoAdd(was: seq<DirEntry>, slots: seq<DirEntry>, p: nat, f: nat, now: seq<DirEntry>)
    requires FreeRun(was, p, f) && (f == |slots| || p + f == |was|) && Added(was, slots, p, now)
    ensures Untouched(was + Zeros(|now| - |was|), Marked(now, p, |slots|))
  {
    var s := was + Zeros(|now| - |was|);
    RunOnZeros(was, p, f, |slots|, |now| - |was|);
    UndoFill(s, p, slots);
  }

  lemma RunOnZeros(s: seq<DirEntry>, p: nat, f: nat, n: nat, z: nat)
    requires FreeRun(s, p, f) && (f == n || p + f == |s|) && p + n <= |s| + z
    ensures FreeRun(s + Zeros(z), p, n)
  {
    forall k | p <= k < p + n
      ensures IsFree((s + Zeros(z))[k])
    {
    }
  }

  /** Entries in use stay where they are. */
  ghost predicate KeepsUsed(was: seq<DirEntry>, now: seq<DirEntry>) {
    |was| <= |now| && forall k :: 0 <= k < |was| && !IsFree(was[k]) ==> now[k] == was[k]
  }

  lemma AddedKeeps(was: seq<DirEntry>, slots: seq<DirEntry>, now: seq<DirEntry>)
    requires |slots| >= 1 && Search(was, |slots|, 0).Room? && Added(was, slots, Search(was, |slots|, 0).pos, now)
    ensures KeepsUsed(was, now)
  {
    SearchIsRight(was, |slots|, 0);
    PutKeeps(was, slots, Search(was, |slots|, 0).pos, Search(was, |slots|, 0).free, now);
  }

  lemma PutKeeps(was: seq<DirEntry>, slots: seq<DirEntry>, p: nat, f: nat, now: seq<DirEntry>)
    requires FreeRun(was, p, f) && (f == |slots| || p + f == |was|) && Added(was, slots, p, now)
    ensures KeepsUsed(was, now)
  {
  }

  lemma SpliceBehind(was: seq<DirEntry>, pos: nat, slots: seq<DirEntry>, free: nat, z: nat)
    requires free <= |slots| && pos + free == |was|
    ensures Splice(was, pos, slots[..free]) + (slots[free..] + Zeros(z)) == Splice(was + Zeros(|slots| - free + z), pos, slots)
  {
  }

  /** Marking what was filled in deleted again. */
  lemma UndoFill(was: seq<DirEntry>, pos: nat, src: seq<DirEntry>)
    requires FreeRun(was, pos, |src|)
    ensures Untouched(was, Marked(Splice(was, pos, src), pos, |src|))
  {
  }
}
