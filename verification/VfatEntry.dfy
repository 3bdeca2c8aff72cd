/** vfat_add_entry from the Unicode name on: an alias is found, the slots are built, a place
    for them is found or made, and they are there to be parsed afterwards. */
module VfatEntries {
  import opened Chains
  import opened DirSearch
  import opened Directories
  import opened Logs
  import opened LongNames
  import opened Machine
  import Mapping
  import opened Packing
  import opened ShortNames
  import opened ShowNames
  import Timestamps

  const ATTR_DIR := 16
  const ATTR_ARCH := 32

  predicate BadChar(w: word) {
    w < 0x20 || w == 0x2A || w == 0x3F || w == 0x3C || w == 0x3E || w == 0x7C || w == 0x22 || w == 0x3A || w == 0x2F || w == 0x5C
  }

  /** Control characters, and nine others. */
  lemma BadChars(w: word)
    requires w < 0xD800
    ensures BadChar(w) <==> w as char < ' ' || w as char in "*?<>|\":/\\"
  {
  }

  /** vfat_is_used_badchars. */
  predicate BadName(name: seq<word>)
    requires name != []
  {
    (exists i :: 0 <= i < |name| && BadChar(name[i])) || name[|name| - 1] == 0x20
  }

  method UsesBadChars(name: seq<word>) returns (err: int)
    requires name != []
    ensures err == if BadName(name) then EINVAL else 0
  {
    for i := 0 to |name|
      invariant forall k :: 0 <= k < i ==> !BadChar(name[k])
    {
      if BadChar(name[i]) {
        return EINVAL;
      }
    }
    err := if name[|name| - 1] == 0x20 then EINVAL else 0;
  }

  // ----- the 8.3 entry

  /** A character set in which no printable character has a NUL byte. */
  ghost predicate NoNul(nls: Nls) {
    forall w: word {:trigger MapChar(nls, w)} :: w >= 0x20 ==> 0 !in MapChar(nls, w)
  }

  type dword = x: int | 0 <= x < U32

  /** What the caller says of the new entry. */
  datatype Made = Made(isDir: bool, cluster: dword, at: Timestamps.UnixTime, minutesWest: int)

  function Low(v: nat): byte { v % 0x100 }

  function High(v: nat): byte { v / 0x100 % 0x100 }

  /** Name, attributes, case bits, the three dates with their times, and the first cluster. */
  function ShortEntry(name: seq<byte>, isDir: bool, lcase: byte, time: word, date: word, cs: byte, cluster: dword): (e: DirEntry)
    requires |name| == 11 && MayStart(name)
    ensures IsShortEntry(e) && e[..11] == name
  {
    name + [if isDir then ATTR_DIR else ATTR_ARCH, lcase, cs, Low(time), High(time), Low(date), High(date), Low(date), High(date),
            Low(cluster / 0x1_0000), High(cluster / 0x1_0000), Low(time), High(time), Low(date), High(date),
            Low(cluster), High(cluster), 0, 0, 0, 0]
  }

  // ----- the 8.3 entry read back

  function WordAt(e: DirEntry, k: nat): word
    requires k + 1 < 32
  {
    var lo: int, hi: int := e[k], e[k + 1];
    lo + 0x100 * hi
  }

  function StartOf(e: DirEntry): nat { WordAt(e, 26) + 0x1_0000 * WordAt(e, 20) }

  function SizeOf(e: DirEntry): nat { WordAt(e, 28) + 0x1_0000 * WordAt(e, 30) }

  function Created(e: DirEntry): Timestamps.Stamp { Timestamps.Stamp(WordAt(e, 16), WordAt(e, 14), e[13]) }

  function Written(e: DirEntry): Timestamps.Stamp { Timestamps.Stamp(WordAt(e, 24), WordAt(e, 22), 0) }

  /** An empty file or directory of that first cluster, created, written and read just then. */
  ghost predicate Describes(e: DirEntry, m: Made) {
    && Attr(e) == (if m.isDir then ATTR_DIR else ATTR_ARCH)
    && StartOf(e) == m.cluster && SizeOf(e) == 0
    && Created(e) == Timestamps.Unix2Fat(m.at, m.minutesWest)
    && Written(e) == Created(e).(cs := 0) && WordAt(e, 18) == Created(e).date
  }

  lemma WordOf(e: DirEntry, k: nat, v: nat)
    requires k + 1 < 32 && e[k] == Low(v) && e[k + 1] == High(v)
    ensures WordAt(e, k) == v % 0x1_0000
  {
    assert v / 0x100 / 0x100 == v / 0x1_0000;
  }

  lemma ReadShortEntry(name: seq<byte>, isDir: bool, lcase: byte, time: word, date: word, cs: byte, cluster: dword)
    requires |name| == 11 && MayStart(name)
    ensures var e := ShortEntry(name, isDir, lcase, time, date, cs, cluster);
      && Attr(e) == (if isDir then ATTR_DIR else ATTR_ARCH) && e[12] == lcase
      && StartOf(e) == cluster && SizeOf(e) == 0
      && Created(e) == Timestamps.Stamp(date, time, cs) && Written(e) == Timestamps.Stamp(date, time, 0) && WordAt(e, 18) == date
  {
    var e := ShortEntry(name, isDir, lcase, time, date, cs, cluster);
    WordOf(e, 14, time);
    WordOf(e, 22, time);
    WordOf(e, 16, date);
    WordOf(e, 18, date);
    WordOf(e, 24, date);
    WordOf(e, 26, cluster);
    WordOf(e, 20, cluster / 0x1_0000);
    Halves(cluster);
  }

  lemma Halves(v: dword)
    ensures v % 0x1_0000 + 0x1_0000 * (v / 0x1_0000 % 0x1_0000) == v
  {
    assert v / 0x1_0000 < 0x1_0000;
  }

  /** Stamps that stand for that time to 10 ms, and to two seconds. */
  ghost predicate StandFor(fine: Timestamps.Stamp, coarse: Timestamps.Stamp, ts: Timestamps.UnixTime, minutesWest: int) {
    && Timestamps.ValidStamp(fine) && Timestamps.ValidStamp(coarse)
    && Timestamps.Fat2Unix(fine, minutesWest) == Timestamps.UnixTime(ts.sec, ts.nsec - ts.nsec % 10000000)
    && Timestamps.Fat2Unix(coarse, minutesWest) == Timestamps.UnixTime(ts.sec - ts.sec % 2, 0)
  }

  lemma StampsStand(fine: Timestamps.Stamp, ts: Timestamps.UnixTime, minutesWest: int)
    requires fine == Timestamps.Unix2Fat(ts, minutesWest) && Timestamps.InRange(ts, minutesWest)
    ensures StandFor(fine, fine.(cs := 0), ts, minutesWest)
  {
    Timestamps.UnixRoundTrip(ts, minutesWest);
  }

  /** Read back, the time of the entry is the one that was given. */
  lemma DescribesMeans(e: DirEntry, m: Made)
    requires Describes(e, m) && Timestamps.InRange(m.at, m.minutesWest)
    ensures StandFor(Created(e), Written(e), m.at, m.minutesWest)
  {
    StampsStand(Created(e), m.at, m.minutesWest);
  }

  lemma {:induction false} NoNulIn(nls: Nls, s: seq<word>)
    requires NoNul(nls) && forall i :: 0 <= i < |s| ==> s[i] >= 0x20
    ensures 0 !in MapAll(nls, s)
  {
    if s != [] {
      NoNulIn(nls, s[..|s| - 1]);
      assert 0 !in MapChar(nls, s[|s| - 1]);
    }
  }

  lemma PlainMayStart(nls: Nls, uname: seq<word>, p: Plan)
    requires NoNul(nls) && uname != [] && !BadName(uname) && IsPlan(nls, uname, p) && Base(nls, uname, p) != []
    ensures MayStart(Plain(nls, uname, p))
  {
    NoNulIn(nls, uname[..p.sz]);
    var b := ShortNames.Take(MapAll(nls, uname[..p.sz]), 8);
    assert b[0] == MapAll(nls, uname[..p.sz])[0];
    assert Plain(nls, uname, p)[0] == Escape(b)[0];
  }

  /** Whatever tail the alias got, it can start an entry. */
  lemma AliasMayStart(dir: seq<DirEntry>, plain: seq<byte>, n: nat, p: Plan, jiffies: int, name: seq<byte>)
    requires |plain| == 11 && n <= 8 && p.tail <= 6 && p.tail2 <= 2 && MayStart(plain)
    requires FirstFreeTail(dir, plain, n, p, jiffies, name)
    ensures |name| == 11 && MayStart(name)
  {
    if d :| 1 <= d <= 9 && name == WithDigit(plain, n, p.tail, d) {
      TailsMayStart(plain, n, p, d, 0);
    } else {
      var sz := jiffies / 65536 % 8;
      TailsMayStart(plain, n, p, 9, sz);
      var start, b := HexStart(plain, n, p.tail, p.tail2, sz), HexAt(n, p.tail, p.tail2);
      var k: nat :| name == Attempt(start, b, jiffies, k);
      assert name[0] == if b == 0 then Hex4((jiffies - 11 * k) % 65536)[0] else start[0];
    }
  }

  lemma NameMayStart(dir: seq<DirEntry>, nls: Nls, uname: seq<word>, p: Plan, numtail: bool, jiffies: int, name: seq<byte>)
    requires NoNul(nls) && uname != [] && !BadName(uname) && IsPlan(nls, uname, p) && Base(nls, uname, p) != []
    requires IsAlias(dir, nls, uname, p, numtail, jiffies, name)
    ensures |name| == 11 && MayStart(name)
  {
    PlainMayStart(nls, uname, p);
    if NeedsTail(dir, nls, uname, p, numtail) {
      AliasMayStart(dir, Plain(nls, uname, p), |Base(nls, uname, p)|, p, jiffies, name);
    }
  }

  // ----- the whole call

  /** All entries, as a scan from the start meets them. */
  method ReadAll(dir: Directory, ghost c: seq<int>) returns (s: seq<DirEntry>)
    requires dir.On(c)
    modifies dir.inode`cacheLru, dir.inode`nrCaches
    ensures dir.On(c) && s == dir.View(c)
  {
    s := [];
    var ok, cu := true, Cursor(0, -1, 0);
    ghost var all := dir.View(c);
    while ok
      invariant dir.On(c) && cu.pos == |s| <= |all| && s == all[..|s|] && (!ok ==> |s| == |all|)
      invariant ok && cu.bh >= 0 ==> cu.pos > 0 && Mapping.Place(dir.Map(), c, cu.bh, cu.de, cu.pos - 1)
      decreases |all| - |s|, ok
    {
      ok, cu := dir.GetEntry(cu, c);
      if ok {
        dir.EntryAt(c, cu.bh, cu.de, |s|);
        s := s + [dir.disk[cu.bh, cu.de]];
      }
    }
  }

  /** What vfat_build_slots returns in a directory that holds s. */
  ghost function SlotsError(s: seq<DirEntry>, nls: Nls, uname: seq<word>, p: Plan): int
    requires uname != [] && p.sz <= |uname| && -1 <= p.ext <= |uname|
  {
    if BadName(uname) || Base(nls, uname, p) == [] then EINVAL
    else if IsShortName(nls, uname, p) && Taken(s, Plain(nls, uname, p)) then EEXIST
    else 0
  }

  /** No long name is stored where alias and case bits say all. */
  ghost predicate ShortOnly(nls: Nls, uname: seq<word>, p: Plan, create: Create)
    requires p.sz <= |uname| && -1 <= p.ext <= |uname|
  {
    IsShortName(nls, uname, p) && CaseKept(create, NoteAll(nls, uname[..p.sz]), NoteAll(nls, ExtPart(uname, p)))
  }

  /** The case bits that are stored: those that stand in for a long name. */
  ghost function StoredBits(nls: Nls, uname: seq<word>, p: Plan, create: Create, long: bool): int
    requires p.sz <= |uname| && -1 <= p.ext <= |uname|
  {
    if !long && create == WinNT then CaseBits(NoteAll(nls, uname[..p.sz]), NoteAll(nls, ExtPart(uname, p))) else 0
  }

  /** The 8.3 entry for a name in a directory that holds s. */
  ghost predicate EntryFor(s: seq<DirEntry>, nls: Nls, uname: seq<word>, p: Plan, create: Create, numtail: bool, jiffies: int,
                           made: Made, long: bool, e: DirEntry)
    requires IsPlan(nls, uname, p)
  {
    && IsShortEntry(e) && !Taken(s, e[..11]) && IsAlias(s, nls, uname, p, numtail, jiffies, e[..11])
    && e[12] == StoredBits(nls, uname, p, create, long) && Describes(e, made)
  }

  /** A listing with a matching character set shows the entry as this very name. */
  ghost predicate ShowsAs(e: DirEntry, nls: Nls, uname: seq<word>, create: Create) {
    forall r: Reader, display: Display {:trigger Shown(r, e[..11], e[12], display)} ::
      Matching(nls, r) && NoControl(nls, uname) && display != DisplayLower && (create == WinNT ==> display == DisplayWinNT)
      ==> Shown(r, e[..11], e[12], display) == uname
  }

  /** So it is where no long name is stored. */
  lemma EntryShows(s: seq<DirEntry>, nls: Nls, uname: seq<word>, p: Plan, create: Create, numtail: bool, jiffies: int, made: Made,
                   e: DirEntry)
    requires IsPlan(nls, uname, p) && EntryFor(s, nls, uname, p, create, numtail, jiffies, made, false, e)
    requires ShortOnly(nls, uname, p, create) && Base(nls, uname, p) != []
    ensures e[..11] == Plain(nls, uname, p) && ShowsAs(e, nls, uname, create)
  {
    forall r: Reader, display: Display | Matching(nls, r) && NoControl(nls, uname) && display != DisplayLower && (create == WinNT ==> display == DisplayWinNT)
      ensures Shown(r, e[..11], e[12], display) == uname
    {
      AliasShowsName(nls, r, uname, p, create, display, e[12]);
    }
  }

  /** How many entries a name takes, with or without slots for its long form. */
  function SlotCount(uname: seq<word>, long: bool): nat { if long then (|uname| + 12) / 13 + 1 else 1 }

  predicate Timespec(m: Made) { 0 <= m.at.nsec < 1000000000 }

  lemma StampFits(m: Made)
    requires Timespec(m)
    ensures var s := Timestamps.Unix2Fat(m.at, m.minutesWest); 0 <= s.date < 0x1_0000 && 0 <= s.time < 0x1_0000 && 0 <= s.cs < 0x100
  {
    if Timestamps.InRange(m.at, m.minutesWest) {
      Timestamps.UnixRoundTrip(m.at, m.minutesWest);
    }
  }

  /** The end of vfat_build_slots: the 8.3 entry. */
  method MakeEntry(name: seq<byte>, lcase: byte, made: Made) returns (e: DirEntry)
    requires |name| == 11 && MayStart(name) && Timespec(made)
    ensures IsShortEntry(e) && e[..11] == name && e[12] == lcase && Describes(e, made)
  {
    StampFits(made);
    var stamp := Timestamps.TimeUnix2Fat(made.at, made.minutesWest);
    ReadShortEntry(name, made.isDir, lcase, stamp.time, stamp.date, stamp.cs, made.cluster);
    e := ShortEntry(name, made.isDir, lcase, stamp.time, stamp.date, stamp.cs, made.cluster);
  }

  /** vfat_build_slots: the slots of the long name, if one is needed, and the 8.3 entry, whose
      name no entry has yet. */
  method BuildAll(s: seq<DirEntry>, nls: Nls, uname: seq<word>, create: Create, numtail: bool, jiffies: int, made: Made)
    returns (err: int, slots: seq<DirEntry>, e: DirEntry, ghost p: Plan, ghost long: bool)
    requires Timespec(made) && NoNul(nls) && 1 <= |uname| <= 255 && HasTail(s, nls, uname, numtail, jiffies)
    ensures err == 0 ==> slots != [] && slots[|slots| - 1] == e && IsShortEntry(e) && !Taken(s, e[..11])
    ensures !BadName(uname) ==> IsPlan(nls, uname, p)
    ensures err == if BadName(uname) then EINVAL else SlotsError(s, nls, uname, p)
    ensures err == 0 ==> 1 <= |slots| == SlotCount(uname, long) <= MSDOS_SLOTS && (long <==> !ShortOnly(nls, uname, p, create))
    ensures err == 0 && long ==> BuiltFor(slots, uname)
    ensures err == 0 ==> EntryFor(s, nls, uname, p, create, numtail, jiffies, made, long, e)
    ensures err == 0 && !long ==> e[..11] == Plain(nls, uname, p) && ShowsAs(e, nls, uname, create)
  {
    slots, e, p, long := [], Zeros(1)[0], Plan(0, -1, 0, 0), false;
    err := UsesBadChars(uname);
    if err != 0 {
      return;
    }
    var name, lcase;
    err, name, lcase, p := CreateShortname(s, nls, uname, create, numtail, jiffies);
    if err < 0 {
      return;
    }
    NameMayStart(s, nls, uname, p, numtail, jiffies, name);
    var de := MakeEntry(name, lcase, made);
    e, long := de, err != 1;
    if err == 1 {
      err, slots := 0, [de];
      EntryShows(s, nls, uname, p, create, numtail, jiffies, made, de);
    } else {
      slots := BuildEntry(uname, de);
    }
  }

  /** The same for a directory that holds s. */
  method BuildSlotsIn(dir: Directory, nls: Nls, uname: seq<word>, create: Create, numtail: bool, jiffies: int, made: Made,
                      ghost c: seq<int>, ghost s: seq<DirEntry>)
    returns (err: int, slots: seq<DirEntry>, e: DirEntry, ghost p: Plan, ghost long: bool)
    requires dir.On(c) && s == dir.View(c) && Timespec(made)
    requires NoNul(nls) && 1 <= |uname| <= 255 && HasTail(s, nls, uname, numtail, jiffies)
    modifies dir.inode`cacheLru, dir.inode`nrCaches
    ensures dir.On(c)
    ensures err == 0 ==> slots != [] && slots[|slots| - 1] == e && IsShortEntry(e) && !Taken(s, e[..11])
    ensures !BadName(uname) ==> IsPlan(nls, uname, p)
    ensures err == if BadName(uname) then EINVAL else SlotsError(s, nls, uname, p)
    ensures err == 0 ==> 1 <= |slots| == SlotCount(uname, long) <= MSDOS_SLOTS && (long <==> !ShortOnly(nls, uname, p, create))
    ensures err == 0 && long ==> BuiltFor(slots, uname)
    ensures err == 0 ==> EntryFor(s, nls, uname, p, create, numtail, jiffies, made, long, e)
    ensures err == 0 && !long ==> e[..11] == Plain(nls, uname, p) && ShowsAs(e, nls, uname, create)
  {
    var all := ReadAll(dir, c);
    err, slots, e, p, long := BuildAll(all, nls, uname, create, numtail, jiffies, made);
  }

  /** vfat_add_entry. It fails for the name's sake or for want of room, and then all entries
      in use are as they were. Otherwise the slots built for the name stand in free places or
      in new clusters, the 8.3 entry last, and no entry had that entry's name before. */
  method AddEntry(dir: Directory, nls: Nls, uname: seq<word>, create: Create, numtail: bool, jiffies: int, made: Made,
                  ghost c: seq<int>, ghost was: seq<DirEntry>)
    returns (err: int, slotOff: nat, slots: seq<DirEntry>, e: DirEntry, ghost p: Plan, ghost long: bool,
             ghost cs: seq<int>, ghost now: seq<DirEntry>)
    requires dir.On(c) && was == dir.View(c) && dir.inode.vol.pending == [] && NoNul(nls) && 1 <= |uname| <= 255
    requires HasTail(was, nls, uname, numtail, jiffies) && Timespec(made)
    modifies dir.inode`iStart, dir.inode`iSize, dir.inode`iBlocks, dir.inode`mmuPrivate, dir.inode`cacheLru, dir.inode`nrCaches
    modifies dir.inode.vol, dir.inode.vol.dev, dir.inode.vol.dev.data, dir.disk, dir`views
    ensures dir.On(c + cs) && dir.inode.vol.pending == [] && now == dir.View(c + cs)
    ensures LogGrows(old(dir.inode.vol.trace), dir.inode.vol.trace, old(dir.inode.vol.live), {dir.inode.ino})
    ensures !BadName(uname) ==> IsPlan(nls, uname, p)
    ensures err == if BadName(uname) then EINVAL
      else if SlotsError(was, nls, uname, p) != 0 then SlotsError(was, nls, uname, p)
      else dir.AddError(c, was, SlotCount(uname, long), FreeCount(old(dir.inode.vol.dev.ents)))
    ensures !BadName(uname) && SlotsError(was, nls, uname, p) == 0 ==> (long <==> !ShortOnly(nls, uname, p, create))
    ensures err != 0 ==> Untouched(was, now)
    ensures err == 0 ==> |slots| == SlotCount(uname, long) && slots[|slots| - 1] == e && IsShortEntry(e) && !Taken(was, e[..11])
    ensures err == 0 ==> Search(was, |slots|, 0).Room? && slotOff == Search(was, |slots|, 0).pos && Added(was, slots, slotOff, now)
    ensures err == 0 && long ==> BuiltFor(slots, uname)
    ensures err == 0 ==> EntryFor(was, nls, uname, p, create, numtail, jiffies, made, long, e)
    ensures err == 0 && !long ==> e[..11] == Plain(nls, uname, p) && ShowsAs(e, nls, uname, create)
  {
    err, slots, e, p, long := BuildSlotsIn(dir, nls, uname, create, numtail, jiffies, made, c, was);
    slotOff, cs, now := 0, [], was;
    assert c + [] == c;
    if err != 0 {
      return;
    }
    var bh, de;
    err, slotOff, bh, de, cs := dir.AddEntries(slots, c);
    now := dir.View(c + cs);
  }

  /** So no entry in use has changed, there is one more 8.3 entry, and the long name, if it was
      stored, can be parsed from where it was put. */
  lemma AddedMeans(was: seq<DirEntry>, slots: seq<DirEntry>, now: seq<DirEntry>, name: seq<word>, long: bool)
    requires slots != [] && Search(was, |slots|, 0).Room? && Added(was, slots, Search(was, |slots|, 0).pos, now)
    requires long ==> BuiltFor(slots, name)
    ensures var p := Search(was, |slots|, 0).pos;
      && KeepsUsed(was, now) && p + |slots| <= |now| && now[p + |slots| - 1] == slots[|slots| - 1]
      && (long ==> HoldsName(now, p, name))
  {
    var p := Search(was, |slots|, 0).pos;
    AddedKeeps(was, slots, now);
    AddedLast(was, slots, p, now);
    if long {
      AddedHolds(was, slots, p, now, name);
    }
  }

  lemma AddedLast(was: seq<DirEntry>, slots: seq<DirEntry>, p: nat, now: seq<DirEntry>)
    requires slots != [] && Added(was, slots, p, now)
    ensures p + |slots| <= |now| && now[p + |slots| - 1] == slots[|slots| - 1]
  {
  }

  lemma AddedHolds(was: seq<DirEntry>, slots: seq<DirEntry>, p: nat, now: seq<DirEntry>, name: seq<word>)
    requires BuiltFor(slots, name) && Added(was, slots, p, now)
    ensures HoldsName(now, p, name)
  {
    var s := was + Zeros(|now| - |was|);
    var before, after := s[..p], s[p + |slots|..];
    assert HoldsName(before + slots + after, |before|, name);
    SameHolds(before + slots + after, |before|, now, p, name);
  }

  lemma SameHolds(s: seq<DirEntry>, p: nat, s': seq<DirEntry>, p': nat, name: seq<word>)
    requires s == s' && p == p' && HoldsName(s, p, name)
    ensures HoldsName(s', p', name)
  {
  }
}
