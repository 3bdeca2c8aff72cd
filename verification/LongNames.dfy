/** Long file names in directory slots: padding (xlate_to_uni), slot building
    (vfat_build_slots) and parsing (fat_parse_long). */
module LongNames {
  import opened Packing

  type word = x: int | 0 <= x < 0x1_0000

  /** A 32-byte directory record; the same bytes are read as a long-name slot or as an
      8.3 entry. */
  type DirEntry = b: seq<byte> | |b| == 32 witness seq(32, _ => 0)

  const ATTR_EXT := 0x0F
  const DELETED_FLAG := 0xE5
  const FAT_MAX_UNI_CHARS := 261

  function Id(e: DirEntry): byte { e[0] }
  function Attr(e: DirEntry): byte { e[11] }
  function AliasChecksum(e: DirEntry): byte { e[13] }

  predicate LastFlag(id: byte) { id / 0x40 % 2 == 1 }
  function SlotNumber(id: byte): byte { if LastFlag(id) then id - 0x40 else id }
  predicate IsFree(e: DirEntry) { e[0] == 0 || e[0] == DELETED_FLAG }
  predicate IsVolume(e: DirEntry) { Attr(e) / 8 % 2 == 1 }

  /** Byte offset of the i-th of the 13 characters of a slot: name0_4, name5_10, name11_12. */
  function CharOffset(i: nat): nat
    requires i < 13
  {
    if i < 5 then 1 + 2 * i else if i < 11 then 14 + 2 * (i - 5) else 28 + 2 * (i - 11)
  }

  function SlotChar(e: DirEntry, i: nat): word
    requires i < 13
  {
    var lo: int, hi: int := e[CharOffset(i)], e[CharOffset(i) + 1];
    lo + 0x100 * hi
  }

  function SlotChars(e: DirEntry): (r: seq<word>)
    ensures |r| == 13
  {
    seq(13, i requires 0 <= i < 13 => SlotChar(e, i))
  }

  /** The 13 characters stand in increasing order and fill all of the slot but the id, the
      attributes, the type, the checksum and the cluster field. */
  lemma CharsFillSlot()
    ensures forall i, j :: 0 <= i < j < 13 ==> CharOffset(i) + 1 < CharOffset(j)
    ensures forall k :: 0 <= k < 32 ==>
      ((exists i :: 0 <= i < 13 && CharOffset(i) <= k <= CharOffset(i) + 1) <==> k !in [0, 11, 12, 13, 26, 27])
  {
    forall k | 0 <= k < 32
      ensures (exists i :: 0 <= i < 13 && CharOffset(i) <= k <= CharOffset(i) + 1) <==> k !in [0, 11, 12, 13, 26, 27]
    {
      var i := if k < 11 then (k - 1) / 2 else if k < 26 then 5 + (k - 14) / 2 else 11 + (k - 28) / 2;
      assert k !in [0, 11, 12, 13, 26, 27] ==> 0 <= i < 13 && CharOffset(i) <= k <= CharOffset(i) + 1;
    }
  }

  /** The eight bits moved to the right by one place, the lowest to the top. */
  function RotateRight(s: byte): (r: byte)
    ensures r / 0x80 == s % 2 && r % 0x80 == s / 2
  {
    s % 2 * 0x80 + s / 2
  }

  lemma NextSumsDiffer(s: byte, t: byte, b: byte)
    requires s != t
    ensures (s + b) % 256 != (t + b) % 256
  {
    assert (s + b) % 256 == if s + b < 256 then s + b else s + b - 256;
    assert (t + b) % 256 == if t + b < 256 then t + b else t + b - 256;
  }

  /** fat_checksum: rotate right and add, over the eleven name bytes. */
  function ChecksumFrom(s: byte, name: seq<byte>): byte
    decreases |name|
  {
    if name == [] then s else ChecksumFrom((RotateRight(s) + name[0]) % 256, name[1..])
  }

  lemma {:induction false} ChecksumOneToOne(s: byte, t: byte, name: seq<byte>)
    requires s != t
    ensures ChecksumFrom(s, name) != ChecksumFrom(t, name)
    decreases |name|
  {
    if name != [] {
      NextSumsDiffer(RotateRight(s), RotateRight(t), name[0]);
      ChecksumOneToOne((RotateRight(s) + name[0]) % 256, (RotateRight(t) + name[0]) % 256, name[1..]);
    }
  }

  /** One changed byte always changes the checksum. */
  lemma {:induction false} ChecksumTells(s: byte, name: seq<byte>, i: nat, b: byte)
    requires i < |name| && name[i] != b
    ensures ChecksumFrom(s, name) != ChecksumFrom(s, name[i := b])
    decreases |name|
  {
    var s' := (RotateRight(s) + name[0]) % 256;
    if i > 0 {
      ChecksumTells(s', name[1..], i - 1, b);
      assert name[i := b][1..] == name[1..][i - 1 := b];
    } else {
      NextSumsDiffer(name[0], b, RotateRight(s));
      ChecksumOneToOne(s', (RotateRight(s) + b) % 256, name[1..]);
      assert name[i := b][1..] == name[1..];
    }
  }

  function FatChecksum(e: DirEntry): byte { ChecksumFrom(e[0], e[1..11]) }

  /** So slots cannot be taken for those of an alias that differs in one byte. */
  lemma ChecksumTellsAlias(e: DirEntry, i: nat, b: byte)
    requires i < 11 && e[i] != b
    ensures FatChecksum(e) != FatChecksum(e[i := b])
  {
    if i == 0 {
      ChecksumOneToOne(e[0], b, e[1..11]);
      assert e[0 := b][1..11] == e[1..11];
    } else {
      ChecksumTells(e[0], e[1..11], i - 1, b);
      assert e[i := b][1..11] == e[1..11][i - 1 := b];
    }
  }

  // ----- writing

  /** The name as it is stored: a NUL and 0xFFFF fill up the last slot, unless it is full. */
  function Padded(name: seq<word>): (r: seq<word>)
    ensures |r| % 13 == 0 && name <= r && |r| < |name| + 13
  {
    if |name| % 13 == 0 then name
    else
      var fill := 12 - |name| % 13;
      var r := name + [0] + seq(fill, _ => 0xFFFF);
      assert |r| == 13 * (|name| / 13 + 1);
      r
  }

  /** The padding loop of xlate_to_uni. */
  method PadName(name: seq<word>) returns (r: seq<word>)
    ensures r == Padded(name) && name <= r && |r| % 13 == 0 && |r| < |name| + 13
    ensures |name| < |r| ==> r[|name|] == 0
    ensures forall k :: |name| < k < |r| ==> r[k] == 0xFFFF
  {
    r := name;
    var outlen := |name|;
    if outlen % 13 != 0 {
      r := r + [0];
      outlen := outlen + 1;
      if outlen % 13 != 0 {
        var fill := 13 - outlen % 13;
        for i := 0 to fill
          invariant r == name + [0] + seq(i, _ => 0xFFFF)
        {
          r := r + [0xFFFF];
        }
      }
    }
  }

  predicate IsSlotOf(e: DirEntry, id: byte, chars: seq<word>, cksum: byte)
    requires |chars| == 13
  {
    Id(e) == id && Attr(e) == ATTR_EXT && AliasChecksum(e) == cksum && SlotChars(e) == chars
  }

  /** The type and the cluster field. */
  predicate RestZero(e: DirEntry) { e[12] == 0 && e[26] == 0 && e[27] == 0 }

  function SlotByte(id: byte, chars: seq<word>, cksum: byte, k: nat): byte
    requires |chars| == 13 && k < 32
  {
    if k == 0 then id
    else if k <= 10 then (if k % 2 == 1 then chars[(k - 1) / 2] % 0x100 else chars[(k - 1) / 2] / 0x100)
    else if k == 11 then ATTR_EXT
    else if k == 12 || k == 26 || k == 27 then 0
    else if k == 13 then cksum
    else if k <= 25 then (if k % 2 == 0 then chars[5 + (k - 14) / 2] % 0x100 else chars[5 + (k - 14) / 2] / 0x100)
    else (if k % 2 == 0 then chars[11 + (k - 28) / 2] % 0x100 else chars[11 + (k - 28) / 2] / 0x100)
  }

  function MakeSlot(id: byte, chars: seq<word>, cksum: byte): DirEntry
    requires |chars| == 13
  {
    seq(32, k requires 0 <= k < 32 => SlotByte(id, chars, cksum, k))
  }

  lemma MakeSlotRight(id: byte, chars: seq<word>, cksum: byte)
    requires |chars| == 13
    ensures IsSlotOf(MakeSlot(id, chars, cksum), id, chars, cksum) && RestZero(MakeSlot(id, chars, cksum))
  {
    var e := MakeSlot(id, chars, cksum);
    forall i | 0 <= i < 13
      ensures SlotChar(e, i) == chars[i]
    {
      var k := CharOffset(i);
      assert e[k] == SlotByte(id, chars, cksum, k) && e[k + 1] == SlotByte(id, chars, cksum, k + 1);
    }
    assert SlotChars(e) == chars;
  }

  /** The 13 characters of part number `number`. */
  function PartOf(chars: seq<word>, number: nat): (r: seq<word>)
    requires 1 <= number && 13 * number <= |chars|
    ensures |r| == 13
  {
    chars[13 * (number - 1)..13 * number]
  }

  lemma PartChar(chars: seq<word>, p: nat)
    requires p < |chars| && |chars| % 13 == 0
    ensures 13 * (p / 13 + 1) <= |chars| && PartOf(chars, p / 13 + 1)[p % 13] == chars[p]
  {
  }

  /** Part number `number` of a long name of n parts. */
  ghost predicate IsPart(e: DirEntry, number: nat, n: nat, chars: seq<word>, cksum: byte)
    requires |chars| == 13 * n && 1 <= number <= n
  {
    && SlotNumber(Id(e)) == number && AliasChecksum(e) == cksum
    && SlotChars(e) == PartOf(chars, number)
    && (number == n ==> LastFlag(Id(e)))
    && (number < n ==> Attr(e) == ATTR_EXT)
  }

  /** n slots from index `at` on hold n * 13 characters, last part first. */
  ghost predicate RunAt(dir: seq<DirEntry>, at: nat, n: nat, chars: seq<word>, cksum: byte)
    requires |chars| == 13 * n
  {
    && 1 <= n <= 20 && at + n <= |dir|
    && forall k :: at <= k < at + n ==> IsPart(dir[k], n - (k - at), n, chars, cksum)
  }

  /** The slot loop of vfat_build_slots. */
  method BuildParts(padded: seq<word>, cksum: byte) returns (slots: seq<DirEntry>)
    requires |padded| % 13 == 0 && 0 < |padded| <= 260
    ensures |slots| == |padded| / 13
    ensures forall k :: 0 <= k < |slots| ==> slots[k] == MakeSlot(|slots| - k, PartOf(padded, |slots| - k), cksum)
  {
    var n := |padded| / 13;
    slots := [];
    var i := n;
    while i > 0
      invariant 0 <= i <= n && |slots| == n - i
      invariant forall k :: 0 <= k < |slots| ==> slots[k] == MakeSlot(n - k, PartOf(padded, n - k), cksum)
    {
      var offset := (i - 1) * 13;
      var chars := padded[offset..offset + 13];
      assert chars == PartOf(padded, i);
      slots := slots + [MakeSlot(i, chars, cksum)];
      i := i - 1;
    }
  }

  /** The slots, the first of them with the flag bit. */
  method BuildSlots(padded: seq<word>, cksum: byte) returns (slots: seq<DirEntry>)
    requires |padded| % 13 == 0 && 0 < |padded| <= 260
    ensures |slots| == |padded| / 13
    ensures RunAt(slots, 0, |slots|, padded, cksum)
    ensures forall k :: 0 <= k < |slots| ==> Attr(slots[k]) == ATTR_EXT && (LastFlag(Id(slots[k])) <==> k == 0) && RestZero(slots[k])
  {
    var parts := BuildParts(padded, cksum);
    FirstPart(parts[0], |parts|, padded, cksum);
    slots := parts[0 := parts[0][0 := parts[0][0] + 0x40]];
    FlaggedRun(parts, slots, padded, cksum);
  }

  /** One of the slots: its part, and the flag bit on the first only. */
  ghost predicate SlotRight(e: DirEntry, k: nat, n: nat, chars: seq<word>, cksum: byte)
    requires |chars| == 13 * n && k < n
  {
    IsPart(e, n - k, n, chars, cksum) && Attr(e) == ATTR_EXT && (LastFlag(Id(e)) <==> k == 0) && RestZero(e)
  }

  lemma FlaggedRun(parts: seq<DirEntry>, slots: seq<DirEntry>, chars: seq<word>, cksum: byte)
    requires 1 <= |parts| == |slots| <= 20 && |chars| == 13 * |parts|
    requires forall k :: 0 < k < |parts| ==> parts[k] == MakeSlot(|parts| - k, PartOf(chars, |parts| - k), cksum)
    requires SlotRight(slots[0], 0, |parts|, chars, cksum) && forall k :: 0 < k < |parts| ==> slots[k] == parts[k]
    ensures RunAt(slots, 0, |slots|, chars, cksum)
    ensures forall k :: 0 <= k < |slots| ==> Attr(slots[k]) == ATTR_EXT && (LastFlag(Id(slots[k])) <==> k == 0) && RestZero(slots[k])
  {
    forall k | 0 <= k < |slots|
      ensures SlotRight(slots[k], k, |slots|, chars, cksum)
    {
      if k > 0 {
        LaterPart(parts[k], |parts| - k, |parts|, chars, cksum);
      }
    }
  }

  lemma LaterPart(e: DirEntry, number: nat, n: nat, chars: seq<word>, cksum: byte)
    requires |chars| == 13 * n && 1 <= number < n <= 20 && e == MakeSlot(number, PartOf(chars, number), cksum)
    ensures IsPart(e, number, n, chars, cksum) && Attr(e) == ATTR_EXT && !LastFlag(Id(e)) && RestZero(e)
  {
    MakeSlotRight(number, PartOf(chars, number), cksum);
  }

  lemma FirstPart(e: DirEntry, n: nat, chars: seq<word>, cksum: byte)
    requires |chars| == 13 * n && 1 <= n <= 20 && e == MakeSlot(n, PartOf(chars, n), cksum)
    ensures e[0] == n && var f: DirEntry := e[0 := n + 0x40]; IsPart(f, n, n, chars, cksum) && Attr(f) == ATTR_EXT && LastFlag(Id(f)) && RestZero(f)
  {
    MakeSlotRight(n, PartOf(chars, n), cksum);
    FlagFirst(e, n, PartOf(chars, n), cksum);
  }

  /** Setting bit 0x40 of the id changes nothing else. */
  lemma FlagFirst(e: DirEntry, n: nat, chars: seq<word>, cksum: byte)
    requires |chars| == 13 && 1 <= n <= 20 && IsSlotOf(e, n, chars, cksum)
    ensures IsSlotOf(e[0 := n + 0x40], n + 0x40, chars, cksum)
  {
    var f: DirEntry := e[0 := n + 0x40];
    forall i | 0 <= i < 13
      ensures SlotChar(f, i) == SlotChar(e, i)
    {
    }
    assert SlotChars(f) == SlotChars(e);
  }

  // ----- reading

  const PARSE_OK := 0
  const PARSE_INVALID := 1
  const PARSE_NOT_LONGNAME := 2
  const PARSE_EOF := 3
  const RESTART := 4 // goto parse_long

  /** Entry k continues the run that started at `at` with n parts. */
  predicate Continues(dir: seq<DirEntry>, at: nat, k: nat)
    requires at < k < |dir|
  {
    && Attr(dir[k]) == ATTR_EXT
    && SlotNumber(Id(dir[k])) == SlotNumber(Id(dir[at])) - (k - at)
    && AliasChecksum(dir[k]) == AliasChecksum(dir[at])
  }

  /** A complete run of slots starts at `at` and is followed by a usable 8.3 entry. */
  predicate AcceptsAt(dir: seq<DirEntry>, at: nat)
    requires at < |dir|
  {
    var n := SlotNumber(Id(dir[at]));
    && LastFlag(Id(dir[at])) && 1 <= n <= 20 && at + n < |dir|
    && (forall k :: at < k < at + n ==> Continues(dir, at, k))
    && Attr(dir[at + n]) != ATTR_EXT && !IsFree(dir[at + n]) && !IsVolume(dir[at + n])
  }

  /** How the slot loop of fat_parse_long ends that has copied slots at .. at + k of a run of
      n parts, and at which entry: at the end of the directory, behind the whole run, on an
      entry that is no slot, or on a slot that does not continue the run. */
  function CopyEnd(dir: seq<DirEntry>, at: nat, n: nat, k: nat): (r: (int, nat))
    requires k < n && at + k < |dir|
    ensures PARSE_OK <= r.0 <= RESTART && r.0 != PARSE_INVALID && at + k <= r.1 < |dir|
    ensures r.0 == RESTART || r.0 == PARSE_OK ==> at < r.1
    decreases n - k
  {
    var cur := at + k + 1;
    if cur >= |dir| then (PARSE_EOF, at + k)
    else if k + 1 == n then (PARSE_OK, cur)
    else if Attr(dir[cur]) != ATTR_EXT then (PARSE_NOT_LONGNAME, cur)
    else if !Continues(dir, at, cur) then (RESTART, cur)
    else CopyEnd(dir, at, n, k + 1)
  }

  /** What fat_parse_long hands back: its status, *nr_slots, and the entry it stands on. */
  datatype Parse = Parse(status: int, nrSlots: nat, cur: nat)

  /** One pass from its label on, with nr in *nr_slots. */
  function PassEnd(dir: seq<DirEntry>, at: nat, nr: nat): (r: Parse)
    requires at < |dir|
    ensures PARSE_OK <= r.status <= RESTART && at <= r.cur < |dir| && (r.status == RESTART ==> at < r.cur)
  {
    var n: nat := SlotNumber(Id(dir[at]));
    if !LastFlag(Id(dir[at])) || n > 20 || n == 0 then Parse(PARSE_INVALID, nr, at)
    else
      var end := CopyEnd(dir, at, n, 0);
      var e := dir[end.1];
      if end.0 != PARSE_OK then Parse(end.0, n, end.1)
      else if Id(e) == DELETED_FLAG then Parse(PARSE_INVALID, n, end.1)
      else if Attr(e) == ATTR_EXT then Parse(RESTART, n, end.1)
      else if IsFree(e) || IsVolume(e) then Parse(PARSE_INVALID, n, end.1)
      else Parse(PARSE_OK, if FatChecksum(e) == AliasChecksum(dir[at]) then n else 0, end.1)
  }

  /** The whole of it: a new pass wherever a restart is due. */
  function ParseEnd(dir: seq<DirEntry>, at: nat, nr: nat): Parse
    requires at < |dir|
    decreases |dir| - at
  {
    var r := PassEnd(dir, at, nr);
    if r.status == RESTART then ParseEnd(dir, r.cur, r.nrSlots) else r
  }

  // ----- what a pass comes to, read off the directory

  /** A slot that may begin a run: the flag bit, and 1 to 20 parts. */
  predicate Starts(dir: seq<DirEntry>, at: nat)
    requires at < |dir|
  {
    LastFlag(Id(dir[at])) && 1 <= SlotNumber(Id(dir[at])) <= 20
  }

  /** The entries from `at` to k - 1 are slots of one run, which has no more than these or
      goes on. */
  predicate GoesTo(dir: seq<DirEntry>, at: nat, k: nat)
    requires at < k <= |dir|
  {
    Starts(dir, at) && k <= at + SlotNumber(Id(dir[at])) && forall j :: at < j < k ==> Continues(dir, at, j)
  }

  /** Entry k is the first that does not continue an incomplete run. */
  predicate BreaksOff(dir: seq<DirEntry>, at: nat, k: nat)
    requires at < k < |dir|
  {
    GoesTo(dir, at, k) && k < at + SlotNumber(Id(dir[at])) && !Continues(dir, at, k)
  }

  /** Entry k stands behind a complete run. */
  predicate Behind(dir: seq<DirEntry>, at: nat, k: nat)
    requires at < k < |dir|
  {
    GoesTo(dir, at, k) && k == at + SlotNumber(Id(dir[at]))
  }

  /** A slot where the run should have gone on or where its 8.3 entry should stand: parsing
      begins anew with it. */
  predicate RestartsAt(dir: seq<DirEntry>, at: nat, k: nat)
    requires at < k < |dir|
  {
    Attr(dir[k]) == ATTR_EXT && (BreaksOff(dir, at, k) || (Behind(dir, at, k) && Id(dir[k]) != DELETED_FLAG))
  }

  /** The one way in which a pass from `at` can end, and on which entry. */
  predicate Ends(dir: seq<DirEntry>, at: nat, status: int, cur: nat)
    requires at < |dir|
  {
    if status == PARSE_OK then AcceptsAt(dir, at) && cur == at + SlotNumber(Id(dir[at]))
    else if status == PARSE_EOF then GoesTo(dir, at, |dir|) && cur == |dir| - 1
    else if status == PARSE_NOT_LONGNAME then at < cur < |dir| && BreaksOff(dir, at, cur) && Attr(dir[cur]) != ATTR_EXT
    else if status == RESTART then at < cur < |dir| && RestartsAt(dir, at, cur)
    else
      && status == PARSE_INVALID
      && if Starts(dir, at) then at < cur < |dir| && Behind(dir, at, cur) && !IsShortEntry(dir[cur]) && !RestartsAt(dir, at, cur)
         else cur == at
  }

  lemma {:induction false} CopyEnds(dir: seq<DirEntry>, at: nat, k: nat)
    requires at < at + k + 1 <= |dir| && k < SlotNumber(Id(dir[at])) && GoesTo(dir, at, at + k + 1)
    ensures var n, r := SlotNumber(Id(dir[at])), CopyEnd(dir, at, SlotNumber(Id(dir[at])), k);
      && (r.0 == PARSE_OK ==> at + n < |dir| && Behind(dir, at, r.1))
      && (r.0 != PARSE_OK ==> Ends(dir, at, r.0, r.1))
    decreases SlotNumber(Id(dir[at])) - k
  {
    var n, cur := SlotNumber(Id(dir[at])), at + k + 1;
    if cur < |dir| && k + 1 < n && Continues(dir, at, cur) {
      CopyEnds(dir, at, k + 1);
    }
  }

  lemma PassEnds(dir: seq<DirEntry>, at: nat, nr: nat)
    requires at < |dir|
    ensures Ends(dir, at, PassEnd(dir, at, nr).status, PassEnd(dir, at, nr).cur)
  {
    if Starts(dir, at) {
      CopyEnds(dir, at, 0);
    }
  }

  /** There is one end only. */
  lemma EndsOnce(dir: seq<DirEntry>, at: nat, status: int, cur: nat, status': int, cur': nat)
    requires at < |dir| && Ends(dir, at, status, cur) && Ends(dir, at, status', cur')
    ensures status == status' && cur == cur'
  {
    if Starts(dir, at) {
      var n := SlotNumber(Id(dir[at]));
      assert status != PARSE_OK || GoesTo(dir, at, at + n);
      assert status' != PARSE_OK || GoesTo(dir, at, at + n);
    }
  }

  /** Parsing that begins anew at k comes to what parsing from k comes to. */
  lemma Restarted(dir: seq<DirEntry>, at: nat, k: nat, nr: nat)
    requires at < k < |dir| && RestartsAt(dir, at, k)
    ensures ParseEnd(dir, at, nr) == ParseEnd(dir, k, SlotNumber(Id(dir[at])))
  {
    var r := PassEnd(dir, at, nr);
    PassEnds(dir, at, nr);
    EndsOnce(dir, at, r.status, r.cur, RESTART, k);
  }

  /** No run is lost behind slots that an earlier name has left: if a run is broken off by the
      first slot of a complete one, or followed by it, the complete one is found. */
  lemma RunFound(dir: seq<DirEntry>, at: nat, k: nat, nr: nat)
    requires at < k < |dir| && LastFlag(Id(dir[at])) && 1 <= SlotNumber(Id(dir[at])) <= 20
    requires k <= at + SlotNumber(Id(dir[at])) && forall j :: at < j < k ==> Continues(dir, at, j)
    requires k < at + SlotNumber(Id(dir[at])) ==> !Continues(dir, at, k)
    requires AcceptsAt(dir, k) && Attr(dir[k]) == ATTR_EXT
    ensures var r, n := ParseEnd(dir, at, nr), SlotNumber(Id(dir[k]));
      r.status == PARSE_OK && r.cur == k + n && (r.nrSlots == if FatChecksum(dir[k + n]) == AliasChecksum(dir[k]) then n else 0)
  {
    var m := SlotNumber(Id(dir[at]));
    Restarted(dir, at, k, nr);
    var r := PassEnd(dir, k, m);
    PassEnds(dir, k, m);
    EndsOnce(dir, k, r.status, r.cur, PARSE_OK, k + SlotNumber(Id(dir[k])));
  }

  /** Parsing from start on comes to begin at `at`. */
  ghost predicate LeadsTo(dir: seq<DirEntry>, start: nat, at: nat)
    requires start < |dir|
    decreases |dir| - start
  {
    at == start || exists k :: start < k < |dir| && RestartsAt(dir, start, k) && LeadsTo(dir, k, at)
  }

  lemma {:induction false} LeadsOn(dir: seq<DirEntry>, start: nat, at: nat, k: nat)
    requires start < |dir| && at < k < |dir| && LeadsTo(dir, start, at) && RestartsAt(dir, at, k)
    ensures LeadsTo(dir, start, k)
    decreases |dir| - start
  {
    if at == start {
      assert LeadsTo(dir, k, k);
    } else {
      var j :| start < j < |dir| && RestartsAt(dir, start, j) && LeadsTo(dir, j, at);
      LeadsOn(dir, j, at, k);
    }
  }

  /** Character p of the name in the run at `at`: a later slot that carries the flag bit
      again puts a NUL over the first character of the part before it. */
  function NameChar(dir: seq<DirEntry>, at: nat, n: nat, p: nat): word
    requires p < 13 * n && at + n - (p + 12) / 13 < |dir|
  {
    if p % 13 == 0 && p > 0 && LastFlag(Id(dir[at + n - p / 13])) then 0
    else SlotChar(dir[at + n - 1 - p / 13], p % 13)
  }

  /** The copying of one slot into the name buffer. */
  method CopySlot(e: DirEntry, offset: nat, unicode: array<int>)
    requires offset + 13 < unicode.Length
    modifies unicode
    ensures forall p :: 0 <= p < unicode.Length && !(offset <= p <= offset + 13) ==> unicode[p] == old(unicode[p])
    ensures forall j :: 0 <= j < 13 ==> unicode[offset + j] == SlotChar(e, j)
    ensures unicode[offset + 13] == if LastFlag(Id(e)) then 0 else old(unicode[offset + 13])
  {
    for j := 0 to 13
      invariant forall p :: 0 <= p < unicode.Length && !(offset <= p < offset + j) ==> unicode[p] == old(unicode[p])
      invariant forall i :: 0 <= i < j ==> unicode[offset + i] == SlotChar(e, i)
    {
      unicode[offset + j] := SlotChar(e, j);
    }
    if LastFlag(Id(e)) {
      unicode[offset + 13] := 0;
    }
  }

  /** The parts from number slot + 1 on are in the buffer; the first character of the last one
      copied is still its own, whatever the next slot does to it. */
  ghost predicate Copied(dir: seq<DirEntry>, at: nat, n: nat, slot: nat, unicode: array<int>)
    requires slot <= n && at + n - slot <= |dir| && 13 * n < unicode.Length
    reads unicode
  {
    && (slot < n ==> unicode[13 * n] == 0 && unicode[13 * slot] == SlotChar(dir[at + n - slot - 1], 0))
    && forall p :: 13 * slot < p < 13 * n ==> unicode[p] == NameChar(dir, at, n, p)
  }

  /** One more slot, part number slot + 1. */
  method CopyPart(dir: seq<DirEntry>, cur: nat, slot: nat, unicode: array<int>, ghost at: nat, ghost n: nat)
    requires slot < n <= 20 && cur == at + n - slot - 1 < |dir| && unicode.Length == FAT_MAX_UNI_CHARS
    requires LastFlag(Id(dir[at])) && Copied(dir, at, n, slot + 1, unicode)
    modifies unicode
    ensures Copied(dir, at, n, slot, unicode)
  {
    CopySlot(dir[cur], slot * 13, unicode);
    forall p | 13 * slot < p < 13 * n
      ensures unicode[p] == NameChar(dir, at, n, p)
    {
      if p <= 13 * slot + 13 {
        PartOfChar(slot, p);
      }
    }
  }

  lemma PartOfChar(slot: nat, p: nat)
    requires 13 * slot <= p <= 13 * slot + 13
    ensures if p < 13 * slot + 13 then p / 13 == slot && p % 13 == p - 13 * slot else p / 13 == slot + 1 && p % 13 == 0
  {
  }

  /** The slot loop of fat_parse_long; PARSE_OK when all n parts were there and one more
      entry follows. */
  method CopyRun(dir: seq<DirEntry>, at: nat, n: nat, unicode: array<int>) returns (outcome: int, cur: nat)
    requires at < |dir| && unicode.Length == FAT_MAX_UNI_CHARS
    requires LastFlag(Id(dir[at])) && n == SlotNumber(Id(dir[at])) && 1 <= n <= 20
    modifies unicode
    ensures (outcome, cur) == CopyEnd(dir, at, n, 0) && (outcome != PARSE_OK ==> Ends(dir, at, outcome, cur))
    ensures outcome == PARSE_OK <==> at + n < |dir| && forall k :: at < k < at + n ==> Continues(dir, at, k)
    ensures outcome == PARSE_OK ==> cur == at + n && unicode[13 * n] == 0
    ensures outcome == PARSE_OK ==> forall p :: 0 <= p < 13 * n ==> unicode[p] == NameChar(dir, at, n, p)
  {
    cur := at;
    var slot := n;
    while true
      invariant 1 <= slot <= n && cur == at + n - slot < |dir| && CopyEnd(dir, at, n, n - slot) == CopyEnd(dir, at, n, 0)
      invariant (forall k :: at < k <= cur ==> Continues(dir, at, k)) && Copied(dir, at, n, slot, unicode)
      decreases slot
    {
      slot := slot - 1;
      CopyPart(dir, cur, slot, unicode, at, n);
      if cur + 1 >= |dir| {
        return PARSE_EOF, cur;
      }
      cur := cur + 1;
      if slot == 0 {
        break;
      }
      if Attr(dir[cur]) != ATTR_EXT {
        assert !Continues(dir, at, cur);
        return PARSE_NOT_LONGNAME, cur;
      }
      if SlotNumber(Id(dir[cur])) != slot || AliasChecksum(dir[cur]) != AliasChecksum(dir[at]) {
        assert !Continues(dir, at, cur);
        return RESTART, cur;
      }
    }
    outcome := PARSE_OK;
  }

  /** One pass of fat_parse_long from its label on. */
  method TryRun(dir: seq<DirEntry>, at: nat, nr: nat, unicode: array<int>) returns (outcome: int, nrSlots: nat, cur: nat)
    requires at < |dir| && unicode.Length == FAT_MAX_UNI_CHARS
    modifies unicode
    ensures Parse(outcome, nrSlots, cur) == PassEnd(dir, at, nr) && Ends(dir, at, outcome, cur)
    ensures outcome == PARSE_OK <==> AcceptsAt(dir, at)
    ensures outcome == PARSE_OK ==> var n: nat := SlotNumber(Id(dir[at]));
      && cur == at + n && unicode[13 * n] == 0 && forall p :: 0 <= p < 13 * n ==> unicode[p] == NameChar(dir, at, n, p)
  {
    PassEnds(dir, at, nr);
    nrSlots, cur := nr, at;
    var id := Id(dir[at]);
    if !LastFlag(id) {
      return PARSE_INVALID, nrSlots, cur;
    }
    var slots: nat := SlotNumber(id);
    if slots > 20 || slots == 0 {
      return PARSE_INVALID, nrSlots, cur;
    }
    nrSlots := slots;
    outcome, cur := CopyRun(dir, at, slots, unicode);
    if outcome != PARSE_OK {
      return;
    }
    if Id(dir[cur]) == DELETED_FLAG {
      return PARSE_INVALID, nrSlots, cur;
    }
    if Attr(dir[cur]) == ATTR_EXT {
      return RESTART, nrSlots, cur;
    }
    if IsFree(dir[cur]) || IsVolume(dir[cur]) {
      return PARSE_INVALID, nrSlots, cur;
    }
    if FatChecksum(dir[cur]) != AliasChecksum(dir[at]) {
      nrSlots := 0;
    }
  }

  /** fat_parse_long on any directory: it ends, as the chain of its restarts does, with the
      failure that one comes to, or on a complete run, whose characters it has copied. */
  method ParseLong(dir: seq<DirEntry>, start: nat, unicode: array<int>) returns (status: int, nrSlots: nat, cur: nat)
    requires start < |dir| && unicode.Length == FAT_MAX_UNI_CHARS
    modifies unicode
    ensures Parse(status, nrSlots, cur) == ParseEnd(dir, start, 0) && PARSE_OK <= status <= PARSE_EOF
    ensures exists at :: (start <= at < |dir| && LeadsTo(dir, start, at) && Ends(dir, at, status, cur)
      && (status == PARSE_OK ==> NameCopied(dir, at, cur, nrSlots, unicode)))
    ensures AcceptsAt(dir, start) ==> status == PARSE_OK && NameCopied(dir, start, cur, nrSlots, unicode)
  {
    ghost var at := start;
    status, nrSlots, cur := TryRun(dir, start, 0, unicode);
    while status == RESTART
      invariant PARSE_OK <= status <= RESTART && start <= at <= cur < |dir|
      invariant ParseEnd(dir, start, 0) == if status == RESTART then ParseEnd(dir, cur, nrSlots) else Parse(status, nrSlots, cur)
      invariant AcceptsAt(dir, start) ==> status == PARSE_OK && at == start
      invariant status == PARSE_OK ==> NameCopied(dir, at, cur, nrSlots, unicode)
      invariant LeadsTo(dir, start, at) && Ends(dir, at, status, cur)
      decreases |dir| - cur, status == RESTART
    {
      LeadsOn(dir, start, at, cur);
      at := cur;
      status, nrSlots, cur := TryRun(dir, cur, nrSlots, unicode);
    }
  }

  /** The run at `at` is complete, `cur` is its 8.3 entry, and its characters are copied. */
  ghost predicate NameCopied(dir: seq<DirEntry>, at: nat, cur: nat, nrSlots: nat, unicode: array<int>)
    requires unicode.Length == FAT_MAX_UNI_CHARS
    reads unicode
  {
    && at < |dir| && AcceptsAt(dir, at)
    && var n: nat := SlotNumber(Id(dir[at]));
      && cur == at + n && nrSlots == (if FatChecksum(dir[cur]) == AliasChecksum(dir[at]) then n else 0)
      && unicode[13 * n] == 0 && forall p :: 0 <= p < 13 * n ==> unicode[p] == NameChar(dir, at, n, p)
  }

  // ----- round trip

  /** A NUL-terminated name. */
  function TextOf(buf: seq<int>): seq<int> {
    if buf == [] || buf[0] == 0 then [] else [buf[0]] + TextOf(buf[1..])
  }

  lemma {:induction false} TextOfTerminated(name: seq<int>, rest: seq<int>)
    requires 0 !in name
    ensures TextOf(name + [0] + rest) == name
  {
    if name != [] {
      assert (name + [0] + rest)[1..] == name[1..] + [0] + rest;
      TextOfTerminated(name[1..], rest);
    }
  }

  lemma {:induction false} TextEnds(buf: seq<int>, i: nat)
    requires i < |buf| && buf[i] == 0
    ensures |TextOf(buf)| <= i
  {
    if buf[0] != 0 {
      TextEnds(buf[1..], i - 1);
    }
  }

  /** A flag bit on a later slot ends the name that is read there: the parts of the slots
      before it are lost. */
  lemma FlagEndsText(dir: seq<DirEntry>, at: nat, n: nat, k: nat, buf: seq<int>)
    requires 0 < k < n && at + n < |dir| && LastFlag(Id(dir[at + k])) && 13 * n <= |buf|
    requires forall p :: 0 <= p < 13 * n ==> buf[p] == NameChar(dir, at, n, p)
    ensures |TextOf(buf)| <= 13 * (n - k)
  {
    var p := 13 * (n - k);
    assert p / 13 == n - k && p % 13 == 0;
    TextEnds(buf, p);
  }

  /** A stored name reads back from the padded characters and the parser's NUL. */
  lemma TextOfPadded(name: seq<word>, buf: seq<int>)
    requires 0 !in name && |Padded(name)| < |buf| && buf[|Padded(name)|] == 0
    requires forall p :: 0 <= p < |Padded(name)| ==> buf[p] == Padded(name)[p]
    ensures TextOf(buf) == name
  {
    var n := |name|;
    assert forall p :: 0 <= p < n ==> buf[p] == name[p];
    assert buf[n] == 0;
    assert buf == name + [0] + buf[n + 1..];
    TextOfTerminated(name, buf[n + 1..]);
  }

  /** A usable 8.3 entry, as vfat_build_slots writes it last. */
  predicate IsShortEntry(e: DirEntry) { Attr(e) != ATTR_EXT && !IsFree(e) && !IsVolume(e) }

  /** Slots as vfat_build_slots leaves them are accepted wherever they stand. */
  lemma BuiltRunAccepted(before: seq<DirEntry>, slots: seq<DirEntry>, short: DirEntry, after: seq<DirEntry>, chars: seq<word>, cksum: byte)
    requires |chars| == 13 * |slots| && RunAt(slots, 0, |slots|, chars, cksum) && IsShortEntry(short)
    requires forall k :: 0 <= k < |slots| ==> Attr(slots[k]) == ATTR_EXT && (LastFlag(Id(slots[k])) <==> k == 0)
    ensures var dir := before + slots + [short] + after;
      && AcceptsAt(dir, |before|) && SlotNumber(Id(dir[|before|])) == |slots| && AliasChecksum(dir[|before|]) == cksum
      && forall p :: 0 <= p < |chars| ==> NameChar(dir, |before|, |slots|, p) == chars[p]
  {
    var dir, at, n := before + slots + [short] + after, |before|, |slots|;
    assert forall k :: 0 <= k < n ==> dir[at + k] == slots[k];
    assert IsPart(slots[0], n, n, chars, cksum);
    forall k | at < k < at + n
      ensures Continues(dir, at, k)
    {
      assert dir[k] == slots[k - at] && IsPart(slots[k - at], n - (k - at), n, chars, cksum);
    }
    forall p | 0 <= p < |chars|
      ensures NameChar(dir, at, n, p) == chars[p]
    {
      RunChar(dir, at, slots, chars, cksum, p);
    }
  }

  lemma RunChar(dir: seq<DirEntry>, at: nat, slots: seq<DirEntry>, chars: seq<word>, cksum: byte, p: nat)
    requires |chars| == 13 * |slots| && p < |chars| && at + |slots| < |dir|
    requires RunAt(slots, 0, |slots|, chars, cksum)
    requires forall k :: 0 <= k < |slots| ==> dir[at + k] == slots[k] && (LastFlag(Id(slots[k])) <==> k == 0)
    ensures NameChar(dir, at, |slots|, p) == chars[p]
  {
    var n, q := |slots|, p / 13;
    var k := n - 1 - q;
    PartChar(chars, p);
    assert dir[at + k] == slots[k] && IsPart(slots[k], n - (k - 0), n, chars, cksum);
    assert SlotChars(slots[k])[p % 13] == PartOf(chars, q + 1)[p % 13];
    if p % 13 == 0 && p > 0 {
      assert dir[at + (k + 1)] == slots[k + 1];
    }
  }

  ghost predicate HasParts(name: seq<word>, n: nat) { |Padded(name)| == 13 * n }

  /** From entry `at` on stand the n slots of the name and the 8.3 entry they belong to. */
  ghost predicate HoldsName(dir: seq<DirEntry>, at: nat, name: seq<word>) {
    forall n: nat {:trigger HasParts(name, n)} :: HasParts(name, n) ==>
      && at + n < |dir| && n <= 20 && AcceptsAt(dir, at) && SlotNumber(Id(dir[at])) == n
      && AliasChecksum(dir[at]) == FatChecksum(dir[at + n])
      && forall p :: 0 <= p < 13 * n ==> NameChar(dir, at, n, p) == Padded(name)[p]
  }

  /** Wherever these entries are put, they hold the name. */
  ghost predicate BuiltFor(slots: seq<DirEntry>, name: seq<word>) {
    forall before: seq<DirEntry>, after: seq<DirEntry> :: HoldsName(before + slots + after, |before|, name)
  }

  /** The slots of vfat_build_slots, the 8.3 entry behind them. */
  method BuildEntry(name: seq<word>, short: DirEntry) returns (slots: seq<DirEntry>)
    requires 1 <= |name| <= 256 && IsShortEntry(short)
    ensures |slots| == (|name| + 12) / 13 + 1 && slots[|slots| - 1] == short
    ensures BuiltFor(slots, name)
  {
    var padded := PadName(name);
    var parts := BuildSlots(padded, FatChecksum(short));
    slots := parts + [short];
    forall before: seq<DirEntry>, after: seq<DirEntry>
      ensures HoldsName(before + slots + after, |before|, name)
    {
      BuiltRunAccepted(before, parts, short, after, padded, FatChecksum(short));
      assert before + slots + after == before + parts + [short] + after;
    }
  }

  /** What holds a name is a complete run of so many slots. */
  lemma HeldRun(dir: seq<DirEntry>, start: nat, name: seq<word>)
    requires 1 <= |name| && HoldsName(dir, start, name)
    ensures start < |dir| && AcceptsAt(dir, start)
    ensures var n: nat := SlotNumber(Id(dir[start]));
      && n == (|name| + 12) / 13 && start + n < |dir| && AliasChecksum(dir[start]) == FatChecksum(dir[start + n])
  {
    assert HasParts(name, |Padded(name)| / 13);
  }

  lemma HeldText(dir: seq<DirEntry>, start: nat, name: seq<word>, cur: nat, nrSlots: nat, unicode: array<int>)
    requires 1 <= |name| <= 256 && 0 !in name && HoldsName(dir, start, name) && unicode.Length == FAT_MAX_UNI_CHARS
    requires NameCopied(dir, start, cur, nrSlots, unicode)
    ensures TextOf(unicode[..]) == name
  {
    HeldRun(dir, start, name);
    assert HasParts(name, SlotNumber(Id(dir[start])));
    TextOfPadded(name, unicode[..]);
  }

  /** Parsing from the first slot of a stored name gives the name back, with the slot count,
      and ends on the 8.3 entry. */
  method ParseName(dir: seq<DirEntry>, start: nat, ghost name: seq<word>)
    returns (status: int, nrSlots: nat, cur: nat, found: seq<int>)
    requires 1 <= |name| <= 256 && 0 !in name && HoldsName(dir, start, name)
    ensures status == PARSE_OK && found == name
    ensures nrSlots == (|name| + 12) / 13 && cur == start + nrSlots
  {
    HeldRun(dir, start, name);
    var unicode := new int[FAT_MAX_UNI_CHARS];
    status, nrSlots, cur := ParseLong(dir, start, unicode);
    HeldText(dir, start, name, cur, nrSlots, unicode);
    found := TextOf(unicode[..]);
  }

  /** Storing and parsing, in any directory. */
  method StoreAndParse(before: seq<DirEntry>, name: seq<word>, short: DirEntry, after: seq<DirEntry>)
    returns (status: int, nrSlots: nat, cur: nat, found: seq<int>)
    requires 1 <= |name| <= 256 && 0 !in name && IsShortEntry(short)
    ensures status == PARSE_OK && found == name
    ensures nrSlots == (|name| + 12) / 13 && cur == |before| + nrSlots
  {
    var slots := BuildEntry(name, short);
    status, nrSlots, cur, found := ParseName(before + slots + after, |before|, name);
  }
}
