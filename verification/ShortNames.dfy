/** The 8.3 alias of a long name (vfat_create_shortname), and the directory scan that
    decides whether an alias is taken (fat_scan). */
module ShortNames {
  import opened Arith
  import opened Packing
  import opened LongNames
  import opened Machine

  const MSDOS_NAME := 11
  const SPACE: byte := 0x20
  const DOT: word := 0x2E
  const TILDE: byte := 0x7E
  const UNDERSCORE: byte := 0x5F
  const CASE_LOWER_BASE := 8
  const CASE_LOWER_EXT := 16

  /** What the driver uses of a character set. */
  datatype Nls = Nls(uni2char: word -> seq<byte>, toupper: byte -> byte, isalpha: byte -> bool)

  datatype ShortInfo = ShortInfo(lower: bool, upper: bool, valid: bool)

  // ----- fat_scan

  /** Entries fat_get_short_entry stops at. */
  predicate IsShort(e: DirEntry) { !IsFree(e) && !IsVolume(e) }

  predicate Taken(dir: seq<DirEntry>, name: seq<byte>) {
    exists i :: 0 <= i < |dir| && IsShort(dir[i]) && dir[i][..11] == name
  }

  /** fat_scan: the first entry of that name. */
  method Scan(dir: seq<DirEntry>, name: seq<byte>) returns (err: int, at: nat)
    ensures err == 0 || err == ENOENT
    ensures err == 0 <==> Taken(dir, name)
    ensures err == 0 ==> at < |dir| && IsShort(dir[at]) && dir[at][..11] == name
    ensures err == 0 ==> forall i :: 0 <= i < at && IsShort(dir[i]) ==> dir[i][..11] != name
  {
    at := 0;
    while at < |dir|
      invariant 0 <= at <= |dir|
      invariant forall i :: 0 <= i < at && IsShort(dir[i]) ==> dir[i][..11] != name
    {
      if IsShort(dir[at]) && dir[at][..11] == name {
        return 0, at;
      }
      at := at + 1;
    }
    err := ENOENT;
  }

  // ----- characters

  predicate SkipChar(w: word) { w == 0x2E || w == 0x20 }

  predicate ReplaceChar(w: word) {
    w == 0x5B || w == 0x5D || w == 0x3B || w == 0x2C || w == 0x2B || w == 0x3D
  }

  /** The bytes a character of the long name contributes. */
  function MapChar(nls: Nls, w: word): seq<byte> {
    if SkipChar(w) then []
    else if ReplaceChar(w) || nls.uni2char(w) == [] then [UNDERSCORE]
    else if |nls.uni2char(w)| == 1 then [nls.toupper(nls.uni2char(w)[0])]
    else nls.uni2char(w)
  }

  /** What a character does to the case and validity flags. */
  function NoteChar(nls: Nls, w: word, info: ShortInfo): ShortInfo {
    if SkipChar(w) || ReplaceChar(w) || nls.uni2char(w) == [] then info.(valid := false)
    else if |nls.uni2char(w)| == 1 then
      var prev := nls.uni2char(w)[0];
      var c := nls.toupper(prev);
      var i := if prev >= 0x7F then info.(lower := false, upper := false) else info;
      if nls.isalpha(c) then (if c == prev then i.(lower := false) else i.(upper := false)) else i
    else info.(lower := false, upper := false)
  }

  /** to_shortname_char. */
  method ToShortnameChar(nls: Nls, w: word, info: ShortInfo) returns (buf: seq<byte>, info': ShortInfo)
    ensures buf == MapChar(nls, w) && info' == NoteChar(nls, w, info)
  {
    info' := info;
    if SkipChar(w) {
      return [], info'.(valid := false);
    }
    if ReplaceChar(w) {
      return [UNDERSCORE], info'.(valid := false);
    }
    buf := nls.uni2char(w);
    if |buf| == 0 {
      info' := info'.(valid := false);
      buf := [UNDERSCORE];
    } else if |buf| == 1 {
      var prev := buf[0];
      if buf[0] >= 0x7F {
        info' := info'.(lower := false, upper := false);
      }
      buf := [nls.toupper(buf[0])];
      if nls.isalpha(buf[0]) {
        if buf[0] == prev {
          info' := info'.(lower := false);
        } else {
          info' := info'.(upper := false);
        }
      }
    } else {
      info' := info'.(lower := false, upper := false);
    }
  }

  function MapAll(nls: Nls, s: seq<word>): seq<byte> {
    if s == [] then [] else MapAll(nls, s[..|s| - 1]) + MapChar(nls, s[|s| - 1])
  }

  /** The lower half of a character set that agrees with ASCII. */
  ghost predicate Ascii(nls: Nls) {
    && (forall w: word {:trigger nls.uni2char(w)} :: 0x20 <= w < 0x7F ==> nls.uni2char(w) == [w])
    && (forall c: byte {:trigger nls.toupper(c)} :: 0x20 <= c < 0x7F ==> nls.toupper(c) == if 'a' as int <= c <= 'z' as int then c - 32 else c)
  }

  /** What an 8.3 name may consist of. */
  predicate AliasByte(c: byte) { 0x20 < c < 0x7F && c as char !in ".+,;=[]" && !('a' <= c as char <= 'z') }

  /** Dots and blanks go, six characters become underscores, and all others are kept, in upper
      case, so that every byte is one an 8.3 name may have. */
  lemma {:induction false} AliasBytes(nls: Nls, s: seq<word>)
    requires Ascii(nls) && forall i :: 0 <= i < |s| ==> 0x20 <= s[i] < 0x7F
    ensures forall c :: c in MapAll(nls, s) ==> AliasByte(c)
    ensures forall w: word :: 0x20 <= w < 0x7F && w as char in ". " ==> MapChar(nls, w) == []
    ensures forall w: word :: 0x20 <= w < 0x7F && w as char in "[];,+=" ==> MapChar(nls, w) == ['_' as int]
    ensures forall w: word :: 0x20 <= w < 0x7F && w as char !in "[];,+=. " ==> MapChar(nls, w) == [nls.toupper(w)]
  {
    if s != [] {
      AliasBytes(nls, s[..|s| - 1]);
      assert forall c :: c in MapChar(nls, s[|s| - 1]) ==> AliasByte(c);
    }
  }

  function Take(s: seq<byte>, n: nat): seq<byte> { if |s| <= n then s else s[..n] }

  // ----- splitting the name into base and extension

  /** Base is uname[..sz]; the extension starts at ext, or there is none (-1). */
  ghost predicate IsSplit(uname: seq<word>, sz: nat, ext: int) {
    if ext == -1 then
      && sz == |uname|
      && (forall k :: 0 <= k < |uname| && uname[k] == DOT && (forall j :: k < j < |uname| ==> uname[j] != DOT)
            ==> k == |uname| - 1 || forall j :: 0 <= j < k ==> SkipChar(uname[j]))
    else
      && 0 <= sz && ext == sz + 1 < |uname| && uname[sz] == DOT
      && (forall j :: sz < j < |uname| ==> uname[j] != DOT)
      && exists j :: 0 <= j < sz && !SkipChar(uname[j])
  }

  /** The last dot separates the extension, unless it ends the name or only dots and
      blanks stand before it. */
  method SplitName(uname: seq<word>) returns (sz: nat, ext: int)
    ensures IsSplit(uname, sz, ext) && sz <= |uname|
  {
    var dot := |uname| - 1;
    while dot >= 0 && uname[dot] != DOT
      invariant -1 <= dot < |uname|
      invariant forall j :: dot < j < |uname| ==> uname[j] != DOT
    {
      dot := dot - 1;
    }
    if dot == -1 || dot == |uname| - 1 {
      return |uname|, -1;
    }
    var start := 0;
    while start < dot && SkipChar(uname[start])
      invariant 0 <= start <= dot
      invariant forall j :: 0 <= j < start ==> SkipChar(uname[j])
    {
      start := start + 1;
    }
    if start != dot {
      return dot, dot + 1;
    }
    sz, ext := |uname|, -1;
  }

  /** The flags after all characters of s. */
  function NoteAll(nls: Nls, s: seq<word>): ShortInfo {
    if s == [] then ShortInfo(true, true, true) else NoteChar(nls, s[|s| - 1], NoteAll(nls, s[..|s| - 1]))
  }

  lemma {:induction false} MapAllPrefix(nls: Nls, s: seq<word>, n: nat)
    requires n <= |s|
    ensures MapAll(nls, s[..n]) <= MapAll(nls, s)
    ensures NoteAll(nls, s).valid ==> NoteAll(nls, s[..n]).valid
    decreases |s|
  {
    if n < |s| {
      MapAllPrefix(nls, s[..|s| - 1], n);
      assert s[..|s| - 1][..n] == s[..n];
    } else {
      assert s[..n] == s;
    }
  }

  /** One more character. */
  lemma MapAllStep(nls: Nls, s: seq<word>, i: nat)
    requires i < |s|
    ensures MapAll(nls, s[..i + 1]) == MapAll(nls, s[..i]) + MapChar(nls, s[i])
    ensures NoteAll(nls, s[..i + 1]) == NoteChar(nls, s[i], NoteAll(nls, s[..i]))
    ensures MapAll(nls, s[..i + 1]) <= MapAll(nls, s)
    ensures i + 1 == |s| ==> s[..i + 1] == s
  {
    assert s[..i + 1][..i] == s[..i];
    MapAllPrefix(nls, s, i + 1);
  }

  /** s contributes at most `room` bytes, every character of it as itself. */
  predicate FitsShort(nls: Nls, s: seq<word>, room: nat) { |MapAll(nls, s)| <= room && NoteAll(nls, s).valid }

  /** Characters left over once the room is filled rule the short form out. */
  lemma LeftOver(nls: Nls, s: seq<word>, i: nat, room: nat)
    requires i < |s| && |MapAll(nls, s[..i])| >= room
    ensures !FitsShort(nls, s, room)
  {
    MapAllStep(nls, s, i);
    MapAllPrefix(nls, s, i + 1);
  }

  /** t bytes are whole characters, and as many of them as `limit` allows. */
  ghost predicate Cuts(nls: Nls, s: seq<word>, limit: nat, t: nat) {
    && t <= limit
    && (exists k :: 0 <= k <= |s| && |MapAll(nls, s[..k])| == t)
    && forall k :: 0 <= k <= |s| && |MapAll(nls, s[..k])| <= limit ==> |MapAll(nls, s[..k])| <= t
  }

  lemma MapAllMonotone(nls: Nls, s: seq<word>, j: nat, k: nat)
    requires j <= k <= |s|
    ensures |MapAll(nls, s[..j])| <= |MapAll(nls, s[..k])|
  {
    MapAllPrefix(nls, s[..k], j);
    assert s[..k][..j] == s[..j];
  }

  /** Where a tail may start once n bytes are there. */
  ghost predicate TailAt(nls: Nls, s: seq<word>, limit: nat, n: nat, t: nat) {
    if n >= limit then Cuts(nls, s, limit, t) else t == limit
  }

  lemma TailStep(nls: Nls, s: seq<word>, i: nat, limit: nat, t: nat)
    requires i < |s| && TailAt(nls, s, limit, |MapAll(nls, s[..i])|, t)
    ensures var n, m := |MapAll(nls, s[..i])|, |MapAll(nls, s[..i + 1])|;
      n <= m && TailAt(nls, s, limit, m, if n < limit && m > limit then n else t)
  {
    MapAllMonotone(nls, s, i, i + 1);
    if |MapAll(nls, s[..i])| < limit < |MapAll(nls, s[..i + 1])| {
      forall k | 0 <= k <= |s|
        ensures k <= i ==> |MapAll(nls, s[..k])| <= |MapAll(nls, s[..i])|
        ensures k > i ==> |MapAll(nls, s[..k])| > limit
      {
        if k <= i { MapAllMonotone(nls, s, k, i); } else { MapAllMonotone(nls, s, i + 1, k); }
      }
    }
  }

  lemma TakeFrom(s: seq<byte>, chars: seq<byte>, n: nat)
    requires n <= |chars| && |s| + n <= 8 && (|s| + n == 8 || n == |chars|)
    ensures s + chars[..n] == Take(s + chars, 8)
  {
    assert (s + chars)[..|s| + n] == s + chars[..n];
  }

  /** The bytes of one character, as far as there is room; and a tail may not start later
      than a character that crosses its limit. */
  method AppendBase(base0: seq<byte>, tail0: nat, tail20: nat, chars: seq<byte>)
    returns (base: seq<byte>, tail: nat, tail2: nat, fits: bool)
    requires |base0| < 8
    ensures base == Take(base0 + chars, 8)
    ensures tail == if |base0| < 6 && |base0 + chars| > 6 then |base0| else tail0
    ensures tail2 == if |base0| < 2 && |base0 + chars| > 2 then |base0| else tail20
    ensures fits <==> |base0 + chars| <= 8
  {
    base, tail, tail2 := base0, tail0, tail20;
    if |base| < 2 && |base| + |chars| > 2 {
      tail2 := |base|;
    }
    if |base| < 6 && |base| + |chars| > 6 {
      tail := |base|;
    }
    var chi := 0;
    while chi < |chars| && |base| < 8
      invariant 0 <= chi <= |chars| && |base| <= 8
      invariant base == base0 + chars[..chi]
    {
      base := base + [chars[chi]];
      chi := chi + 1;
    }
    fits := chi == |chars|;
    TakeFrom(base0, chars, chi);
  }

  /** Base, tails and flags so far; fits says that no byte is left out. */
  datatype BaseState = BaseState(base: seq<byte>, tail: nat, tail2: nat, fits: bool, info: ShortInfo)

  /** They are those after the first i characters. */
  ghost predicate BaseUpTo(nls: Nls, s: seq<word>, i: nat, b: BaseState) {
    match b
    case BaseState(base, tail, tail2, fits, info) =>
      && i <= |s| && base == Take(MapAll(nls, s[..i]), 8) && info == NoteAll(nls, s[..i])
      && (fits <==> |MapAll(nls, s[..i])| <= 8 && (|base| == 8 ==> i == |s|))
      && (!fits ==> !FitsShort(nls, s, 8))
      && TailAt(nls, s, 6, |MapAll(nls, s[..i])|, tail) && TailAt(nls, s, 2, |MapAll(nls, s[..i])|, tail2)
  }

  /** One character more. */
  method BaseStep(nls: Nls, s: seq<word>, i: nat, base0: seq<byte>, tail0: nat, tail20: nat, info0: ShortInfo, ghost fits0: bool)
    returns (base: seq<byte>, tail: nat, tail2: nat, fits: bool, info: ShortInfo)
    requires i < |s| && |base0| < 8 && BaseUpTo(nls, s, i, BaseState(base0, tail0, tail20, fits0, info0))
    ensures BaseUpTo(nls, s, i + 1, BaseState(base, tail, tail2, fits, info))
  {
    var chars;
    chars, info := ToShortnameChar(nls, s[i], info0);
    MapAllStep(nls, s, i);
    TailStep(nls, s, i, 6, tail0);
    TailStep(nls, s, i, 2, tail20);
    base, tail, tail2, fits := AppendBase(base0, tail0, tail20, chars);
    if |base| >= 8 && i + 1 < |s| {
      fits := false;
      LeftOver(nls, s, i + 1, 8);
    }
  }

  lemma BaseStart(nls: Nls, s: seq<word>)
    ensures BaseUpTo(nls, s, 0, BaseState([], 6, 2, true, ShortInfo(true, true, true)))
  {
  }

  lemma BaseEnd(nls: Nls, s: seq<word>, i: nat, b: BaseState)
    requires BaseUpTo(nls, s, i, b) && (i == |s| || |b.base| == 8)
    ensures b.base == Take(MapAll(nls, s), 8) && b.base <= MapAll(nls, s) && |b.base| <= 8 && (|b.base| == 8 || b.base == MapAll(nls, s))
    ensures TailAt(nls, s, 6, |MapAll(nls, s)|, b.tail) && TailAt(nls, s, 2, |MapAll(nls, s)|, b.tail2)
    ensures b.fits && b.info.valid <==> FitsShort(nls, s, 8)
    ensures b.fits ==> b.info == NoteAll(nls, s)
  {
    MapAllPrefix(nls, s, i);
    assert s[..|s|] == s;
  }

  /** The base: at most eight bytes, together with where a numeric tail may start. */
  method BuildBase(nls: Nls, s: seq<word>) returns (base: seq<byte>, tail: nat, tail2: nat, fits: bool, info: ShortInfo)
    ensures base == Take(MapAll(nls, s), 8) && base <= MapAll(nls, s) && |base| <= 8 && (|base| == 8 || base == MapAll(nls, s))
    ensures TailAt(nls, s, 6, |MapAll(nls, s)|, tail) && TailAt(nls, s, 2, |MapAll(nls, s)|, tail2)
    ensures fits && info.valid <==> FitsShort(nls, s, 8)
    ensures fits ==> info == NoteAll(nls, s)
  {
    base, tail, tail2, fits, info := [], 6, 2, true, ShortInfo(true, true, true);
    BaseStart(nls, s);
    var i := 0;
    while i < |s| && |base| < 8
      invariant 0 <= i <= |s| && |base| <= 8 && BaseUpTo(nls, s, i, BaseState(base, tail, tail2, fits, info))
    {
      base, tail, tail2, fits, info := BaseStep(nls, s, i, base, tail, tail2, info, fits);
      i := i + 1;
    }
    BaseEnd(nls, s, i, BaseState(base, tail, tail2, fits, info));
  }

  /** The extension: whole characters while they fit into three bytes. */
  function ExtFrom(nls: Nls, s: seq<word>, sofar: seq<byte>): (r: seq<byte>)
    requires |sofar| <= 3
    ensures |r| <= 3
    decreases |s|
  {
    if s == [] || |sofar| == 3 || |sofar + MapChar(nls, s[0])| > 3 then sofar
    else ExtFrom(nls, s[1..], sofar + MapChar(nls, s[0]))
  }

  /** The first bytes of s, as many as three bytes hold of whole characters. */
  ghost predicate IsExt(nls: Nls, s: seq<word>, e: seq<byte>) { e <= MapAll(nls, s) && Cuts(nls, s, 3, |e|) }

  lemma {:induction false} ExtFromIsExt(nls: Nls, s: seq<word>, i: nat)
    requires i <= |s| && |MapAll(nls, s[..i])| <= 3
    ensures IsExt(nls, s, ExtFrom(nls, s[i..], MapAll(nls, s[..i])))
    decreases |s| - i
  {
    MapAllPrefix(nls, s, i);
    if i < |s| && |MapAll(nls, s[..i])| < 3 {
      MapAllStep(nls, s, i);
      if |MapAll(nls, s[..i + 1])| <= 3 {
        assert s[i..][1..] == s[i + 1..];
        ExtFromIsExt(nls, s, i + 1);
        return;
      }
    }
    forall k | 0 <= k <= |s|
      ensures |MapAll(nls, s[..k])| <= |MapAll(nls, s[..i])| || |MapAll(nls, s[..k])| > 3 || |MapAll(nls, s[..i])| == 3
    {
      if k <= i {
        MapAllMonotone(nls, s, k, i);
      } else {
        MapAllMonotone(nls, s, i + 1, k);
      }
    }
  }

  /** Only one extension is of that kind. */
  lemma ExtOnce(nls: Nls, s: seq<word>, e: seq<byte>, e': seq<byte>)
    requires IsExt(nls, s, e) && IsExt(nls, s, e')
    ensures e == e'
  {
    assert |e| == |e'|;
  }

  method BuildExt(nls: Nls, s: seq<word>) returns (ext: seq<byte>, fits: bool, info: ShortInfo)
    ensures ext == ExtFrom(nls, s, []) && |ext| <= 3 && IsExt(nls, s, ext)
    ensures fits && info.valid <==> FitsShort(nls, s, 3)
    ensures fits ==> ext == MapAll(nls, s) && info == NoteAll(nls, s)
  {
    ext, fits, info := [], true, ShortInfo(true, true, true);
    var i := 0;
    while |ext| < 3 && i < |s| && fits
      invariant 0 <= i <= |s| && |ext| <= 3
      invariant fits ==> ext == MapAll(nls, s[..i]) && info == NoteAll(nls, s[..i]) && (|ext| == 3 ==> i == |s|)
      invariant if fits then ExtFrom(nls, s[i..], ext) == ExtFrom(nls, s, []) else ext == ExtFrom(nls, s, []) && !FitsShort(nls, s, 3)
      decreases |s| - i, fits
    {
      var chars;
      chars, info := ToShortnameChar(nls, s[i], info);
      MapAllStep(nls, s, i);
      assert s[i..][1..] == s[i + 1..];
      if |ext| + |chars| > 3 {
        fits := false;
      } else {
        ext := ext + chars;
        i := i + 1;
        if |ext| >= 3 && i != |s| {
          fits := false;
          LeftOver(nls, s, i, 3);
        }
      }
    }
    assert s[..|s|] == s && s[|s|..] == [];
    assert s[0..] == s && s[..0] == [];
    ExtFromIsExt(nls, s, 0);
  }

  // ----- numeric tails

  function HexDigit(d: nat): byte
    requires d < 16
  {
    if d < 10 then 0x30 + d else 0x41 + d - 10
  }

  /** "%04X" */
  function Hex4(v: nat): (r: seq<byte>)
    requires v < 65536
    ensures |r| == 4
  {
    [HexDigit(v / 4096), HexDigit(v / 256 % 16), HexDigit(v / 16 % 16), HexDigit(v % 16)]
  }

  /** The number that hexadecimal digits stand for, most significant first. */
  function HexValue(s: seq<byte>): nat {
    if s == [] then 0
    else
      var c: int := s[|s| - 1];
      HexValue(s[..|s| - 1]) * 16 + if 'A' as int <= c <= 'F' as int then c - 'A' as int + 10 else if c >= '0' as int then c - '0' as int else 0
  }

  lemma HexReads(v: nat)
    requires v < 65536
    ensures HexValue(Hex4(v)) == v
    ensures forall i :: 0 <= i < 4 ==> Hex4(v)[i] as char in "0123456789ABCDEF"
  {
    var s := Hex4(v);
    assert s[..4] == s && s[..4][..3] == s[..3] && s[..3][..2] == s[..2] && s[..2][..1] == s[..1] && s[..1][..0] == [];
    Digits(v);
    assert HexValue(s[..1]) == v / 4096;
    assert HexValue(s[..2]) == v / 4096 * 16 + v / 256 % 16;
    assert HexValue(s[..3]) == HexValue(s[..2]) * 16 + v / 16 % 16;
  }

  lemma Digits(v: nat)
    ensures v == v / 4096 * 4096 + v / 256 % 16 * 256 + v / 16 % 16 * 16 + v % 16
  {
    var q := v / 16;
    assert v / 256 == q / 16 && v / 4096 == q / 16 / 16;
  }

  lemma Hex4Injective(v: nat, w: nat)
    requires v < 65536 && w < 65536 && Hex4(v) == Hex4(w)
    ensures v == w
  {
    Digits(v);
    Digits(w);
    SameDigit(v / 4096, w / 4096, Hex4(v), Hex4(w), 0);
    SameDigit(v / 256 % 16, w / 256 % 16, Hex4(v), Hex4(w), 1);
    SameDigit(v / 16 % 16, w / 16 % 16, Hex4(v), Hex4(w), 2);
    SameDigit(v % 16, w % 16, Hex4(v), Hex4(w), 3);
  }

  lemma SameDigit(d: nat, e: nat, s: seq<byte>, t: seq<byte>, i: nat)
    requires d < 16 && e < 16 && s == t && i < |s| && s[i] == HexDigit(d) && t[i] == HexDigit(e)
    ensures d == e
  {
  }

  /** The name with the four hexadecimal digits of v from position b on. */
  function WithHex(name: seq<byte>, b: nat, v: nat): (r: seq<byte>)
    requires |name| == 11 && b <= 2 && v < 65536
    ensures |r| == 11 && r[8..] == name[8..]
  {
    name[..b] + Hex4(v) + name[b + 4..]
  }

  lemma WithHexInjective(name: seq<byte>, b: nat, v: nat, w: nat)
    requires |name| == 11 && b <= 2 && v < 65536 && w < 65536 && WithHex(name, b, v) == WithHex(name, b, w)
    ensures v == w
  {
    assert Hex4(v) == WithHex(name, b, v)[b..b + 4];
    assert Hex4(w) == WithHex(name, b, w)[b..b + 4];
    Hex4Injective(v, w);
  }

  /** Stepping by 11 meets every 16-bit value: 35747 is the inverse of 11. */
  lemma StepReaches(j: int, v: nat)
    requires v < 65536
    ensures 0 <= (j - v) * 35747 % 65536 < 65536
    ensures (j - 11 * ((j - v) * 35747 % 65536)) % 65536 == v
  {
    var a := j - v;
    var k, q := a * 35747 % 65536, a * 35747 / 65536;
    assert a * 35747 == q * 65536 + k;
    assert j - 11 * k == (11 * q - 6 * a) * 65536 + v;
    DivModUnique(j - 11 * k, 65536, 11 * q - 6 * a, v);
  }

  /** The k-th alias the search looks at. */
  function Attempt(name: seq<byte>, b: nat, jiffies: int, k: nat): (r: seq<byte>)
    requires |name| == 11 && b <= 2
    ensures |r| == 11 && r[8..] == name[8..]
  {
    WithHex(name, b, (jiffies - 11 * k) % 65536)
  }

  /** Some hexadecimal alias of the name is free: what the search needs in order to end. */
  ghost predicate AliasFree(dir: seq<DirEntry>, name: seq<byte>, b: nat)
    requires |name| == 11 && b <= 2
  {
    exists v: nat :: v < 65536 && !Taken(dir, WithHex(name, b, v))
  }

  /** The search for a hexadecimal alias ends exactly when some alias is not taken. */
  lemma SearchEndsIffSomeFree(dir: seq<DirEntry>, name: seq<byte>, b: nat, j: int)
    requires |name| == 11 && b <= 2
    ensures (exists k: nat :: !Taken(dir, Attempt(name, b, j, k)))
       <==> AliasFree(dir, name, b)
  {
    forall v: nat | v < 65536 && !Taken(dir, WithHex(name, b, v))
      ensures exists k: nat :: !Taken(dir, Attempt(name, b, j, k))
    {
      StepReaches(j, v);
      var k := (j - v) * 35747 % 65536;
      assert !Taken(dir, Attempt(name, b, j, k));
    }
  }

  function NamesOf(dir: seq<DirEntry>): (r: set<seq<byte>>)
    ensures |r| <= |dir|
    ensures forall i :: 0 <= i < |dir| ==> dir[i][..11] in r
  {
    if dir == [] then {}
    else NamesOf(dir[..|dir| - 1]) + {dir[|dir| - 1][..11]}
  }

  ghost function Aliases(name: seq<byte>, b: nat, n: nat): (r: set<seq<byte>>)
    requires |name| == 11 && b <= 2 && n <= 65536
    ensures |r| == n
    ensures forall x :: x in r ==> exists v: nat :: v < n && x == WithHex(name, b, v)
  {
    if n == 0 then {}
    else
      var s := Aliases(name, b, n - 1);
      assert WithHex(name, b, n - 1) !in s by {
        forall v: nat | v < n - 1
          ensures WithHex(name, b, v) != WithHex(name, b, n - 1)
        {
          if WithHex(name, b, v) == WithHex(name, b, n - 1) {
            WithHexInjective(name, b, v, n - 1);
          }
        }
      }
      s + {WithHex(name, b, n - 1)}
  }

  lemma SubsetSize<T>(a: set<T>, b: set<T>)
    requires a <= b
    ensures |a| <= |b|
  {
    assert b == a + (b - a);
  }

  /** A directory of fewer than 65536 entries cannot hold all 65536 aliases. */
  lemma SomeAliasFree(dir: seq<DirEntry>, name: seq<byte>, b: nat)
    requires |name| == 11 && b <= 2 && |dir| < 65536
    ensures AliasFree(dir, name, b)
  {
    var all, names := Aliases(name, b, 65536), NamesOf(dir);
    if all <= names {
      SubsetSize(all, names);
    } else {
      var x :| x in all && x !in names;
      var v: nat :| v < 65536 && x == WithHex(name, b, v);
      assert !Taken(dir, WithHex(name, b, v));
    }
  }

  /** An entry of that name, with no attributes. */
  function EntryNamed(name: seq<byte>): DirEntry
    requires |name| == 11
  {
    name + seq(21, _ => 0)
  }

  /** A directory of all 65536 hexadecimal aliases of a name. */
  function HexDir(name: seq<byte>, b: nat): (r: seq<DirEntry>)
    requires |name| == 11 && b <= 2
    ensures |r| == 65536
  {
    seq(65536, v requires 0 <= v < 65536 => EntryNamed(WithHex(name, b, v)))
  }

  /** Neither the end of a directory nor a deleted entry. */
  predicate MayStart(name: seq<byte>) { name != [] && name[0] != 0 && name[0] != DELETED_FLAG }

  lemma NamedIsTaken(dir: seq<DirEntry>, i: nat, name: seq<byte>)
    requires |name| == 11 && MayStart(name) && i < |dir| && dir[i] == EntryNamed(name)
    ensures Taken(dir, name)
  {
    assert dir[i][..11] == name && dir[i][0] == name[0] && dir[i][11] == 0;
    assert IsShort(dir[i]);
  }

  /** In a directory with these entries the search never ends. */
  lemma AllAliasesTaken(more: seq<DirEntry>, name: seq<byte>, b: nat)
    requires |name| == 11 && b <= 2 && MayStart(name)
    ensures !AliasFree(more + HexDir(name, b), name, b)
  {
    var dir := more + HexDir(name, b);
    forall v: nat | v < 65536
      ensures Taken(dir, WithHex(name, b, v))
    {
      assert WithHex(name, b, v)[0] == if b == 0 then Hex4(v)[0] else name[0];
      NamedIsTaken(dir, |more| + v, WithHex(name, b, v));
    }
  }

  /** The unbounded loop of vfat_create_shortname: every attempt before the k-th was taken. */
  method SearchHex(dir: seq<DirEntry>, name: seq<byte>, b: nat, jiffies: int) returns (r: seq<byte>, ghost k: nat)
    requires |name| == 11 && b <= 2 && AliasFree(dir, name, b)
    ensures r == Attempt(name, b, jiffies, k) && !Taken(dir, r)
    ensures forall m: nat :: m < k ==> Taken(dir, Attempt(name, b, jiffies, m))
  {
    ghost var w: nat :| w < 65536 && !Taken(dir, WithHex(name, b, w));
    StepReaches(jiffies, w);
    ghost var last := (jiffies - w) * 35747 % 65536;
    k := 0;
    var i := jiffies;
    while true
      invariant 0 <= k <= last && i == jiffies - 11 * k
      invariant forall m: nat :: m < k ==> Taken(dir, Attempt(name, b, jiffies, m))
      decreases last - k
    {
      r := name[..b] + Hex4(i % 65536) + name[b + 4..];
      var err, at := Scan(dir, r);
      if err < 0 {
        return;
      }
      i := i - 11;
      k := k + 1;
    }
  }

  // ----- the alias

  datatype Create = Win95 | WinNT

  /** How a name was taken apart: base, extension, and where its tails may start. */
  datatype Plan = Plan(sz: nat, ext: int, tail: nat, tail2: nat)

  function Spaces(n: nat): (r: seq<byte>)
    ensures |r| == n
  {
    seq(n, _ => SPACE)
  }

  /** 0xE5 at the front would read as a deleted entry. */
  function Escape(base: seq<byte>): (r: seq<byte>)
    ensures |r| == |base|
  {
    if base != [] && base[0] == DELETED_FLAG then [0x05] + base[1..] else base
  }

  function Pad(base: seq<byte>, ext: seq<byte>): (r: seq<byte>)
    requires |base| <= 8 && |ext| <= 3
    ensures |r| == 11
  {
    base + Spaces(8 - |base|) + ext + Spaces(3 - |ext|)
  }

  ghost predicate IsPlan(nls: Nls, uname: seq<word>, p: Plan) {
    match p
    case Plan(sz, ext, tail, tail2) =>
      && IsSplit(uname, sz, ext) && sz <= |uname| && -1 <= ext <= |uname|
      && TailAt(nls, uname[..sz], 6, |MapAll(nls, uname[..sz])|, tail)
      && TailAt(nls, uname[..sz], 2, |MapAll(nls, uname[..sz])|, tail2)
  }

  ghost function Base(nls: Nls, uname: seq<word>, p: Plan): (r: seq<byte>)
    requires p.sz <= |uname|
    ensures |r| <= 8
  {
    Escape(Take(MapAll(nls, uname[..p.sz]), 8))
  }

  ghost function ExtPart(uname: seq<word>, p: Plan): seq<word>
    requires -1 <= p.ext <= |uname|
  {
    if p.ext == -1 then [] else uname[p.ext..]
  }

  ghost function Plain(nls: Nls, uname: seq<word>, p: Plan): (r: seq<byte>)
    requires p.sz <= |uname| && -1 <= p.ext <= |uname|
    ensures |r| == 11
  {
    Pad(Base(nls, uname, p), ExtFrom(nls, ExtPart(uname, p), []))
  }

  /** Base and extension both hold in 8.3 form as they are. */
  ghost predicate IsShortName(nls: Nls, uname: seq<word>, p: Plan)
    requires p.sz <= |uname| && -1 <= p.ext <= |uname|
  {
    FitsShort(nls, uname[..p.sz], 8) && FitsShort(nls, ExtPart(uname, p), 3)
  }

  function CaseBits(base: ShortInfo, ext: ShortInfo): int {
    (if !base.upper && base.lower then CASE_LOWER_BASE else 0) + (if !ext.upper && ext.lower then CASE_LOWER_EXT else 0)
  }

  /** No long name need be stored: the alias and the two case bits tell the whole name. */
  predicate CaseKept(create: Create, base: ShortInfo, ext: ShortInfo) {
    match create
    case Win95 => base.upper && ext.upper
    case WinNT => (base.upper || base.lower) && (ext.upper || ext.lower)
  }

  function Overwrite(name: seq<byte>, at: nat, s: seq<byte>): (r: seq<byte>)
    requires |name| == 11 && at + |s| <= 8
    ensures |r| == 11 && r[8..] == name[8..]
  {
    name[..at] + s + name[at + |s|..]
  }

  lemma OneByte(name: seq<byte>, at: nat, b: byte)
    requires |name| == 11 && at < 8
    ensures name[at := b] == Overwrite(name, at, [b])
  {
  }

  lemma TwoBytes(name: seq<byte>, at: nat, b: byte, c: byte)
    requires |name| == 11 && at + 1 < 8
    ensures name[at := b][at + 1 := c] == Overwrite(name, at, [b, c])
  {
  }

  /** The first tail: "~1" to "~9". */
  function WithDigit(name: seq<byte>, n: nat, tail: nat, d: nat): (r: seq<byte>)
    requires |name| == 11 && n <= 8 && tail <= 6 && 1 <= d <= 9
    ensures |r| == 11 && r[8..] == name[8..]
  {
    Overwrite(if n > 6 then Overwrite(name, 7, [SPACE]) else name, if n > 6 then tail else n, [TILDE, 0x30 + d])
  }

  /** The second tail without its four digits: "~1" to "~8" behind them. */
  function HexStart(name: seq<byte>, n: nat, tail: nat, tail2: nat, sz: nat): (r: seq<byte>)
    requires |name| == 11 && n <= 8 && tail <= 6 && tail2 <= 2 && sz < 8
    ensures |r| == 11 && r[8..] == name[8..]
  {
    var first := WithDigit(name, n, tail, 9);
    var t := if n > 6 then tail else n;
    Overwrite(if t > 2 then Overwrite(first, 7, [SPACE]) else first, (if t > 2 then tail2 else t) + 4, [TILDE, 0x31 + sz])
  }

  function HexAt(n: nat, tail: nat, tail2: nat): nat {
    if (if n > 6 then tail else n) > 2 then tail2 else if n > 6 then tail else n
  }

  /** A short tail: the tilde and the digit stand where the base, or as much of it as the tail
      leaves, ends; the eighth byte of a long base becomes a blank unless the digit is there. */
  lemma DigitPlace(plain: seq<byte>, n: nat, tail: nat, d: nat)
    requires |plain| == 11 && n <= 8 && tail <= 6 && 1 <= d <= 9
    ensures var r, t := WithDigit(plain, n, tail, d), if n > 6 then tail else n;
      && r[..t] == plain[..t] && r[t] == TILDE && r[t + 1] == 0x30 + d
      && forall k :: t + 2 <= k < 11 ==> r[k] == if n > 6 && k == 7 then SPACE else plain[k]
  {
  }

  lemma StartPlace(plain: seq<byte>, n: nat, tail: nat, tail2: nat, sz: nat)
    requires |plain| == 11 && n <= 8 && tail <= 6 && tail2 <= 2 && sz < 8
    ensures var t, b, r := if n > 6 then tail else n, HexAt(n, tail, tail2), HexStart(plain, n, tail, tail2, sz);
      && r[..b] == plain[..b] && r[b + 4] == TILDE && r[b + 5] == 0x31 + sz && (t > 2 && b < 2 ==> r[7] == SPACE)
  {
    var t, b, first := if n > 6 then tail else n, HexAt(n, tail, tail2), WithDigit(plain, n, tail, 9);
    DigitPlace(plain, n, tail, 9);
    var second := if t > 2 then Overwrite(first, 7, [SPACE]) else first;
    OverwriteAt(first, 7, [SPACE]);
    OverwriteAt(second, b + 4, [TILDE, 0x31 + sz]);
    forall k | 0 <= k < b
      ensures HexStart(plain, n, tail, tail2, sz)[k] == plain[k]
    {
      assert first[..t][k] == plain[..t][k];
    }
  }

  lemma OverwriteAt(name: seq<byte>, at: nat, s: seq<byte>)
    requires |name| == 11 && at + |s| <= 8
    ensures forall k :: 0 <= k < 11 ==> Overwrite(name, at, s)[k] == if at <= k < at + |s| then s[k - at] else name[k]
  {
  }

  /** A long tail: four hexadecimal digits, a tilde and one more digit, behind at most two bytes
      of the base. */
  lemma HexPlace(plain: seq<byte>, n: nat, tail: nat, tail2: nat, sz: nat, v: nat)
    requires |plain| == 11 && n <= 8 && tail <= 6 && tail2 <= 2 && sz < 8 && v < 65536
    ensures var t, b := if n > 6 then tail else n, HexAt(n, tail, tail2);
      var r := WithHex(HexStart(plain, n, tail, tail2, sz), b, v);
      && b == (if t > 2 then tail2 else t) && r[..b] == plain[..b] && r[b + 4] == TILDE && r[b + 5] == 0x31 + sz
      && r[b..b + 4] == Hex4(v) && r[8..] == plain[8..] && (t > 2 && b < 2 ==> r[7] == SPACE)
  {
    var b, start := HexAt(n, tail, tail2), HexStart(plain, n, tail, tail2, sz);
    StartPlace(plain, n, tail, tail2, sz);
    HexIn(start, b, v);
  }

  lemma HexIn(name: seq<byte>, b: nat, v: nat)
    requires |name| == 11 && b <= 2 && v < 65536
    ensures var r := WithHex(name, b, v);
      r[..b] == name[..b] && r[b..b + 4] == Hex4(v) && forall k :: b + 4 <= k < 11 ==> r[k] == name[k]
  {
  }

  /** Some tail is free, so that the search for one ends. */
  ghost predicate TailFree(dir: seq<DirEntry>, plain: seq<byte>, n: nat, p: Plan, jiffies: int)
    requires |plain| == 11 && n <= 8 && p.tail <= 6 && p.tail2 <= 2
  {
    || (exists d :: 1 <= d <= 9 && !Taken(dir, WithDigit(plain, n, p.tail, d)))
    || AliasFree(dir, HexStart(plain, n, p.tail, p.tail2, jiffies / 65536 % 8), HexAt(n, p.tail, p.tail2))
  }

  /** Fewer than 65536 entries always leave a tail free. */
  lemma TailsLeft(dir: seq<DirEntry>, plain: seq<byte>, n: nat, p: Plan, jiffies: int)
    requires |plain| == 11 && n <= 8 && p.tail <= 6 && p.tail2 <= 2 && |dir| < 65536
    ensures TailFree(dir, plain, n, p, jiffies)
  {
    SomeAliasFree(dir, HexStart(plain, n, p.tail, p.tail2, jiffies / 65536 % 8), HexAt(n, p.tail, p.tail2));
  }

  function DigitDir(plain: seq<byte>, n: nat, p: Plan): (r: seq<DirEntry>)
    requires |plain| == 11 && n <= 8 && p.tail <= 6
    ensures |r| == 9
  {
    seq(9, d requires 0 <= d < 9 => EntryNamed(WithDigit(plain, n, p.tail, d + 1)))
  }

  /** A directory that leaves none: the nine short tails of a name, and the hexadecimal ones. */
  function FullDir(plain: seq<byte>, n: nat, p: Plan, jiffies: int): seq<DirEntry>
    requires |plain| == 11 && n <= 8 && p.tail <= 6 && p.tail2 <= 2
  {
    DigitDir(plain, n, p) + HexDir(HexStart(plain, n, p.tail, p.tail2, jiffies / 65536 % 8), HexAt(n, p.tail, p.tail2))
  }

  lemma TailsMayStart(plain: seq<byte>, n: nat, p: Plan, d: nat, sz: nat)
    requires |plain| == 11 && n <= 8 && p.tail <= 6 && p.tail2 <= 2 && 1 <= d <= 9 && sz < 8 && MayStart(plain)
    ensures MayStart(WithDigit(plain, n, p.tail, d)) && MayStart(HexStart(plain, n, p.tail, p.tail2, sz))
  {
    assert WithDigit(plain, n, p.tail, d)[0] == if (if n > 6 then p.tail else n) == 0 then TILDE else plain[0];
    assert WithDigit(plain, n, p.tail, 9)[0] == if (if n > 6 then p.tail else n) == 0 then TILDE else plain[0];
    assert HexStart(plain, n, p.tail, p.tail2, sz)[0] == WithDigit(plain, n, p.tail, 9)[0];
  }

  /** So it is for every name that may start an entry. */
  lemma AllTailsTaken(plain: seq<byte>, n: nat, p: Plan, jiffies: int)
    requires |plain| == 11 && n <= 8 && p.tail <= 6 && p.tail2 <= 2 && MayStart(plain)
    ensures !TailFree(FullDir(plain, n, p, jiffies), plain, n, p, jiffies)
  {
    var digits := DigitDir(plain, n, p);
    var start, b := HexStart(plain, n, p.tail, p.tail2, jiffies / 65536 % 8), HexAt(n, p.tail, p.tail2);
    forall d | 1 <= d <= 9
      ensures Taken(digits + HexDir(start, b), WithDigit(plain, n, p.tail, d))
    {
      TailsMayStart(plain, n, p, d, 0);
      NamedIsTaken(digits + HexDir(start, b), d - 1, WithDigit(plain, n, p.tail, d));
    }
    TailsMayStart(plain, n, p, 9, jiffies / 65536 % 8);
    AllAliasesTaken(digits, start, b);
  }

  /** The first free one of the nine short tails, else of the hexadecimal ones. */
  ghost predicate FirstFreeTail(dir: seq<DirEntry>, plain: seq<byte>, n: nat, p: Plan, jiffies: int, name: seq<byte>)
    requires |plain| == 11 && n <= 8 && p.tail <= 6 && p.tail2 <= 2
  {
    if exists d :: 1 <= d <= 9 && !Taken(dir, WithDigit(plain, n, p.tail, d)) then
      exists d :: 1 <= d <= 9 && name == WithDigit(plain, n, p.tail, d)
               && forall c :: 1 <= c < d ==> Taken(dir, WithDigit(plain, n, p.tail, c))
    else
      var start := HexStart(plain, n, p.tail, p.tail2, jiffies / 65536 % 8);
      exists k: nat :: name == Attempt(start, HexAt(n, p.tail, p.tail2), jiffies, k)
        && forall m: nat :: m < k ==> Taken(dir, Attempt(start, HexAt(n, p.tail, p.tail2), jiffies, m))
  }

  /** The loop over "~1" to "~9". */
  method SearchDigit(dir: seq<DirEntry>, plain: seq<byte>, n: nat, tail: nat) returns (name: seq<byte>, found: bool)
    requires |plain| == 11 && n <= 8 && tail <= 6
    ensures found <==> exists d :: 1 <= d <= 9 && !Taken(dir, WithDigit(plain, n, tail, d))
    ensures found ==> !Taken(dir, name)
    ensures found ==> exists d :: 1 <= d <= 9 && name == WithDigit(plain, n, tail, d)
                                  && forall c :: 1 <= c < d ==> Taken(dir, WithDigit(plain, n, tail, c))
    ensures !found ==> name == WithDigit(plain, n, tail, 9)
  {
    name := plain;
    var baselen := n;
    if baselen > 6 {
      baselen := tail;
      name := name[7 := SPACE];
    }
    name := name[baselen := TILDE];
    ghost var was := name;
    var i := 1;
    while i < 10
      invariant 1 <= i <= 10 && |name| == 11
      invariant i == 1 ==> name == was
      invariant i > 1 ==> name == WithDigit(plain, n, tail, i - 1)
      invariant forall c :: 1 <= c < i ==> Taken(dir, WithDigit(plain, n, tail, c))
    {
      name := name[baselen + 1 := 0x30 + i];
      assert name == WithDigit(plain, n, tail, i);
      var err, at := Scan(dir, name);
      if err < 0 {
        return name, true;
      }
      i := i + 1;
    }
    found := false;
  }

  /** Numeric tails, from "~1" on. */
  method AddTail(dir: seq<DirEntry>, plain: seq<byte>, n: nat, ghost p: Plan, tail: nat, tail2: nat, jiffies: int)
    returns (name: seq<byte>)
    requires |plain| == 11 && n <= 8 && tail == p.tail <= 6 && tail2 == p.tail2 <= 2
    requires TailFree(dir, plain, n, p, jiffies)
    ensures |name| == 11 && name[8..] == plain[8..] && !Taken(dir, name)
    ensures FirstFreeTail(dir, plain, n, p, jiffies, name)
  {
    var found;
    name, found := SearchDigit(dir, plain, n, tail);
    if found {
      return;
    }
    var baselen := if n > 6 then tail else n;
    var sz := jiffies / 65536 % 8;
    if baselen > 2 {
      baselen := tail2;
      OneByte(name, 7, SPACE);
      name := name[7 := SPACE];
    }
    TwoBytes(name, baselen + 4, TILDE, 0x31 + sz);
    name := name[baselen + 4 := TILDE];
    name := name[baselen + 5 := 0x31 + sz];
    ghost var k;
    name, k := SearchHex(dir, name, baselen, jiffies);
  }

  /** Base and extension in place, the rest blank. */
  method Blank(b: seq<byte>, e: seq<byte>) returns (name: seq<byte>)
    requires 0 < |b| <= 8 && |e| <= 3
    ensures name == Pad(Escape(b), e)
  {
    var base := b;
    if base[0] == DELETED_FLAG {
      base := base[0 := 0x05];
    }
    assert base == Escape(b);
    name := base + Spaces(8 - |base|) + e + Spaces(3 - |e|);
  }

  /** Base, extension and flags of a name, and the plain 8.3 form. */
  method Dismantle(nls: Nls, uname: seq<word>)
    returns (plain: seq<byte>, baselen: nat, short: bool, base: ShortInfo, ext: ShortInfo, tail: nat, tail2: nat, ghost p: Plan)
    ensures IsPlan(nls, uname, p) && tail == p.tail && tail2 == p.tail2 && baselen == |Base(nls, uname, p)|
    ensures baselen > 0 ==> plain == Plain(nls, uname, p)
    ensures baselen > 0 ==> (short <==> IsShortName(nls, uname, p))
    ensures short ==> base == NoteAll(nls, uname[..p.sz]) && ext == NoteAll(nls, ExtPart(uname, p))
  {
    var sz, ext_start := SplitName(uname);
    var b, fits;
    b, tail, tail2, fits, base := BuildBase(nls, uname[..sz]);
    p := Plan(sz, ext_start, tail, tail2);
    plain, baselen, short, ext := [], |b|, false, ShortInfo(true, true, true);
    if baselen == 0 {
      return;
    }
    var e, extFits := [], true;
    if ext_start != -1 {
      e, extFits, ext := BuildExt(nls, uname[ext_start..]);
    }
    plain := Blank(b, e);
    short := fits && extFits && base.valid && ext.valid;
  }

  /** The last three bytes of a name are the extension that s leads to, and blanks. */
  ghost predicate EndsWithExt(nls: Nls, s: seq<word>, name: seq<byte>) {
    |name| == 11 && exists e :: IsExt(nls, s, e) && |e| <= 3 && name[8..] == e + Spaces(3 - |e|)
  }

  lemma PlainExt(nls: Nls, uname: seq<word>, p: Plan)
    requires p.sz <= |uname| && -1 <= p.ext <= |uname|
    ensures forall name :: |name| == 11 && name[8..] == Plain(nls, uname, p)[8..] ==> EndsWithExt(nls, ExtPart(uname, p), name)
  {
    var s := ExtPart(uname, p);
    assert s[0..] == s && s[..0] == [];
    ExtFromIsExt(nls, s, 0);
    PadExt(Base(nls, uname, p), ExtFrom(nls, s, []));
  }

  lemma PadExt(base: seq<byte>, ext: seq<byte>)
    requires |base| <= 8 && |ext| <= 3
    ensures Pad(base, ext)[8..] == ext + Spaces(3 - |ext|)
  {
    assert |base + Spaces(8 - |base|)| == 8;
  }

  /** A numeric tail is looked for: the name is no 8.3 name and, unless tails are always
      wanted, its plain form is taken. */
  ghost predicate NeedsTail(dir: seq<DirEntry>, nls: Nls, uname: seq<word>, p: Plan, numtail: bool)
    requires p.sz <= |uname| && -1 <= p.ext <= |uname|
  {
    Base(nls, uname, p) != [] && !IsShortName(nls, uname, p) && (numtail || Taken(dir, Plain(nls, uname, p)))
  }

  /** Where a tail is looked for, there is a free one. */
  ghost predicate HasTail(dir: seq<DirEntry>, nls: Nls, uname: seq<word>, numtail: bool, jiffies: int) {
    forall q {:trigger NeedsTail(dir, nls, uname, q, numtail)} :: IsPlan(nls, uname, q) && NeedsTail(dir, nls, uname, q, numtail)
      ==> TailFree(dir, Plain(nls, uname, q), |Base(nls, uname, q)|, q, jiffies)
  }

  /** So it is in every directory of fewer than 65536 entries. */
  lemma SmallHasTail(dir: seq<DirEntry>, nls: Nls, uname: seq<word>, numtail: bool, jiffies: int)
    requires |dir| < 65536
    ensures HasTail(dir, nls, uname, numtail, jiffies)
  {
    forall q | IsPlan(nls, uname, q)
      ensures TailFree(dir, Plain(nls, uname, q), |Base(nls, uname, q)|, q, jiffies)
    {
      TailsLeft(dir, Plain(nls, uname, q), |Base(nls, uname, q)|, q, jiffies);
    }
  }

  /** The name chosen in a directory: the plain form, or that with its first free tail. */
  ghost predicate IsAlias(dir: seq<DirEntry>, nls: Nls, uname: seq<word>, p: Plan, numtail: bool, jiffies: int, name: seq<byte>)
    requires IsPlan(nls, uname, p)
  {
    && EndsWithExt(nls, ExtPart(uname, p), name)
    && if NeedsTail(dir, nls, uname, p, numtail)
       then FirstFreeTail(dir, Plain(nls, uname, p), |Base(nls, uname, p)|, p, jiffies, name)
       else name == Plain(nls, uname, p)
  }

  /** vfat_create_shortname. */
  method CreateShortname(dir: seq<DirEntry>, nls: Nls, uname: seq<word>, create: Create, numtail: bool, jiffies: int)
    returns (err: int, name: seq<byte>, lcase: int, ghost p: Plan)
    requires HasTail(dir, nls, uname, numtail, jiffies)
    ensures IsPlan(nls, uname, p)
    ensures err == 0 || err == 1 || err == EINVAL || err == EEXIST
    ensures err == EINVAL <==> Base(nls, uname, p) == []
    ensures err == EEXIST <==> (Base(nls, uname, p) != [] && IsShortName(nls, uname, p) && Taken(dir, Plain(nls, uname, p)))
    ensures err >= 0 ==> |name| == MSDOS_NAME && name[8..] == Plain(nls, uname, p)[8..] && !Taken(dir, name)
    ensures err >= 0 ==> IsAlias(dir, nls, uname, p, numtail, jiffies, name)
    ensures err == 1 <==> (err >= 0 && IsShortName(nls, uname, p)
                           && CaseKept(create, NoteAll(nls, uname[..p.sz]), NoteAll(nls, ExtPart(uname, p))))
    ensures err >= 0 ==> lcase == (if err == 1 && create == WinNT
                                   then CaseBits(NoteAll(nls, uname[..p.sz]), NoteAll(nls, ExtPart(uname, p))) else 0)
  {
    var plain, baselen, short, base, ext, tail, tail2;
    plain, baselen, short, base, ext, tail, tail2, p := Dismantle(nls, uname);
    PlainExt(nls, uname, p);
    name, lcase := plain, 0;
    if baselen == 0 {
      return EINVAL, name, lcase, p;
    }
    if short {
      var found, at := Scan(dir, name);
      if found == 0 {
        return EEXIST, name, lcase, p;
      }
      match create {
        case Win95 =>
          err := if base.upper && ext.upper then 1 else 0;
        case WinNT =>
          err := 0;
          if (base.upper || base.lower) && (ext.upper || ext.lower) {
            if !base.upper && base.lower {
              lcase := lcase + CASE_LOWER_BASE;
            }
            if !ext.upper && ext.lower {
              lcase := lcase + CASE_LOWER_EXT;
            }
            err := 1;
          }
      }
      return;
    }
    if !numtail {
      var found, at := Scan(dir, name);
      if found < 0 {
        return 0, name, lcase, p;
      }
    }
    assert NeedsTail(dir, nls, uname, p, numtail);
    name := AddTail(dir, name, baselen, p, tail, tail2, jiffies);
    err := 0;
  }
}
