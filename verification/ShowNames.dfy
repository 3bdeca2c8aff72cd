/** How a directory listing prints an 8.3 entry (fat_short2uni, fat_short2lower_uni,
    fat_shortname2uni and the short-name part of __fat_readdir), and why an alias that is
    stored without a long name loses nothing. */
module ShowNames {
  import opened Packing
  import opened LongNames
  import opened ShortNames

  const QUESTION: word := 0x3F

  datatype Display = DisplayLower | DisplayWin95 | DisplayWinNT

  /** The reading half of a character set; char2uni yields a length and a character. */
  datatype Reader = Reader(char2uni: seq<byte> -> (int, word), lower: byte -> byte)

  function Short2Uni(r: Reader, rest: seq<byte>): (int, word) {
    if r.char2uni(rest).0 < 0 then (1, QUESTION) else r.char2uni(rest)
  }

  /** charset2lower, where zero stands for no change. */
  function LowerOf(r: Reader, c: byte): byte { if r.lower(c) == 0 then c else r.lower(c) }

  function Short2LowerUni(r: Reader, rest: seq<byte>): (int, word)
    requires rest != []
  {
    var (n, w) := r.char2uni(rest);
    if n < 0 then (1, QUESTION)
    else if n <= 1 then Short2Uni(r, [LowerOf(r, rest[0])])
    else (n, w)
  }

  function ShortName2Uni(r: Reader, rest: seq<byte>, display: Display, lower: bool): (int, word)
    requires rest != []
  {
    if display == DisplayLower || (display == DisplayWinNT && lower) then Short2LowerUni(r, rest) else Short2Uni(r, rest)
  }

  /** One part of the name: the characters so far, and how many of them to keep. */
  function Walk(r: Reader, part: seq<byte>, display: Display, lower: bool, buf: seq<word>, last: nat): (seq<word>, nat)
    decreases |part|
  {
    if part == [] || part[0] == 0 then (buf, last)
    else
      var (n, w) := ShortName2Uni(r, part, display, lower);
      var buf' := buf + [w];
      if n <= 1 then Walk(r, part[1..], display, lower, buf', if part[0] != SPACE then |buf'| else last)
      else Walk(r, part[if n < |part| then n else |part|..], display, lower, buf', |buf'|)
  }

  method PrintPart(r: Reader, part: seq<byte>, display: Display, lower: bool, buf0: seq<word>, last0: nat)
    returns (buf: seq<word>, last: nat)
    requires last0 <= |buf0|
    ensures (buf, last) == Walk(r, part, display, lower, buf0, last0) && last <= |buf|
  {
    buf, last := buf0, last0;
    var i := 0;
    while i < |part| && part[i] != 0
      invariant 0 <= i <= |part| && last <= |buf|
      invariant Walk(r, part[i..], display, lower, buf, last) == Walk(r, part, display, lower, buf0, last0)
    {
      var chl, w := ShortName2Uni(r, part[i..], display, lower).0, ShortName2Uni(r, part[i..], display, lower).1;
      buf := buf + [w];
      if chl <= 1 {
        assert part[i..][1..] == part[i + 1..];
        if part[i] != SPACE {
          last := |buf|;
        }
        i := i + 1;
      } else {
        last := |buf|;
        assert part[i..][if chl < |part| - i then chl else |part| - i..] == part[if i + chl < |part| then i + chl else |part|..];
        i := if i + chl < |part| then i + chl else |part|;
      }
    }
  }

  function Unescape(name: seq<byte>): seq<byte>
    requires |name| == 11
  {
    if name[0] == 0x05 then name[0 := DELETED_FLAG] else name
  }

  function Bit(lcase: int, mask: int): bool
    requires mask > 0
  {
    lcase / mask % 2 == 1
  }

  /** What the listing shows. */
  function Shown(r: Reader, name: seq<byte>, lcase: int, display: Display): seq<word>
    requires |name| == 11
  {
    var work := Unescape(name);
    var (b, n) := Walk(r, work[..8], display, Bit(lcase, CASE_LOWER_BASE), [], 0);
    if n > |b| then []
    else
      var (e, m) := Walk(r, work[8..], display, Bit(lcase, CASE_LOWER_EXT), b[..n] + [Short2Uni(r, [0x2E]).1], n);
      if m > |e| then [] else e[..m]
  }

  /** The short-name part of __fat_readdir. */
  method PrintShort(r: Reader, name: seq<byte>, lcase: int, display: Display) returns (out: seq<word>)
    requires |name| == 11
    ensures out == Shown(r, name, lcase, display)
  {
    var work := name;
    if work[0] == 0x05 {
      work := work[0 := DELETED_FLAG];
    }
    var buf, last := PrintPart(r, work[..8], display, Bit(lcase, CASE_LOWER_BASE), [], 0);
    buf := buf[..last] + [Short2Uni(r, [0x2E]).1];
    buf, last := PrintPart(r, work[8..], display, Bit(lcase, CASE_LOWER_EXT), buf, last);
    out := buf[..last];
  }

  // ----- what is written is what is shown

  predicate Graphic(c: byte) { 0x20 < c < 0x7F }

  /** Upper and lower case of a byte undo each other. */
  predicate CasePair(nls: Nls, r: Reader, c: byte) {
    && Graphic(nls.toupper(c))
    && (!nls.isalpha(nls.toupper(c)) ==> nls.toupper(c) == c && LowerOf(r, c) == c)
    && (nls.isalpha(nls.toupper(c)) && nls.toupper(c) != c ==> LowerOf(r, nls.toupper(c)) == c)
  }

  /** Reading undoes the writing of the single-byte character w. */
  ghost predicate ReadsBack(nls: Nls, r: Reader, w: word) {
    |nls.uni2char(w)| == 1 ==> forall rest: seq<byte> :: rest != [] && rest[0] == nls.uni2char(w)[0] ==> r.char2uni(rest) == (1, w)
  }

  ghost predicate OneByteEach(r: Reader, c: byte) {
    Graphic(c) || c == SPACE ==> forall rest: seq<byte> :: rest != [] && rest[0] == c ==> r.char2uni(rest).0 == 1
  }

  ghost predicate Matching(nls: Nls, r: Reader) {
    && (forall c: byte :: Graphic(c) ==> CasePair(nls, r, c))
    && (forall w: word :: ReadsBack(nls, r, w))
    && (forall c: byte :: OneByteEach(r, c))
    && nls.uni2char(DOT) == [0x2E] && nls.uni2char(0x20) == [SPACE] && LowerOf(r, SPACE) == SPACE
  }

  /** Control characters are not allowed in names (vfat_bad_char). */
  predicate NoControl(nls: Nls, s: seq<word>) {
    forall k :: 0 <= k < |s| && |nls.uni2char(s[k])| == 1 ==> nls.uni2char(s[k])[0] >= SPACE
  }

  /** Character w went into byte b without changing case, or with every letter raised. */
  predicate KeptAs(nls: Nls, w: word, b: byte, upper: bool, lower: bool) {
    && |nls.uni2char(w)| == 1 && nls.uni2char(w)[0] < 0x7F && !SkipChar(w)
    && b == nls.toupper(nls.uni2char(w)[0])
    && (upper && nls.isalpha(b) ==> b == nls.uni2char(w)[0])
    && (lower && nls.isalpha(b) ==> b != nls.uni2char(w)[0])
  }

  lemma {:induction false} FlagsMean(nls: Nls, s: seq<word>)
    requires NoteAll(nls, s).valid && (NoteAll(nls, s).upper || NoteAll(nls, s).lower)
    ensures |MapAll(nls, s)| == |s|
    ensures forall k :: 0 <= k < |s| ==>
      KeptAs(nls, s[k], MapAll(nls, s)[k], NoteAll(nls, s).upper, NoteAll(nls, s).lower)
  {
    if s != [] {
      FlagsMean(nls, s[..|s| - 1]);
    }
  }

  /** A character whose bytes go into the alias as they are, apart from their case. */
  predicate GoesIn(nls: Nls, w: word) { !SkipChar(w) && !ReplaceChar(w) && nls.uni2char(w) != [] }

  /** One byte below 0x7F which, if it is a letter, already is upper case or else is not. */
  predicate HasCase(nls: Nls, w: word, upper: bool) {
    |nls.uni2char(w)| == 1 && nls.uni2char(w)[0] < 0x7F
    && (nls.isalpha(nls.toupper(nls.uni2char(w)[0])) ==> (nls.toupper(nls.uni2char(w)[0]) == nls.uni2char(w)[0]) == upper)
  }

  /** When the flags are set. */
  lemma {:induction false} FlagsExact(nls: Nls, s: seq<word>)
    ensures NoteAll(nls, s).valid <==> forall k :: 0 <= k < |s| ==> GoesIn(nls, s[k])
    ensures NoteAll(nls, s).valid ==> (NoteAll(nls, s).upper <==> forall k :: 0 <= k < |s| ==> HasCase(nls, s[k], true))
    ensures NoteAll(nls, s).valid ==> (NoteAll(nls, s).lower <==> forall k :: 0 <= k < |s| ==> HasCase(nls, s[k], false))
  {
    if s != [] {
      var t, w := s[..|s| - 1], s[|s| - 1];
      FlagsExact(nls, t);
      assert s == t + [w];
    }
  }

  /** Part holds the characters s, of one or more bytes each, and then blanks. */
  ghost predicate Holds(r: Reader, part: seq<byte>, display: Display, lower: bool, s: seq<word>)
    decreases |part|
  {
    if part == [] then s == []
    else
      var (n, w) := ShortName2Uni(r, part, display, lower);
      if s == [] then part[0] == SPACE && n == 1 && Holds(r, part[1..], display, lower, [])
      else
        && 1 <= n <= |part| && w == s[0] && part[0] != 0 && (n == 1 ==> part[0] != SPACE)
        && Holds(r, part[n..], display, lower, s[1..])
  }

  lemma {:induction false} WalkBlanks(r: Reader, part: seq<byte>, display: Display, lower: bool, buf: seq<word>, last: nat)
    requires Holds(r, part, display, lower, []) && last <= |buf|
    ensures Walk(r, part, display, lower, buf, last).1 == last && buf <= Walk(r, part, display, lower, buf, last).0
    decreases |part|
  {
    if part != [] {
      WalkBlanks(r, part[1..], display, lower, buf + [ShortName2Uni(r, part, display, lower).1], last);
    }
  }

  /** What a part holds is what is shown of it. */
  lemma {:induction false} WalkShows(r: Reader, part: seq<byte>, display: Display, lower: bool, s: seq<word>, buf: seq<word>, last: nat)
    requires Holds(r, part, display, lower, s) && last <= |buf|
    ensures Walk(r, part, display, lower, buf, last).1 == (if s == [] then last else |buf| + |s|)
    ensures buf + s <= Walk(r, part, display, lower, buf, last).0
    decreases |part|
  {
    if s == [] {
      WalkBlanks(r, part, display, lower, buf, last);
    } else {
      var n := ShortName2Uni(r, part, display, lower).0;
      WalkShows(r, part[n..], display, lower, s[1..], buf + [s[0]], |buf| + 1);
      assert buf + s == buf + [s[0]] + s[1..];
    }
  }

  lemma {:induction false} CharsHold(nls: Nls, r: Reader, b: seq<byte>, n: nat, s: seq<word>, display: Display, bit: bool, f: ShortInfo)
    requires Matching(nls, r) && NoControl(nls, s) && display != DisplayLower
    requires (f.upper && !bit) || (f.lower && bit && display == DisplayWinNT)
    requires |b| == |s| && forall k :: 0 <= k < |s| ==> KeptAs(nls, s[k], b[k], f.upper, f.lower)
    ensures Holds(r, b + Spaces(n), display, bit, s) && (s != [] ==> Graphic(b[0]))
    decreases |b| + n
  {
    var part := b + Spaces(n);
    if s != [] {
      CharHolds(nls, r, s[0], part, display, bit, f);
      CharsHold(nls, r, b[1..], n, s[1..], display, bit, f);
      assert part[1..] == b[1..] + Spaces(n);
    } else if n > 0 {
      assert OneByteEach(r, SPACE) && part[0] == SPACE;
      assert bit && display == DisplayWinNT ==> [SPACE][0] == SPACE;
      CharsHold(nls, r, [], n - 1, [], display, bit, f);
      assert part[1..] == [] + Spaces(n - 1);
    }
  }

  lemma CharHolds(nls: Nls, r: Reader, w: word, rest: seq<byte>, display: Display, bit: bool, f: ShortInfo)
    requires Matching(nls, r) && rest != [] && display != DisplayLower
    requires |nls.uni2char(w)| == 1 ==> nls.uni2char(w)[0] >= SPACE
    requires KeptAs(nls, w, rest[0], f.upper, f.lower)
    requires (f.upper && !bit) || (f.lower && bit && display == DisplayWinNT)
    ensures Graphic(rest[0]) && ShortName2Uni(r, rest, display, bit) == (1, w)
  {
    var c, b := nls.uni2char(w)[0], rest[0];
    assert ReadsBack(nls, r, w) && ReadsBack(nls, r, 0x20);
    assert [c][0] == c && r.char2uni([c]) == (1, w);
    assert c == SPACE ==> r.char2uni([c]) == (1, 0x20);
    assert CasePair(nls, r, c);
    assert OneByteEach(r, b);
    if bit {
      assert LowerOf(r, b) == c;
    }
  }

  lemma {:induction false} MapAllFront(nls: Nls, s: seq<word>)
    requires s != []
    ensures MapAll(nls, s) == MapChar(nls, s[0]) + MapAll(nls, s[1..])
  {
    if |s| == 1 {
      assert s[..0] == [] == s[1..];
    } else {
      MapAllFront(nls, s[..|s| - 1]);
      assert s[..|s| - 1][1..] == s[1..][..|s| - 2];
    }
  }

  lemma {:induction false} ExtIsAll(nls: Nls, s: seq<word>, sofar: seq<byte>)
    requires |sofar| + |MapAll(nls, s)| <= 3
    requires forall k :: 0 <= k < |s| ==> MapChar(nls, s[k]) != []
    ensures ExtFrom(nls, s, sofar) == sofar + MapAll(nls, s)
    decreases |s|
  {
    if s != [] {
      MapAllFront(nls, s);
      ExtIsAll(nls, s[1..], sofar + MapChar(nls, s[0]));
    }
  }

  /** A part holds the characters it was made from. */
  lemma PartHolds(nls: Nls, r: Reader, s: seq<word>, b: seq<byte>, size: nat, display: Display, bit: bool)
    requires Matching(nls, r) && NoControl(nls, s) && display != DisplayLower && FitsShort(nls, s, size) && b == MapAll(nls, s)
    requires if bit then NoteAll(nls, s).lower && display == DisplayWinNT else NoteAll(nls, s).upper
    ensures Holds(r, b + Spaces(size - |b|), display, bit, s) && (s != [] ==> b != [] && Graphic(b[0]))
  {
    FlagsMean(nls, s);
    CharsHold(nls, r, b, size - |s|, s, display, bit, NoteAll(nls, s));
  }

  /** What a part shows behind buf. */
  lemma PartShows(r: Reader, part: seq<byte>, display: Display, lower: bool, s: seq<word>, buf: seq<word>, last: nat)
    requires Holds(r, part, display, lower, s) && last <= |buf|
    ensures var (c, n) := Walk(r, part, display, lower, buf, last);
      n == (if s == [] then last else |buf| + |s|) && n <= |c| && c[..n] == (buf + s)[..n]
  {
    WalkShows(r, part, display, lower, s, buf, last);
  }

  /** Two parts that hold s and e show as s, or as s.e */
  lemma PartsShow(r: Reader, b: seq<byte>, x: seq<byte>, lcase: int, display: Display, s: seq<word>, e: seq<word>)
    requires 0 < |b| <= 8 && |x| <= 3 && b[0] != 0x05 && s != [] && Short2Uni(r, [0x2E]).1 == DOT
    requires Holds(r, b + Spaces(8 - |b|), display, Bit(lcase, CASE_LOWER_BASE), s)
    requires Holds(r, x + Spaces(3 - |x|), display, Bit(lcase, CASE_LOWER_EXT), e)
    ensures Shown(r, Pad(b, x), lcase, display) == if e == [] then s else s + [DOT] + e
  {
    PadParts(b, x);
    PartShows(r, b + Spaces(8 - |b|), display, Bit(lcase, CASE_LOWER_BASE), s, [], 0);
    PartShows(r, x + Spaces(3 - |x|), display, Bit(lcase, CASE_LOWER_EXT), e, s + [DOT], |s|);
    assert ([] + s)[..|s|] == s;
    assert (s + [DOT] + e)[..|s|] == s;
  }

  /** A case bit is set exactly when the part was all lower case. */
  lemma BitsMean(create: Create, b: ShortInfo, e: ShortInfo, lcase: int)
    requires CaseKept(create, b, e) && lcase == if create == WinNT then CaseBits(b, e) else 0
    ensures Bit(lcase, CASE_LOWER_BASE) ==> b.lower && create == WinNT
    ensures !Bit(lcase, CASE_LOWER_BASE) ==> b.upper
    ensures Bit(lcase, CASE_LOWER_EXT) ==> e.lower && create == WinNT
    ensures !Bit(lcase, CASE_LOWER_EXT) ==> e.upper
  {
    assert lcase == 0 || lcase == 8 || lcase == 16 || lcase == 24;
  }

  /** The plain form of base s and extension e. */
  lemma PlainParts(nls: Nls, s: seq<word>, e: seq<word>)
    requires MapAll(nls, s) != [] && |MapAll(nls, s)| <= 8 && Graphic(MapAll(nls, s)[0])
    requires FitsShort(nls, e, 3)
    ensures Pad(Escape(Take(MapAll(nls, s), 8)), ExtFrom(nls, e, [])) == Pad(MapAll(nls, s), MapAll(nls, e))
  {
    ValidChars(nls, e);
    ExtIsAll(nls, e, []);
  }

  lemma {:induction false} ValidChars(nls: Nls, s: seq<word>)
    requires NoteAll(nls, s).valid
    ensures forall k :: 0 <= k < |s| ==> MapChar(nls, s[k]) != []
  {
    if s != [] {
      ValidChars(nls, s[..|s| - 1]);
    }
  }

  lemma PadParts(b: seq<byte>, x: seq<byte>)
    requires |b| <= 8 && |x| <= 3
    ensures Pad(b, x)[..8] == b + Spaces(8 - |b|) && Pad(b, x)[8..] == x + Spaces(3 - |x|)
    ensures b != [] ==> Pad(b, x)[0] == b[0]
  {
    assert Pad(b, x) == (b + Spaces(8 - |b|)) + (x + Spaces(3 - |x|));
  }

  lemma DotReads(nls: Nls, r: Reader)
    requires Matching(nls, r)
    ensures Short2Uni(r, [0x2E]).1 == DOT
  {
    assert ReadsBack(nls, r, DOT) && r.char2uni([0x2E]) == (1, DOT);
  }

  /** Parts are shown in lower case or not; nothing else of the display option counts. */
  lemma {:induction false} WalkSame(r: Reader, part: seq<byte>, d: Display, low: bool, d': Display, low': bool, buf: seq<word>, last: nat)
    requires (d == DisplayLower || (d == DisplayWinNT && low)) <==> (d' == DisplayLower || (d' == DisplayWinNT && low'))
    ensures Walk(r, part, d, low, buf, last) == Walk(r, part, d', low', buf, last)
    decreases |part|
  {
    if part != [] && part[0] != 0 {
      var (n, w) := ShortName2Uni(r, part, d, low);
      var buf' := buf + [w];
      if n <= 1 {
        WalkSame(r, part[1..], d, low, d', low', buf', if part[0] != SPACE then |buf'| else last);
      } else {
        WalkSame(r, part[if n < |part| then n else |part|..], d, low, d', low', buf', |buf'|);
      }
    }
  }

  /** The display option "lower" shows any entry as if both case bits were set, and "win95" as if
      none was. */
  lemma OptionsShow(r: Reader, name: seq<byte>, lcase: int)
    requires |name| == 11
    ensures Shown(r, name, lcase, DisplayLower) == Shown(r, name, CASE_LOWER_BASE + CASE_LOWER_EXT, DisplayWinNT)
    ensures Shown(r, name, lcase, DisplayWin95) == Shown(r, name, 0, DisplayWinNT)
  {
    var work := Unescape(name);
    var b, x := Bit(lcase, CASE_LOWER_BASE), Bit(lcase, CASE_LOWER_EXT);
    WalkSame(r, work[..8], DisplayLower, b, DisplayWinNT, true, [], 0);
    WalkSame(r, work[..8], DisplayWin95, b, DisplayWinNT, false, [], 0);
    var dot := [Short2Uni(r, [0x2E]).1];
    var (up, m) := Walk(r, work[..8], DisplayWin95, b, [], 0);
    var (low, n) := Walk(r, work[..8], DisplayLower, b, [], 0);
    if m <= |up| {
      WalkSame(r, work[8..], DisplayWin95, x, DisplayWinNT, false, up[..m] + dot, m);
    }
    if n <= |low| {
      WalkSame(r, work[8..], DisplayLower, x, DisplayWinNT, true, low[..n] + dot, n);
    }
  }

  /** Reading undoes the escape of a first byte 0xE5. */
  lemma EscapeUndone(b: seq<byte>, x: seq<byte>)
    requires 0 < |b| <= 8 && |x| <= 3 && b[0] != 0x05
    ensures Unescape(Pad(Escape(b), x)) == Pad(b, x)
  {
    assert Pad(Escape(b), x)[0] == Escape(b)[0];
  }

  /** So under "lower" a name without capitals shows as it is, whatever is in the case bits. */
  lemma LowerShowsName(nls: Nls, r: Reader, uname: seq<word>, p: Plan, lcase: int)
    requires Matching(nls, r) && NoControl(nls, uname)
    requires IsPlan(nls, uname, p) && Base(nls, uname, p) != [] && IsShortName(nls, uname, p)
    requires NoteAll(nls, uname[..p.sz]).lower && NoteAll(nls, ExtPart(uname, p)).lower
    ensures Shown(r, Plain(nls, uname, p), lcase, DisplayLower) == uname
  {
    SplitBack(nls, uname, p);
    BothShow(nls, r, uname[..p.sz], ExtPart(uname, p));
    PlainParts(nls, uname[..p.sz], ExtPart(uname, p));
    OptionsShow(r, Plain(nls, uname, p), lcase);
  }

  lemma BothShow(nls: Nls, r: Reader, s: seq<word>, e: seq<word>)
    requires Matching(nls, r) && NoControl(nls, s) && NoControl(nls, e) && s != [] && FitsShort(nls, s, 8) && FitsShort(nls, e, 3)
    requires NoteAll(nls, s).lower && NoteAll(nls, e).lower
    ensures MapAll(nls, s) != [] && 0x20 < MapAll(nls, s)[0] < 0x7F
    ensures Shown(r, Pad(MapAll(nls, s), MapAll(nls, e)), CASE_LOWER_BASE + CASE_LOWER_EXT, DisplayWinNT) == if e == [] then s else s + [DOT] + e
  {
    BothBits();
    PlainShows(nls, r, s, e, DisplayWinNT, CASE_LOWER_BASE + CASE_LOWER_EXT);
  }

  lemma BothBits()
    ensures Bit(CASE_LOWER_BASE + CASE_LOWER_EXT, CASE_LOWER_BASE) && Bit(CASE_LOWER_BASE + CASE_LOWER_EXT, CASE_LOWER_EXT)
  {
  }

  /** A split name is its base, or its base, a dot and its extension. */
  lemma SplitBack(nls: Nls, uname: seq<word>, p: Plan)
    requires IsPlan(nls, uname, p)
    ensures uname == if ExtPart(uname, p) == [] then uname[..p.sz] else uname[..p.sz] + [DOT] + ExtPart(uname, p)
  {
    if p.ext == -1 {
      assert uname[..p.sz] == uname;
    } else {
      assert uname[..p.sz] + [DOT] + uname[p.ext..] == uname;
    }
  }

  lemma PlainShows(nls: Nls, r: Reader, s: seq<word>, e: seq<word>, display: Display, lcase: int)
    requires Matching(nls, r) && NoControl(nls, s) && NoControl(nls, e) && display != DisplayLower
    requires s != [] && FitsShort(nls, s, 8) && FitsShort(nls, e, 3)
    requires if Bit(lcase, CASE_LOWER_BASE) then NoteAll(nls, s).lower && display == DisplayWinNT else NoteAll(nls, s).upper
    requires if Bit(lcase, CASE_LOWER_EXT) then NoteAll(nls, e).lower && display == DisplayWinNT else NoteAll(nls, e).upper
    ensures MapAll(nls, s) != [] && 0x20 < MapAll(nls, s)[0] < 0x7F
    ensures Shown(r, Pad(MapAll(nls, s), MapAll(nls, e)), lcase, display) == if e == [] then s else s + [DOT] + e
  {
    var b, x := MapAll(nls, s), MapAll(nls, e);
    PartHolds(nls, r, s, b, 8, display, Bit(lcase, CASE_LOWER_BASE));
    PartHolds(nls, r, e, x, 3, display, Bit(lcase, CASE_LOWER_EXT));
    DotReads(nls, r);
    PartsShow(r, b, x, lcase, display, s, e);
  }

  /** An alias for which vfat_create_shortname says that no long name need be stored shows
      as the very name that was asked for. */
  lemma AliasShowsName(nls: Nls, r: Reader, uname: seq<word>, p: Plan, create: Create, display: Display, lcase: int)
    requires Matching(nls, r) && NoControl(nls, uname)
    requires IsPlan(nls, uname, p) && Base(nls, uname, p) != [] && IsShortName(nls, uname, p)
    requires CaseKept(create, NoteAll(nls, uname[..p.sz]), NoteAll(nls, ExtPart(uname, p)))
    requires lcase == if create == WinNT then CaseBits(NoteAll(nls, uname[..p.sz]), NoteAll(nls, ExtPart(uname, p))) else 0
    requires display != DisplayLower && (create == WinNT ==> display == DisplayWinNT)
    ensures Shown(r, Plain(nls, uname, p), lcase, display) == uname
  {
    SplitBack(nls, uname, p);
    BitsMean(create, NoteAll(nls, uname[..p.sz]), NoteAll(nls, ExtPart(uname, p)), lcase);
    PlainShows(nls, r, uname[..p.sz], ExtPart(uname, p), display, lcase);
    PlainParts(nls, uname[..p.sz], ExtPart(uname, p));
  }
}
