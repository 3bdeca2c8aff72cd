/** 8.3 names of the plain MS-DOS driver: formatting a name for the disk (msdos_format_name)
    and printing it again (the short-name part of __fat_readdir). */
module DosNames {
  import opened Packing
  import opened LongNames
  import opened Machine
  import ShortNames

  datatype NameCheck = Relaxed | Normal | Strict
  datatype Opts = Opts(check: NameCheck, dotsOK: bool, nocase: bool)
  datatype Formatted = Refusal | Name(res: seq<byte>)

  const DOT: byte := 0x2E
  const SPACE: byte := 0x20

  /** strchr(bad_chars, c): also true of the NUL that ends the list. */
  predicate IsBad(c: byte) { c == 0x2A || c == 0x3F || c == 0x3C || c == 0x3E || c == 0x7C || c == 0x22 || c == 0 }

  predicate IsBadIfStrict(c: byte) { c == 0x2B || c == 0x3D || c == 0x2C || c == 0x3B || c == SPACE || c == 0 }

  predicate IsUpper(c: byte) { 0x41 <= c <= 0x5A }

  predicate IsLower(c: byte) { 0x61 <= c <= 0x7A }

  /** Not allowed anywhere in a name. */
  predicate Refused(o: Opts, c: byte) {
    || (o.check != Relaxed && IsBad(c)) || (o.check == Strict && IsBadIfStrict(c))
    || c < SPACE || c == 0x3A || c == 0x5C
  }

  /** The characters that are refused, as the driver lists them. */
  lemma RefusedChars(o: Opts, c: byte)
    ensures Refused(o, c) <==>
      || c as char < ' ' || c as char in ":\\"
      || (o.check != Relaxed && c as char in "*?<>|\"") || (o.check == Strict && c as char in "*?<>|\"+=,; ")
  {
  }

  function ToDisk(o: Opts, c: byte): byte { if !o.nocase && IsLower(c) then c - 32 else c }

  function ToShow(o: Opts, c: byte): byte { if !o.nocase && IsUpper(c) then c + 32 else c }

  /** On disk letters are capitals and in listings small, unless "nocase" leaves them alone; what
      is shown for a byte means the same byte on disk. */
  lemma CasesMeet(o: Opts, c: byte)
    ensures if o.nocase then ToDisk(o, c) == c == ToShow(o, c) else !IsLower(ToDisk(o, c)) && !IsUpper(ToShow(o, c))
    ensures ToDisk(o, ToShow(o, c)) == ToDisk(o, c) && ToShow(o, ToDisk(o, c)) == ToShow(o, c)
    ensures !IsUpper(c) && !IsLower(c) ==> ToDisk(o, c) == c == ToShow(o, c)
  {
  }

  // ----- formatting

  /** Where a part of the name ended: its bytes, the last character read, whether that was a
      blank, and what is left. */
  datatype Part = Broken | Part(walk: seq<byte>, c: byte, space: bool, rest: seq<byte>)

  function BasePart(o: Opts, s: seq<byte>, walk: seq<byte>, c: byte, space: bool): Part
    decreases |s|
  {
    if s == [] || |walk| >= 8 then Part(walk, c, space, s)
    else if Refused(o, s[0]) || (o.check == Strict && IsUpper(s[0])) then Broken
    else
      var c' := if walk == [] && s[0] == DELETED_FLAG then 0x05 else s[0];
      if c' == DOT then Part(walk, c', space, s[1..])
      else BasePart(o, s[1..], walk + [ToDisk(o, c')], c', c' == SPACE)
  }

  function ExtPart(o: Opts, s: seq<byte>, walk: seq<byte>, space: bool): Part
    decreases |s|
  {
    if s == [] || |walk| >= 3 then Part(walk, 0, space, s)
    else if Refused(o, s[0]) then Broken
    else if s[0] == DOT then (if o.check == Strict then Broken else Part(walk, DOT, space, s[1..]))
    else if o.check == Strict && IsUpper(s[0]) then Broken
    else ExtPart(o, s[1..], walk + [ToDisk(o, s[0])], s[0] == SPACE)
  }

  /** The first dot from here on, and what follows it; c is the character just read. */
  function SkipToDot(c: byte, s: seq<byte>): (byte, seq<byte>)
    decreases |s|
  {
    if c == DOT || s == [] then (c, s) else SkipToDot(s[0], s[1..])
  }

  /** From the end of the base on. */
  function FormatRest(o: Opts, b: Part): Formatted
    requires b.Part? && |b.walk| <= 8
  {
    if b.space || (o.check == Strict && b.rest != [] && b.c != DOT && b.rest[0] != DOT) then Refusal
    else
      var (c, rest) := SkipToDot(b.c, b.rest);
      if c != DOT then Name(b.walk + ShortNames.Spaces(11 - |b.walk|))
      else
        var e := ExtPart(o, rest, [], false);
        if e.Broken? || e.space || (o.check == Strict && e.rest != []) || |e.walk| > 3 then Refusal
        else Name(b.walk + ShortNames.Spaces(8 - |b.walk|) + e.walk + ShortNames.Spaces(3 - |e.walk|))
  }

  function Format(o: Opts, name: seq<byte>): Formatted {
    if name != [] && name[0] == DOT && !o.dotsOK then Refusal
    else
      var s := if name != [] && name[0] == DOT then name[1..] else name;
      var b := BasePart(o, s, [], 0, true);
      if b.Broken? || |b.walk| > 8 then Refusal else FormatRest(o, b)
  }

  /** What follows a full base is left over. */
  lemma {:induction false} BaseThen(o: Opts, b: seq<byte>, t: seq<byte>, walk: seq<byte>, c: byte, space: bool)
    requires |walk| + |b| == 8 && DOT !in b && (c != DOT || b != [])
    ensures var p := BasePart(o, b, walk, c, space);
      BasePart(o, b + t, walk, c, space) == (if p.Broken? then Broken else p.(rest := t)) && (p.Part? ==> p.c != DOT && |p.walk| == 8 && p.rest == [])
    decreases |b|
  {
    if b == [] {
      assert b + t == t;
    } else if !(Refused(o, b[0]) || (o.check == Strict && IsUpper(b[0]))) {
      var c' := if walk == [] && b[0] == DELETED_FLAG then 0x05 else b[0];
      assert (b + t)[1..] == b[1..] + t;
      BaseThen(o, b[1..], t, walk + [ToDisk(o, c')], c', c' == SPACE);
    }
  }

  lemma {:induction false} SkipOver(c: byte, junk: seq<byte>, t: seq<byte>)
    requires c != DOT && DOT !in junk
    ensures SkipToDot(c, junk + [DOT] + t) == (DOT, t) && SkipToDot(c, junk).0 != DOT
    decreases |junk|
  {
    var s := junk + [DOT] + t;
    if junk == [] {
      assert s[0] == DOT && s[1..] == t;
    } else {
      assert s[1..] == junk[1..] + [DOT] + t;
      SkipOver(junk[0], junk[1..], t);
    }
  }

  /** Characters of a base beyond the eighth are dropped, and the extension behind them is found
      all the same; in strict mode such names are refused. */
  lemma LongBaseIsCut(o: Opts, b: seq<byte>, junk: seq<byte>, x: seq<byte>)
    requires |b| == 8 && DOT !in b && DOT !in junk && junk != []
    ensures Format(o, b + junk + [DOT] + x) == if o.check == Strict then Refusal else Format(o, b + [DOT] + x)
    ensures Format(o, b + junk) == if o.check == Strict then Refusal else Format(o, b)
  {
    assert b[0] != DOT && junk[0] != DOT;
    assert b + junk + [DOT] + x == b + (junk + [DOT] + x) && b + [DOT] + x == b + ([DOT] + x) && [DOT] + x == [] + [DOT] + x;
    BaseThen(o, b, junk + [DOT] + x, [], 0, true);
    BaseThen(o, b, [DOT] + x, [], 0, true);
    BaseThen(o, b, junk, [], 0, true);
    var p := BasePart(o, b, [], 0, true);
    if p.Part? {
      SkipOver(p.c, junk, x);
      SkipOver(p.c, [], x);
    }
  }

  lemma {:induction false} ExtThen(o: Opts, x: seq<byte>, t: seq<byte>, walk: seq<byte>, space: bool)
    requires |walk| + |x| == 3 && DOT !in x
    ensures var p := ExtPart(o, x, walk, space);
      ExtPart(o, x + t, walk, space) == (if p.Broken? then Broken else p.(rest := t)) && (p.Part? ==> p.rest == [])
    decreases |x|
  {
    if x == [] {
      assert x + t == t;
    } else if !(Refused(o, x[0]) || (o.check == Strict && IsUpper(x[0]))) {
      assert (x + t)[1..] == x[1..] + t;
      ExtThen(o, x[1..], t, walk + [ToDisk(o, x[0])], x[0] == SPACE);
    }
  }

  /** So are characters of an extension beyond the third. */
  lemma LongExtIsCut(o: Opts, b: seq<byte>, x: seq<byte>, junk: seq<byte>)
    requires |b| == 8 && DOT !in b && |x| == 3 && DOT !in x && junk != []
    ensures Format(o, b + [DOT] + x + junk) == if o.check == Strict then Refusal else Format(o, b + [DOT] + x)
  {
    assert b[0] != DOT;
    assert b + [DOT] + x + junk == b + ([DOT] + (x + junk)) && b + [DOT] + x == b + ([DOT] + x);
    assert [DOT] + (x + junk) == [] + [DOT] + (x + junk) && [DOT] + x == [] + [DOT] + x;
    BaseThen(o, b, [DOT] + (x + junk), [], 0, true);
    BaseThen(o, b, [DOT] + x, [], 0, true);
    var p := BasePart(o, b, [], 0, true);
    if p.Part? {
      SkipOver(p.c, [], x + junk);
      SkipOver(p.c, [], x);
      ExtThen(o, x, junk, [], false);
    }
  }

  function Lowered(s: seq<byte>): (r: seq<byte>)
    ensures |r| == |s|
  {
    seq(|s|, k requires 0 <= k < |s| => if IsUpper(s[k]) then s[k] + 32 else s[k])
  }

  function LoweredPart(p: Part): Part {
    match p case Broken => Broken case Part(walk, c, space, rest) => Part(walk, if IsUpper(c) then c + 32 else c, space, Lowered(rest))
  }

  lemma {:induction false} BaseLowered(o: Opts, s: seq<byte>, walk: seq<byte>, c: byte, space: bool)
    requires o.check != Strict && !o.nocase
    ensures BasePart(o, Lowered(s), walk, if IsUpper(c) then c + 32 else c, space) == LoweredPart(BasePart(o, s, walk, c, space))
    decreases |s|
  {
    if s != [] && |walk| < 8 {
      assert Lowered(s)[1..] == Lowered(s[1..]);
      if !Refused(o, s[0]) {
        var c' := if walk == [] && s[0] == DELETED_FLAG then 0x05 else s[0];
        BaseLowered(o, s[1..], walk + [ToDisk(o, c')], c', c' == SPACE);
      }
    }
  }

  lemma {:induction false} ExtLowered(o: Opts, s: seq<byte>, walk: seq<byte>, space: bool)
    requires o.check != Strict && !o.nocase
    ensures ExtPart(o, Lowered(s), walk, space) == LoweredPart(ExtPart(o, s, walk, space))
    decreases |s|
  {
    if s != [] && |walk| < 3 {
      assert Lowered(s)[1..] == Lowered(s[1..]);
      if !Refused(o, s[0]) && s[0] != DOT {
        ExtLowered(o, s[1..], walk + [ToDisk(o, s[0])], s[0] == SPACE);
      }
    }
  }

  lemma {:induction false} SkipLowered(c: byte, s: seq<byte>)
    ensures var (d, t) := SkipToDot(c, s); SkipToDot(if IsUpper(c) then c + 32 else c, Lowered(s)) == (if IsUpper(d) then d + 32 else d, Lowered(t))
    decreases |s|
  {
    if c != DOT && s != [] {
      assert Lowered(s)[1..] == Lowered(s[1..]);
      SkipLowered(s[0], s[1..]);
    }
  }

  lemma RestLowered(o: Opts, b: Part)
    requires o.check != Strict && !o.nocase && b.Part? && |b.walk| <= 8
    ensures FormatRest(o, LoweredPart(b)) == FormatRest(o, b)
  {
    SkipLowered(b.c, b.rest);
    ExtLowered(o, SkipToDot(b.c, b.rest).1, [], false);
  }

  /** But in strict mode or with "nocase", capitals and small letters make the same name. */
  lemma CaseMakesNoName(o: Opts, name: seq<byte>)
    requires o.check != Strict && !o.nocase
    ensures Format(o, Lowered(name)) == Format(o, name)
  {
    var s := if name != [] && name[0] == DOT then name[1..] else name;
    assert Lowered(s) == if name != [] && name[0] == DOT then Lowered(name)[1..] else Lowered(name);
    BaseLowered(o, s, [], 0, true);
    var b := BasePart(o, s, [], 0, true);
    if b.Part? && |b.walk| <= 8 {
      RestLowered(o, b);
    }
  }

  method FormatBase(o: Opts, s: seq<byte>) returns (p: Part)
    ensures p == BasePart(o, s, [], 0, true) && (p.Part? ==> |p.walk| <= 8)
  {
    var walk, c: byte, space, i := [], 0, true, 0;
    while i < |s| && |walk| < 8
      invariant 0 <= i <= |s| && |walk| <= 8
      invariant BasePart(o, s[i..], walk, c, space) == BasePart(o, s, [], 0, true)
    {
      c := s[i];
      assert s[i..][1..] == s[i + 1..];
      i := i + 1;
      if o.check != Relaxed && IsBad(c) {
        return Broken;
      }
      if o.check == Strict && IsBadIfStrict(c) {
        return Broken;
      }
      if IsUpper(c) && o.check == Strict {
        return Broken;
      }
      if c < SPACE || c == 0x3A || c == 0x5C {
        return Broken;
      }
      if walk == [] && c == DELETED_FLAG {
        c := 0x05;
      }
      if c == DOT {
        return Part(walk, c, space, s[i..]);
      }
      space := c == SPACE;
      walk := walk + [ToDisk(o, c)];
    }
    p := Part(walk, c, space, s[i..]);
  }

  method FormatExt(o: Opts, s: seq<byte>) returns (p: Part)
    ensures p == ExtPart(o, s, [], false) && (p.Part? ==> |p.walk| <= 3)
  {
    var walk, space, i := [], false, 0;
    while i < |s| && |walk| < 3
      invariant 0 <= i <= |s| && |walk| <= 3
      invariant ExtPart(o, s[i..], walk, space) == ExtPart(o, s, [], false)
    {
      var c := s[i];
      assert s[i..][1..] == s[i + 1..];
      i := i + 1;
      if o.check != Relaxed && IsBad(c) {
        return Broken;
      }
      if o.check == Strict && IsBadIfStrict(c) {
        return Broken;
      }
      if c < SPACE || c == 0x3A || c == 0x5C {
        return Broken;
      }
      if c == DOT {
        if o.check == Strict {
          return Broken;
        }
        return Part(walk, DOT, space, s[i..]);
      }
      if IsUpper(c) && o.check == Strict {
        return Broken;
      }
      space := c == SPACE;
      walk := walk + [ToDisk(o, c)];
    }
    p := Part(walk, 0, space, s[i..]);
  }

  method FindDot(c0: byte, s: seq<byte>) returns (c: byte, rest: seq<byte>)
    ensures (c, rest) == SkipToDot(c0, s)
  {
    c := c0;
    var i := 0;
    while c != DOT && i < |s|
      invariant 0 <= i <= |s| && SkipToDot(c, s[i..]) == SkipToDot(c0, s)
      decreases |s| - i
    {
      assert s[i..][1..] == s[i + 1..];
      c := s[i];
      i := i + 1;
    }
    rest := s[i..];
  }

  /** msdos_format_name. The names "." and ".." never come here. */
  method FormatName(name: seq<byte>, o: Opts) returns (err: int, res: seq<byte>)
    requires |name| > 0
    ensures if err == 0 then Format(o, name) == Name(res) else err == EINVAL && Format(o, name) == Refusal
  {
    var s := name;
    if s[0] == DOT {
      if o.dotsOK {
        s := s[1..];
      } else {
        return EINVAL, [];
      }
    }
    var b := FormatBase(o, s);
    if b.Broken? || b.space {
      return EINVAL, [];
    }
    if o.check == Strict && b.rest != [] && b.c != DOT {
      if b.rest[0] != DOT {
        return EINVAL, [];
      }
    }
    var c, rest := FindDot(b.c, b.rest);
    if c != DOT {
      return 0, b.walk + ShortNames.Spaces(11 - |b.walk|);
    }
    var e := FormatExt(o, rest);
    if e.Broken? || e.space {
      return EINVAL, [];
    }
    if o.check == Strict && |e.rest| > 0 {
      return EINVAL, [];
    }
    return 0, b.walk + ShortNames.Spaces(8 - |b.walk|) + e.walk + ShortNames.Spaces(3 - |e.walk|);
  }

  // ----- printing

  /** One part of an entry as it is shown, up to its last character that is not a blank. */
  function ShowPart(o: Opts, part: seq<byte>, sofar: seq<byte>, kept: nat): (r: seq<byte>)
    requires kept <= |sofar|
    decreases |part|
  {
    if part == [] || part[0] == 0 then sofar[..kept]
    else
      var sofar' := sofar + [ToShow(o, part[0])];
      ShowPart(o, part[1..], sofar', if part[0] != SPACE then |sofar'| else kept)
  }

  method PrintPart(o: Opts, part: seq<byte>) returns (r: seq<byte>)
    ensures r == ShowPart(o, part, [], 0)
  {
    var out, last, i := [], 0, 0;
    while i < |part| && part[i] != 0
      invariant 0 <= i <= |part| && 0 <= last <= |out|
      invariant ShowPart(o, part[i..], out, last) == ShowPart(o, part, [], 0)
    {
      var c := part[i];
      assert part[i..][1..] == part[i + 1..];
      out := out + [ToShow(o, c)];
      i := i + 1;
      if c != SPACE {
        last := |out|;
      }
    }
    r := out[..last];
  }

  function Show(o: Opts, e: seq<byte>, hidden: bool): seq<byte>
    requires |e| == 11
  {
    var work := if e[0] == 0x05 then e[0 := DELETED_FLAG] else e;
    var b, x := ShowPart(o, work[..8], [], 0), ShowPart(o, work[8..], [], 0);
    (if o.dotsOK && hidden then [DOT] else []) + b + if x == [] then [] else [DOT] + x
  }

  /** The short-name part of __fat_readdir, for single-byte characters. */
  method PrintName(o: Opts, e: seq<byte>, hidden: bool) returns (r: seq<byte>)
    requires |e| == 11
    ensures r == Show(o, e, hidden)
  {
    var work := e;
    if work[0] == 0x05 {
      work := work[0 := DELETED_FLAG];
    }
    r := if o.dotsOK && hidden then [DOT] else [];
    var b := PrintPart(o, work[..8]);
    var x := PrintPart(o, work[8..]);
    r := r + b;
    if |x| > 0 {
      r := r + ([DOT] + x);
    }
  }

  // ----- formatting what was printed

  /** A byte on disk that is shown as a character which comes back as that byte. */
  predicate Kept(o: Opts, x: byte) {
    var c := ToShow(o, x);
    x != 0 && !Refused(o, c) && !(o.check == Strict && IsUpper(c)) && c != DOT && ToDisk(o, c) == x
  }

  lemma CharKept(o: Opts, c: byte)
    requires !Refused(o, c) && !(o.check == Strict && IsUpper(c)) && c != DOT
    ensures Kept(o, ToDisk(o, c)) && (ToDisk(o, c) == SPACE <==> c == SPACE)
  {
  }

  /** The characters of a part as they stand on disk; only the first of the base may be 0x05. */
  predicate PartKept(o: Opts, s: seq<byte>) { forall k :: 0 <= k < |s| ==> Kept(o, s[k]) }

  function Unescaped(s: seq<byte>): seq<byte> {
    if s != [] && s[0] == 0x05 then s[0 := DELETED_FLAG] else s
  }

  predicate Ended(s: seq<byte>, space: bool) { s != [] ==> (space <==> s[|s| - 1] == SPACE) }

  /** The base so far: what it is shown as comes back. */
  ghost predicate BaseSoFar(o: Opts, walk: seq<byte>, space: bool) {
    && |walk| <= 8 && PartKept(o, Unescaped(walk)) && Ended(walk, space)
    && (if walk == [] then space else walk[0] != DELETED_FLAG)
  }

  lemma BaseGrows(o: Opts, walk: seq<byte>, space: bool, c: byte)
    requires BaseSoFar(o, walk, space) && |walk| < 8
    requires !Refused(o, c) && !(o.check == Strict && IsUpper(c)) && c != DOT
    ensures var c' := if walk == [] && c == DELETED_FLAG then 0x05 else c;
      BaseSoFar(o, walk + [ToDisk(o, c')], c' == SPACE)
  {
    CharKept(o, c);
    var c' := if walk == [] && c == DELETED_FLAG then 0x05 else c;
    var walk' := walk + [ToDisk(o, c')];
    forall k | 0 <= k < |walk'|
      ensures Kept(o, Unescaped(walk')[k])
    {
      if k < |walk| {
        assert Unescaped(walk')[k] == Unescaped(walk)[k];
      }
    }
  }

  lemma {:induction false} BaseKept(o: Opts, s: seq<byte>, walk: seq<byte>, c: byte, space: bool)
    requires BaseSoFar(o, walk, space)
    ensures var p := BasePart(o, s, walk, c, space); p.Part? ==> BaseSoFar(o, p.walk, p.space)
    decreases |s|
  {
    if s != [] && |walk| < 8 && !Refused(o, s[0]) && !(o.check == Strict && IsUpper(s[0])) && s[0] != DOT {
      BaseGrows(o, walk, space, s[0]);
      var c' := if walk == [] && s[0] == DELETED_FLAG then 0x05 else s[0];
      BaseKept(o, s[1..], walk + [ToDisk(o, c')], c', c' == SPACE);
    }
  }

  lemma {:induction false} ExtKept(o: Opts, s: seq<byte>, walk: seq<byte>, space: bool)
    requires PartKept(o, walk) && Ended(walk, space) && |walk| <= 3
    ensures var p := ExtPart(o, s, walk, space);
      p.Part? ==> PartKept(o, p.walk) && Ended(p.walk, p.space) && |p.walk| <= 3
    decreases |s|
  {
    if s != [] && |walk| < 3 && !Refused(o, s[0]) && !(o.check == Strict && IsUpper(s[0])) && s[0] != DOT {
      CharKept(o, s[0]);
      ExtKept(o, s[1..], walk + [ToDisk(o, s[0])], s[0] == SPACE);
    }
  }

  /** What a formatted name looks like: base b and extension x, padded with blanks. */
  ghost predicate Canonical(o: Opts, b: seq<byte>, x: seq<byte>) {
    && 0 < |b| <= 8 && |x| <= 3 && PartKept(o, Unescaped(b)) && PartKept(o, x) && b[0] != DELETED_FLAG
    && b[|b| - 1] != SPACE && (x != [] ==> x[|x| - 1] != SPACE)
  }

  /** Every name that is accepted comes out in that form. */
  lemma FormatIsCanonical(o: Opts, name: seq<byte>) returns (b: seq<byte>, x: seq<byte>)
    requires Format(o, name).Name?
    ensures Canonical(o, b, x) && Format(o, name).res == ShortNames.Pad(b, x)
  {
    var s := if name != [] && name[0] == DOT then name[1..] else name;
    BaseKept(o, s, [], 0, true);
    var p := BasePart(o, s, [], 0, true);
    var (c, rest) := SkipToDot(p.c, p.rest);
    b, x := p.walk, [];
    if c == DOT {
      ExtKept(o, rest, [], false);
      x := ExtPart(o, rest, [], false).walk;
    } else {
      assert b + ShortNames.Spaces(11 - |b|) == ShortNames.Pad(b, []);
    }
  }

  function Shows(o: Opts, s: seq<byte>): (r: seq<byte>)
    ensures |r| == |s|
  {
    seq(|s|, k requires 0 <= k < |s| => ToShow(o, s[k]))
  }

  lemma {:induction false} ShowBlanks(o: Opts, n: nat, sofar: seq<byte>, kept: nat)
    requires kept <= |sofar|
    ensures ShowPart(o, ShortNames.Spaces(n), sofar, kept) == sofar[..kept]
  {
    if n > 0 {
      assert ShortNames.Spaces(n)[1..] == ShortNames.Spaces(n - 1);
      ShowBlanks(o, n - 1, sofar + [ToShow(o, SPACE)], kept);
      assert (sofar + [ToShow(o, SPACE)])[..kept] == sofar[..kept];
    }
  }

  /** A part that does not end in a blank is shown without its padding. */
  lemma {:induction false} ShowPadded(o: Opts, s: seq<byte>, n: nat, sofar: seq<byte>, kept: nat)
    requires kept <= |sofar| && (s == [] ==> kept == |sofar|) && (s != [] ==> s[|s| - 1] != SPACE)
    requires forall k :: 0 <= k < |s| ==> s[k] != 0
    ensures ShowPart(o, s + ShortNames.Spaces(n), sofar, kept) == sofar + Shows(o, s)
    decreases |s|
  {
    if s == [] {
      assert s + ShortNames.Spaces(n) == ShortNames.Spaces(n);
      ShowBlanks(o, n, sofar, kept);
    } else {
      assert (s + ShortNames.Spaces(n))[1..] == s[1..] + ShortNames.Spaces(n);
      var sofar' := sofar + [ToShow(o, s[0])];
      ShowPadded(o, s[1..], n, sofar', if s[0] != SPACE then |sofar'| else kept);
      assert sofar' + Shows(o, s[1..]) == sofar + Shows(o, s);
    }
  }

  lemma WorkParts(b: seq<byte>, x: seq<byte>)
    requires 0 < |b| <= 8 && |x| <= 3
    ensures var e := ShortNames.Pad(b, x);
      var work := if e[0] == 0x05 then e[0 := DELETED_FLAG] else e;
      work[..8] == Unescaped(b) + ShortNames.Spaces(8 - |b|) && work[8..] == x + ShortNames.Spaces(3 - |x|)
  {
    assert ShortNames.Pad(b, x) == (b + ShortNames.Spaces(8 - |b|)) + (x + ShortNames.Spaces(3 - |x|));
  }

  lemma ShowCanonical(o: Opts, b: seq<byte>, x: seq<byte>, hidden: bool)
    requires Canonical(o, b, x)
    ensures Show(o, ShortNames.Pad(b, x), hidden) ==
      (if o.dotsOK && hidden then [DOT] else []) + Shows(o, Unescaped(b)) + (if x == [] then [] else [DOT] + Shows(o, x))
  {
    var u := Unescaped(b);
    WorkParts(b, x);
    assert forall k :: 0 <= k < |u| ==> Kept(o, u[k]);
    assert u[|u| - 1] != SPACE;
    PartAlone(o, u, 8 - |b|);
    PartAlone(o, x, 3 - |x|);
  }

  lemma PartAlone(o: Opts, s: seq<byte>, n: nat)
    requires s != [] ==> s[|s| - 1] != SPACE
    requires forall k :: 0 <= k < |s| ==> s[k] != 0
    ensures ShowPart(o, s + ShortNames.Spaces(n), [], 0) == Shows(o, s)
  {
    ShowPadded(o, s, n, [], 0);
    assert [] + Shows(o, s) == Shows(o, s);
  }

  /** Reading the base back after its first character: all of it, and the dot if that is
      still read here. */
  lemma {:induction false} BaseComesBack(o: Opts, u: seq<byte>, tail: seq<byte>, walk: seq<byte>, c: byte, space: bool)
    requires walk != [] && |walk| + |u| <= 8 && PartKept(o, u) && c != DOT && (tail == [] || tail[0] == DOT)
    ensures var p := BasePart(o, Shows(o, u) + tail, walk, c, space);
      && p.Part? && p.walk == walk + u && p.space == (if u == [] then space else u[|u| - 1] == SPACE)
      && (if |walk + u| < 8 && tail != [] then p.c == DOT && p.rest == tail[1..] else p.c != DOT && p.rest == tail)
    decreases |u|
  {
    var s := Shows(o, u) + tail;
    if u == [] {
      assert s == tail && walk + [] == walk;
    } else {
      assert Kept(o, u[0]) && s[0] == ToShow(o, u[0]) && s[1..] == Shows(o, u[1..]) + tail;
      BaseComesBack(o, u[1..], tail, walk + [u[0]], s[0], s[0] == SPACE);
      assert walk + [u[0]] + u[1..] == walk + u;
    }
  }

  lemma {:induction false} ExtComesBack(o: Opts, x: seq<byte>, walk: seq<byte>, space: bool)
    requires |walk| + |x| <= 3 && PartKept(o, x)
    ensures var p := ExtPart(o, Shows(o, x), walk, space);
      p.Part? && p.walk == walk + x && p.rest == [] && p.space == (if x == [] then space else x[|x| - 1] == SPACE)
    decreases |x|
  {
    if x == [] {
      assert walk + [] == walk;
    } else {
      var s := Shows(o, x);
      assert Kept(o, x[0]) && s[0] == ToShow(o, x[0]) && s[1..] == Shows(o, x[1..]);
      ExtComesBack(o, x[1..], walk + [x[0]], s[0] == SPACE);
      assert walk + [x[0]] + x[1..] == walk + x;
    }
  }

  /** The whole base, its first character included, where 0xE5 and 0x05 stand for each other. */
  lemma WholeBaseComesBack(o: Opts, b: seq<byte>, tail: seq<byte>)
    requires 0 < |b| <= 8 && PartKept(o, Unescaped(b)) && b[0] != DELETED_FLAG && (tail == [] || tail[0] == DOT)
    ensures var p := BasePart(o, Shows(o, Unescaped(b)) + tail, [], 0, true);
      && p.Part? && p.walk == b && p.space == (b[|b| - 1] == SPACE)
      && (if |b| < 8 && tail != [] then p.c == DOT && p.rest == tail[1..] else p.c != DOT && p.rest == tail)
  {
    var u := Unescaped(b);
    var s := Shows(o, u) + tail;
    assert Kept(o, u[0]) && s[0] == ToShow(o, u[0]) && s[1..] == Shows(o, b[1..]) + tail;
    forall k | 0 <= k < |b| - 1
      ensures Kept(o, b[1..][k])
    {
      assert b[1..][k] == u[k + 1];
    }
    var c := if s[0] == DELETED_FLAG then 0x05 else s[0];
    BaseComesBack(o, b[1..], tail, [b[0]], c, c == SPACE);
    assert [b[0]] + b[1..] == b && [] + [ToDisk(o, c)] == [b[0]];
  }

  lemma FormatShown(o: Opts, b: seq<byte>, x: seq<byte>, s: seq<byte>)
    requires Canonical(o, b, x) && s == Shows(o, Unescaped(b)) + if x == [] then [] else [DOT] + Shows(o, x)
    ensures var p := BasePart(o, s, [], 0, true);
      p.Part? && |p.walk| <= 8 && FormatRest(o, p) == Name(ShortNames.Pad(b, x))
  {
    var tail := if x == [] then [] else [DOT] + Shows(o, x);
    WholeBaseComesBack(o, b, tail);
    var p := BasePart(o, s, [], 0, true);
    if x == [] {
      assert b + ShortNames.Spaces(11 - |b|) == ShortNames.Pad(b, []);
    } else {
      assert tail[1..] == Shows(o, x);
      assert SkipToDot(p.c, p.rest) == (DOT, Shows(o, x));
      ExtComesBack(o, x, [], false);
      assert [] + x == x;
    }
  }

  /** Printing an entry that was made from a name and formatting it again gives that entry,
      whatever the name was and whichever options are set. */
  lemma PrintThenFormat(o: Opts, name: seq<byte>, hidden: bool)
    requires Format(o, name).Name?
    ensures |Format(o, name).res| == 11
    ensures Format(o, Show(o, Format(o, name).res, hidden)) == Format(o, name)
  {
    var b, x := FormatIsCanonical(o, name);
    ShowCanonical(o, b, x, hidden);
    var s := Shows(o, Unescaped(b)) + if x == [] then [] else [DOT] + Shows(o, x);
    FormatShown(o, b, x, s);
    assert Kept(o, Unescaped(b)[0]) && s[0] == ToShow(o, Unescaped(b)[0]) && s[0] != DOT;
    if o.dotsOK && hidden {
      assert Show(o, ShortNames.Pad(b, x), hidden) == [DOT] + s;
      assert ([DOT] + s)[1..] == s;
    } else {
      assert Show(o, ShortNames.Pad(b, x), hidden) == s by {
        assert [] + Shows(o, Unescaped(b)) == Shows(o, Unescaped(b));
      }
    }
  }
}
