/** How one FAT copy packs its entries into bytes (12, 16 or 28 of 32 bits per entry),
    as a codec on a flat byte sequence.  `FatDevice` shows that the block-wise code
    in fatent.c computes exactly this codec. */
module Packing {

  type byte = x: int | 0 <= x < 256

  datatype Kind = Fat12 | Fat16 | Fat32

  const FAT_START_ENT := 2
  const FAT_ENT_FREE := 0
  const FAT_ENT_EOF := 0x0FFF_FFFF

  /** Stored values from this one on read back as end-of-chain. */
  function BadMark(k: Kind): int {
    match k case Fat12 => 0xFF7 case Fat16 => 0xFFF7 case Fat32 => 0x0FFF_FFF7
  }

  function EofMark(k: Kind): int {
    match k case Fat12 => 0xFFF case Fat16 => 0xFFFF case Fat32 => 0x0FFF_FFFF
  }

  /** One more than the largest value an entry has bits for. */
  function ValueLimit(k: Kind): int {
    match k case Fat12 => 0x1000 case Fat16 => 0x1_0000 case Fat32 => 0x1000_0000
  }

  /** First byte of entry e. */
  function Offset(k: Kind, e: nat): nat {
    match k case Fat12 => e + e / 2 case Fat16 => 2 * e case Fat32 => 4 * e
  }

  /** Number of bytes an entry touches. */
  function Width(k: Kind): nat {
    match k case Fat12 => 2 case Fat16 => 2 case Fat32 => 4
  }

  predicate Storable(k: Kind, v: int) {
    v == FAT_ENT_EOF || 0 <= v < ValueLimit(k)
  }

  /** Values that survive a write and a read. */
  predicate Legal(k: Kind, v: int) {
    v == FAT_ENT_EOF || 0 <= v < BadMark(k)
  }

  function Stored(k: Kind, v: int): int {
    if v == FAT_ENT_EOF then EofMark(k) else v
  }

  function Normalize(k: Kind, raw: int): int {
    if raw >= BadMark(k) then FAT_ENT_EOF else raw
  }

  // ----- the bytes of one entry, as fat12/16/32_ent_get and _put compute them

  function Raw12(e: nat, b0: byte, b1: byte): int {
    if e % 2 == 1 then b0 / 16 + b1 * 16 else (b1 * 256 + b0) % 4096
  }

  function Put12Lo(e: nat, b0: byte, v: int): byte
    requires 0 <= v < 4096
  {
    if e % 2 == 1 then (v * 16) % 256 + b0 % 16 else v % 256
  }

  function Put12Hi(e: nat, b1: byte, v: int): byte
    requires 0 <= v < 4096
  {
    if e % 2 == 1 then v / 16 else (b1 / 16) * 16 + v / 256
  }

  function Raw16(b0: byte, b1: byte): int { b0 + 256 * b1 }

  function Raw32(b0: byte, b1: byte, b2: byte, b3: byte): int {
    b0 + 0x100 * b1 + 0x1_0000 * b2 + 0x100_0000 * (b3 % 16)
  }

  /** Byte j of the little-endian value, with the reserved top four bits kept. */
  function Put32Byte(j: nat, b: byte, v: int): byte
    requires 0 <= v < 0x1000_0000 && j < 4
  {
    if j == 0 then v % 0x100
    else if j == 1 then v / 0x100 % 0x100
    else if j == 2 then v / 0x1_0000 % 0x100
    else (b / 16) * 16 + v / 0x100_0000
  }

  // ----- the codec on a whole FAT copy

  predicate Fits(k: Kind, s: seq<byte>, e: nat) {
    Offset(k, e) + Width(k) <= |s|
  }

  function GetAt(k: Kind, s: seq<byte>, e: nat): (v: int)
    requires Fits(k, s, e)
    ensures 0 <= v && Legal(k, v)
  {
    var o := Offset(k, e);
    Normalize(k, match k
      case Fat12 => Raw12(e, s[o], s[o + 1])
      case Fat16 => Raw16(s[o], s[o + 1])
      case Fat32 => Raw32(s[o], s[o + 1], s[o + 2], s[o + 3]))
  }

  function PutAt(k: Kind, s: seq<byte>, e: nat, val: int): (r: seq<byte>)
    requires Fits(k, s, e) && Storable(k, val)
    ensures |r| == |s|
  {
    var o := Offset(k, e);
    var v := Stored(k, val);
    match k
    case Fat12 => s[o := Put12Lo(e, s[o], v)][o + 1 := Put12Hi(e, s[o + 1], v)]
    case Fat16 => s[o := v % 0x100][o + 1 := v / 0x100]
    case Fat32 =>
      s[o := Put32Byte(0, s[o], v)][o + 1 := Put32Byte(1, s[o + 1], v)]
       [o + 2 := Put32Byte(2, s[o + 2], v)][o + 3 := Put32Byte(3, s[o + 3], v)]
  }

  /** The number that bytes stand for, lowest byte first. */
  function Le(s: seq<byte>): nat {
    if s == [] then 0
    else
      var b: int := s[0];
      b + 0x100 * Le(s[1..])
  }

  lemma LeFour(s: seq<byte>, o: nat)
    requires o + 2 <= |s|
    ensures Le(s[o..o + 2]) == Raw16(s[o], s[o + 1])
    ensures o + 3 <= |s| ==> var b2: int := s[o + 2]; Le(s[o..o + 3]) == Raw16(s[o], s[o + 1]) + 0x1_0000 * b2
    ensures o + 4 <= |s| ==> var b2: int, b3: int := s[o + 2], s[o + 3];
      Le(s[o..o + 4]) == Raw16(s[o], s[o + 1]) + 0x1_0000 * b2 + 0x100_0000 * b3
  {
    LeStep(s, o, o + 2);
    LeStep(s, o + 1, o + 2);
    if o + 3 <= |s| {
      LeStep(s, o, o + 3);
      LeStep(s, o + 1, o + 3);
      LeStep(s, o + 2, o + 3);
    }
    if o + 4 <= |s| {
      LeStep(s, o, o + 4);
      LeStep(s, o + 1, o + 4);
      LeStep(s, o + 2, o + 4);
      LeStep(s, o + 3, o + 4);
    }
  }

  lemma LeStep(s: seq<byte>, o: nat, end: nat)
    requires o < end <= |s|
    ensures var b: int := s[o]; Le(s[o..end]) == b + 0x100 * Le(s[o + 1..end]) && (o + 1 == end ==> Le(s[o + 1..end]) == 0)
  {
    assert s[o..end][1..] == s[o + 1..end];
  }

  /** Two FAT12 entries are the halves of three bytes; the others are the number in two or four
      bytes of their own, of which FAT32 leaves the top four bits out. */
  lemma EntryBits(k: Kind, s: seq<byte>, e: nat)
    requires Fits(k, s, e)
    ensures k == Fat12 && e % 2 == 0 ==> var o := e / 2 * 3;
      Offset(k, e) == o && GetAt(k, s, e) == Normalize(k, Le(s[o..o + 2]) % 0x1000)
    ensures k == Fat12 && e % 2 == 1 ==> var o := e / 2 * 3;
      Offset(k, e) == o + 1 && GetAt(k, s, e) == Normalize(k, Le(s[o..o + 3]) / 0x1000)
    ensures k == Fat16 ==> var o := 2 * e; Offset(k, e) == o && GetAt(k, s, e) == Normalize(k, Le(s[o..o + 2]))
    ensures k == Fat32 ==> var o := 4 * e; Offset(k, e) == o && GetAt(k, s, e) == Normalize(k, Le(s[o..o + 4]) % 0x1000_0000)
  {
    match k {
      case Fat12 =>
        var o := e / 2 * 3;
        LeFour(s, o);
        if e % 2 == 0 {
          assert Raw12(e, s[o], s[o + 1]) == Raw16(s[o], s[o + 1]) % 0x1000;
        } else {
          Raw12Odd(e, s[o], s[o + 1], s[o + 2]);
        }
      case Fat16 => LeFour(s, 2 * e);
      case Fat32 =>
        LeFour(s, 4 * e);
        TopBits(Le(s[4 * e..4 * e + 3]), s[4 * e + 3]);
    }
  }

  lemma Raw12Odd(e: nat, b0: byte, b1: byte, b2: byte)
    requires e % 2 == 1
    ensures var top: int := b2; Raw12(e, b1, b2) == (Raw16(b0, b1) + 0x1_0000 * top) / 0x1000
  {
    var low: int, top: int := b1, b2;
    assert Raw16(b0, b1) + 0x1_0000 * top == (low / 16 + top * 16) * 0x1000 + (low % 16 * 256 + b0);
  }

  lemma TopBits(low: nat, b: byte)
    requires low < 0x100_0000
    ensures var top: int := b; (low + 0x100_0000 * top) % 0x1000_0000 == low + 0x100_0000 * (top % 16)
  {
    var top: int := b;
    assert low + 0x100_0000 * top == (top / 16) * 0x1000_0000 + (low + 0x100_0000 * (top % 16));
  }

  lemma Raw12OfPut(e: nat, b0: byte, b1: byte, v: int)
    requires 0 <= v < 4096
    ensures Raw12(e, Put12Lo(e, b0, v), Put12Hi(e, b1, v)) == v
  {
    if e % 2 == 1 {
      assert Put12Lo(e, b0, v) / 16 == v % 16;
    } else {
      assert Put12Hi(e, b1, v) % 16 == v / 256;
    }
  }

  lemma Raw32OfPut(v: int, b3: byte)
    requires 0 <= v < 0x1000_0000
    ensures Raw32(v % 0x100, v / 0x100 % 0x100, v / 0x1_0000 % 0x100, (b3 / 16) * 16 + v / 0x100_0000) == v
  {
    var q := v / 0x1_0000;
    assert v / 0x100 % 0x100 == v / 0x100 - 0x100 * q;
    assert v / 0x100_0000 == q / 0x100;
    assert v / 0x1_0000 % 0x100 == q - 0x100 * (q / 0x100);
  }

  /** A stored value is read back unchanged exactly when it is below the BAD mark
      (or is the end-of-chain value itself). */
  lemma PutGet(k: Kind, s: seq<byte>, e: nat, v: int)
    requires Fits(k, s, e) && Storable(k, v)
    ensures GetAt(k, PutAt(k, s, e, v), e) == v <==> Legal(k, v)
  {
    var o := Offset(k, e);
    match k {
      case Fat12 => Raw12OfPut(e, s[o], s[o + 1], Stored(k, v));
      case Fat16 =>
      case Fat32 => Raw32OfPut(Stored(k, v), s[o + 3]);
    }
  }

  /** Where two FAT12 entries share a byte, a write keeps the other one's nibble. */
  lemma Put12KeepsNeighbour(e: nat, b0: byte, b1: byte, v: int)
    requires 0 <= v < 4096
    ensures e % 2 == 1 ==> Put12Lo(e, b0, v) % 16 == b0 % 16
    ensures e % 2 == 0 ==> Put12Hi(e, b1, v) / 16 == b1 / 16
  {
    if e % 2 == 1 {
      assert (v * 16) % 256 == 16 * (v % 16);
    }
  }

  lemma Raw12Depends(e: nat, b0: byte, b1: byte, c0: byte, c1: byte)
    requires if e % 2 == 1 then b0 / 16 == c0 / 16 && b1 == c1 else b0 == c0 && b1 % 16 == c1 % 16
    ensures Raw12(e, b0, b1) == Raw12(e, c0, c1)
  {
    if e % 2 == 0 {
      assert (b1 * 256 + b0) % 4096 == (b1 % 16) * 256 + b0;
      assert (c1 * 256 + c0) % 4096 == (c1 % 16) * 256 + c0;
    }
  }

  /** Writing one entry leaves every other entry as it was, the FAT12 neighbour that
      shares a byte with it included. */
  lemma PutElsewhere(k: Kind, s: seq<byte>, e: nat, v: int, other: nat)
    requires Fits(k, s, e) && Fits(k, s, other) && Storable(k, v) && other != e
    ensures GetAt(k, PutAt(k, s, e, v), other) == GetAt(k, s, other)
  {
    match k {
      case Fat12 => Put12Elsewhere(s, e, v, other);
      case Fat16 =>
      case Fat32 =>
    }
  }

  lemma Put12Elsewhere(s: seq<byte>, e: nat, v: int, other: nat)
    requires Fits(Fat12, s, e) && Fits(Fat12, s, other) && Storable(Fat12, v) && other != e
    ensures GetAt(Fat12, PutAt(Fat12, s, e, v), other) == GetAt(Fat12, s, other)
  {
    var t := PutAt(Fat12, s, e, v);
    var o, p := Offset(Fat12, e), Offset(Fat12, other);
    Put12KeepsNeighbour(e, s[o], s[o + 1], Stored(Fat12, v));
    if other == e + 1 && e % 2 == 0 {
      assert p == o + 1;
    } else if e == other + 1 && other % 2 == 0 {
      assert o == p + 1;
    } else {
      assert p + 1 < o || o + 1 < p;
    }
    Raw12Depends(other, s[p], s[p + 1], t[p], t[p + 1]);
  }

  /** The bytes of entry e are the only ones a write to e may change, and of a FAT32
      entry the four reserved top bits stay. */
  lemma PutTouches(k: Kind, s: seq<byte>, e: nat, v: int)
    requires Fits(k, s, e) && Storable(k, v)
    ensures forall i :: 0 <= i < |s| && !(Offset(k, e) <= i < Offset(k, e) + Width(k)) ==> PutAt(k, s, e, v)[i] == s[i]
    ensures k == Fat32 ==> PutAt(k, s, e, v)[Offset(k, e) + 3] / 16 == s[Offset(k, e) + 3] / 16
  {
  }
}
