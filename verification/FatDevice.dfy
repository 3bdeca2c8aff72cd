/** The FAT copies on a block device, and the entry handle that walks over them
    (struct fat_entry with its 12/16/32-bit operations). */
module FatDevices {
  import opened Arith
  import opened Packing
  import opened Machine

  const MAX_BUF_PER_PAGE := 8

  datatype Ptr = Null | Ptr(blk: nat, off: nat)

  /** struct fat_entry: a buffer is named by its block number, since the buffer cache
      keeps one buffer per block. */
  datatype FatEnt = FatEnt(entry: int, p0: Ptr, p1: Ptr, nrBhs: nat, bh0: nat, bh1: nat)

  function FatEntInit(): FatEnt { FatEnt(0, Null, Null, 0, 0, 0) }

  function SetEntry(h: FatEnt, entry: int): FatEnt { h.(entry := entry, p0 := Null) }

  function Brelse(h: FatEnt): FatEnt { h.(p0 := Null, nrBhs := 0, bh0 := 0, bh1 := 0) }

  function Buffers(h: FatEnt): seq<nat> {
    if h.nrBhs == 0 then [] else if h.nrBhs == 1 then [h.bh0] else [h.bh0, h.bh1]
  }

  function AsSet(bhs: seq<nat>): set<nat> { set b | b in bhs }

  /** fat_collect_bhs: add a handle's buffers to the list, each at most once. */
  method CollectBhs(bhs: seq<nat>, h: FatEnt) returns (r: seq<nat>)
    ensures AsSet(r) == AsSet(bhs) + AsSet(Buffers(h))
    ensures bhs <= r && |r| <= |bhs| + |Buffers(h)|
    ensures (forall i, j :: 0 <= i < j < |bhs| ==> bhs[i] != bhs[j])
        ==> (forall i, j :: 0 <= i < j < |r| ==> r[i] != r[j])
  {
    r := bhs;
    var own := Buffers(h);
    for n := 0 to |own|
      invariant bhs <= r && |r| <= |bhs| + n
      invariant forall b :: b in r <==> b in bhs || b in own[..n]
      invariant (forall i, j :: 0 <= i < j < |bhs| ==> bhs[i] != bhs[j])
            ==> (forall i, j :: 0 <= i < j < |r| ==> r[i] != r[j])
    {
      var i := 0;
      while i < |r| && own[n] != r[i]
        invariant 0 <= i <= |r| && own[n] !in r[..i]
      {
        i := i + 1;
      }
      if i == |r| {
        r := r + [own[n]];
      }
      assert own[..n + 1] == own[..n] + [own[n]];
    }
    assert own[..|own|] == own;
  }

  class FatDevice {
    const kind: Kind
    const bs: nat            // block size in bytes
    const fatStart: nat      // first block of the first FAT
    const fatLength: nat     // blocks of one FAT
    const fats: nat          // number of FAT copies
    const maxCluster: nat
    const data: array2<byte> // data[block, offset]

    /** The first FAT as one run of bytes, and what it says entry by entry. */
    ghost var flat: seq<byte>
    ghost var ents: seq<int>
    /** Blocks of the first FAT whose copies may still differ from it. */
    ghost var stale: set<nat>

    /** What mounting guarantees about the layout. */
    ghost predicate Geometry() {
      && 4 <= bs && bs % 4 == 0 && data.Length1 == bs
      && 2 <= maxCluster <= BadMark(kind)
      && 1 <= fats && fatStart + Times(fats, fatLength) <= data.Length0
      && (maxCluster > 2 ==> Offset(kind, maxCluster - 1) + Width(kind) <= Times(fatLength, bs))
    }

    ghost predicate Valid()
      reads this, data
    {
      && Geometry()
      && BytesAre(flat)
      && |ents| == maxCluster
      && (forall e: nat {:trigger EntryIs(flat, e, ents[e])} :: 2 <= e < maxCluster ==> EntryIs(flat, e, ents[e]))
      && CopiesAgreeExcept(stale)
    }

    ghost predicate EntryIs(s: seq<byte>, e: nat, v: int) {
      Fits(kind, s, e) && v == GetAt(kind, s, e)
    }

    ghost function ByteAt(i: nat): byte
      requires Geometry() && i < Times(fatLength, bs)
      reads data
    {
      PrimaryInside(i);
      data[fatStart + Quot(i, bs), Rem(i, bs)]
    }

    ghost predicate BytesAre(s: seq<byte>)
      requires Geometry()
      reads data
    {
      |s| == Times(fatLength, bs) && forall i {:trigger ByteAt(i)} :: 0 <= i < |s| ==> s[i] == ByteAt(i)
    }

    ghost function CopyRow(copy: nat, b: nat): nat { fatStart + Times(copy, fatLength) + b }

    /** The copies follow one another without gaps. */
    lemma CopiesTile(copy: nat)
      ensures CopyRow(0, 0) == fatStart && CopyRow(copy + 1, 0) == CopyRow(copy, fatLength)
    {
      TimesAdd(copy, 1, fatLength);
      assert Times(1, fatLength) == fatLength;
    }

    ghost predicate InPrimary(b: nat) { fatStart <= b < fatStart + fatLength }

    /** The blocks of the first FAT. */
    ghost function Primary(): set<nat> { set b: nat | b < fatStart + fatLength && InPrimary(b) }

    ghost predicate RowsEqual(copy: nat, b: nat)
      requires Geometry() && copy < fats && b < fatLength
      reads data
    {
      RowInside(copy, b);
      RowInside(0, b);
      forall o :: 0 <= o < bs ==> data[CopyRow(copy, b), o] == data[fatStart + b, o]
    }

    ghost predicate CopiesAgreeExcept(except: set<nat>)
      requires Geometry()
      reads data
    {
      forall copy, b :: 1 <= copy < fats && 0 <= b < fatLength && fatStart + b !in except ==> RowsEqual(copy, b)
    }

    lemma RowInside(copy: nat, b: nat)
      requires fatStart + Times(fats, fatLength) <= data.Length0 && copy < fats && b < fatLength
      ensures CopyRow(copy, b) < data.Length0
    {
      TimesMonotone(copy + 1, fats, fatLength);
    }

    /** Different (copy, block) pairs are different rows of the device. */
    lemma RowsApart(copy: nat, b: nat, copy': nat, b': nat)
      requires b < fatLength && b' < fatLength && CopyRow(copy, b) == CopyRow(copy', b')
      ensures copy == copy' && b == b'
    {
      QuotRemUnique(Times(copy, fatLength) + b, fatLength, copy, b);
      QuotRemUnique(Times(copy', fatLength) + b', fatLength, copy', b');
    }

    lemma PrimaryInside(i: nat)
      requires Geometry() && i < Times(fatLength, bs)
      ensures Quot(i, bs) < fatLength && fatStart + Quot(i, bs) < data.Length0 && Rem(i, bs) < bs
    {
      QuotBound(i, bs, fatLength);
      RowInside(0, Quot(i, bs));
    }

    lemma EntryFits(e: nat)
      requires Geometry() && 2 <= e < maxCluster
      ensures Offset(kind, e) + Width(kind) <= Times(fatLength, bs)
    {
    }

    /** The pointers of h are the ones a fresh read of entry e would set up. */
    ghost predicate PointsTo(h: FatEnt, e: nat)
      requires bs > 0
    {
      var blk, off := fatStart + Quot(Offset(kind, e), bs), Rem(Offset(kind, e), bs);
      && h.entry == e && h.bh0 == blk && h.p0 == Ptr(blk, off)
      && (kind == Fat12 ==>
            if off + 1 < bs then h.nrBhs == 1 && h.p1 == Ptr(blk, off + 1)
            else h.nrBhs == 2 && h.bh1 == blk + 1 && h.p1 == Ptr(blk + 1, 0))
      && (kind != Fat12 ==> h.nrBhs == 1)
    }

    ghost predicate At(h: FatEnt, e: nat)
      requires bs > 0
    {
      2 <= e < maxCluster && PointsTo(h, e)
    }

    /** The blocks entry e lies in: one, or two where a FAT12 entry straddles. */
    ghost function BlocksOf(e: nat): set<nat>
      requires bs > 0
    {
      var blk, off := fatStart + Quot(Offset(kind, e), bs), Rem(Offset(kind, e), bs);
      if kind == Fat12 && off + 1 == bs then {blk, blk + 1} else {blk}
    }

    /** The blocks the entries cs lie in. */
    ghost function Blocks(cs: seq<int>): set<nat>
      requires bs > 0
    {
      if cs == [] then {}
      else
        var c := cs[|cs| - 1];
        Blocks(cs[..|cs| - 1]) + if c < 0 then {} else BlocksOf(c)
    }

    lemma BlocksAppend(cs: seq<int>, e: nat)
      requires bs > 0
      ensures Blocks(cs + [e]) == Blocks(cs) + BlocksOf(e)
    {
      assert (cs + [e])[..|cs|] == cs;
    }

    constructor (kind: Kind, bs: nat, fatStart: nat, fatLength: nat, fats: nat, maxCluster: nat, data: array2<byte>)
      requires 4 <= bs && bs % 4 == 0 && data.Length1 == bs
      requires 2 <= maxCluster <= BadMark(kind)
      requires 1 <= fats && fatStart + Times(fats, fatLength) <= data.Length0
      requires maxCluster > 2 ==> Offset(kind, maxCluster - 1) + Width(kind) <= Times(fatLength, bs)
      ensures Valid()
      ensures this.kind == kind && this.bs == bs && this.fatStart == fatStart && this.fatLength == fatLength
      ensures this.fats == fats && this.maxCluster == maxCluster && this.data == data
    {
      this.kind, this.bs, this.fatStart, this.fatLength := kind, bs, fatStart, fatLength;
      this.fats, this.maxCluster, this.data := fats, maxCluster, data;
      new;
      stale := Primary();
      var bytes := seq(Times(fatLength, bs), i requires 0 <= i < Times(fatLength, bs) reads data => ByteAt(i));
      flat := bytes;
      ents := seq(maxCluster, e requires 0 <= e < maxCluster => if Fits(kind, bytes, e) then GetAt(kind, bytes, e) else FAT_ENT_FREE);
    }

    // ----- where an entry lives: fat12_ent_blocknr, fat_ent_blocknr

    method EntBlocknr(entry: nat) returns (offset: nat, blocknr: nat)
      requires Geometry() && 2 <= entry < maxCluster
      ensures offset == Rem(Offset(kind, entry), bs) && blocknr == fatStart + Quot(Offset(kind, entry), bs)
      ensures blocknr < fatStart + fatLength && offset < bs
    {
      var bytes := match kind case Fat12 => entry + entry / 2 case Fat16 => entry * 2 case Fat32 => entry * 4;
      EntryFits(entry);
      PrimaryInside(bytes);
      QuotRemIsDivMod(bytes, bs);
      offset := bytes % bs;
      blocknr := fatStart + bytes / bs;
    }

    /** fat12/16/32_ent_set_ptr; the asserts are the source's WARN_ONs, negated. */
    method EntSetPtr(h: FatEnt, ghost e: nat, offset: nat) returns (r: FatEnt)
      requires Geometry() && 2 <= e < maxCluster && h.entry == e
      requires offset == Rem(Offset(kind, e), bs) && h.bh0 == fatStart + Quot(Offset(kind, e), bs)
      requires h.nrBhs == if kind == Fat12 && offset + 1 == bs then 2 else 1
      requires h.nrBhs == 2 ==> h.bh1 == h.bh0 + 1
      ensures At(r, e)
    {
      match kind {
        case Fat12 =>
          if h.nrBhs == 1 {
            assert offset < bs - 1;
            r := h.(p0 := Ptr(h.bh0, offset), p1 := Ptr(h.bh0, offset + 1));
          } else {
            assert offset == bs - 1;
            r := h.(p0 := Ptr(h.bh0, offset), p1 := Ptr(h.bh1, 0));
          }
        case Fat16 =>
          assert offset % 2 == 0 by { AlignedRem(Offset(kind, e), bs, 2); }
          r := h.(p0 := Ptr(h.bh0, offset));
        case Fat32 =>
          assert offset % 4 == 0 by { AlignedRem(Offset(kind, e), bs, 4); }
          r := h.(p0 := Ptr(h.bh0, offset));
      }
    }

    /** fat12_ent_bread, fat_ent_bread with reads that succeed. */
    method EntBread(h: FatEnt, ghost e: nat, offset: nat, blocknr: nat) returns (r: FatEnt)
      requires Geometry() && 2 <= e < maxCluster && h.entry == e
      requires offset == Rem(Offset(kind, e), bs) && blocknr == fatStart + Quot(Offset(kind, e), bs)
      ensures At(r, e)
    {
      assert blocknr >= fatStart;
      r := h.(bh0 := blocknr);
      if kind == Fat12 && !(offset + 1 < bs) {
        r := r.(bh1 := blocknr + 1, nrBhs := 2);
      } else {
        r := r.(nrBhs := 1);
      }
      r := EntSetPtr(r, e, offset);
    }

    /** fat_ent_update_ptr: reuse the buffers an old handle still holds. */
    method EntUpdatePtr(h: FatEnt, ghost e: nat, offset: nat, blocknr: nat) returns (ok: bool, r: FatEnt)
      requires Geometry() && 2 <= e < maxCluster && h.entry == e && h.nrBhs <= 2
      requires kind != Fat12 ==> h.nrBhs <= 1
      requires offset == Rem(Offset(kind, e), bs) && blocknr == fatStart + Quot(Offset(kind, e), bs)
      ensures ok ==> At(r, e)
      ensures !ok ==> r == h
    {
      r := h;
      if h.nrBhs == 0 || h.bh0 != blocknr {
        return false, r;
      }
      if kind == Fat12 {
        if offset + 1 < bs {
          if r.nrBhs == 2 {
            r := r.(nrBhs := 1);
          }
        } else {
          if r.nrBhs != 2 || r.bh1 != blocknr + 1 {
            return false, r;
          }
        }
      }

      r := EntSetPtr(r, e, offset);
      ok := true;
    }

    // ----- reading and writing through the pointers

    ghost function PtrOf(i: nat): Ptr
      requires bs > 0
    {
      Ptr(fatStart + Quot(i, bs), Rem(i, bs))
    }

    /** No two bytes of the FAT share a place on the device. */
    lemma PtrsApart(i: nat, j: nat)
      requires bs > 0 && PtrOf(i) == PtrOf(j)
      ensures i == j
    {
      QuotRemInjective(i, j, bs);
    }

    ghost predicate OnFat(p: Ptr)
      requires Geometry()
    {
      p.Ptr? && InPrimary(p.blk) && p.blk < data.Length0 && p.off < bs
    }

    lemma PtrsOf12(h: FatEnt, e: nat)
      requires Geometry() && At(h, e) && kind == Fat12
      ensures Offset(kind, e) + 2 <= Times(fatLength, bs)
      ensures h.p0 == PtrOf(Offset(kind, e)) && h.p1 == PtrOf(Offset(kind, e) + 1) && h.p0 != h.p1
      ensures OnFat(h.p0) && OnFat(h.p1)
    {
      var o := Offset(kind, e);
      EntryFits(e);
      PrimaryInside(o);
      PrimaryInside(o + 1);
      QuotRemAdd(o, bs, 1);
    }

    lemma PtrsOf16(h: FatEnt, e: nat)
      requires Geometry() && At(h, e) && kind == Fat16
      ensures Offset(kind, e) + 2 <= Times(fatLength, bs)
      ensures OnFat(h.p0) && h.p0.off + 2 <= bs
      ensures h.p0 == PtrOf(Offset(kind, e)) && Ptr(h.p0.blk, h.p0.off + 1) == PtrOf(Offset(kind, e) + 1)
    {
      var o := 2 * e;
      EntryFits(e);
      PrimaryInside(o);
      AlignedRem(o, bs, 2);
      QuotRemAdd(o, bs, 1);
    }

    lemma PtrsOf32(h: FatEnt, e: nat)
      requires Geometry() && At(h, e) && kind == Fat32
      ensures Offset(kind, e) + 4 <= Times(fatLength, bs)
      ensures OnFat(h.p0) && h.p0.off + 4 <= bs
      ensures h.p0 == PtrOf(Offset(kind, e)) && Ptr(h.p0.blk, h.p0.off + 1) == PtrOf(Offset(kind, e) + 1)
      ensures Ptr(h.p0.blk, h.p0.off + 2) == PtrOf(Offset(kind, e) + 2)
      ensures Ptr(h.p0.blk, h.p0.off + 3) == PtrOf(Offset(kind, e) + 3)
    {
      var o := 4 * e;
      EntryFits(e);
      PrimaryInside(o);
      AlignedRem(o, bs, 4);
      QuotRemAdd(o, bs, 1);
      QuotRemAdd(o, bs, 2);
      QuotRemAdd(o, bs, 3);
    }

    method Get12(h: FatEnt, ghost e: nat) returns (next: int)
      requires Valid() && At(h, e) && kind == Fat12
      ensures next == ents[e]
    {
      ghost var o := Offset(kind, e);
      PtrsOf12(h, e);
      assert EntryIs(flat, e, ents[e]);
      assert flat[o] == ByteAt(o) && flat[o + 1] == ByteAt(o + 1);
      next := Normalize(Fat12, Raw12(h.entry, data[h.p0.blk, h.p0.off], data[h.p1.blk, h.p1.off]));
    }

    method Get16(h: FatEnt, ghost e: nat) returns (next: int)
      requires Valid() && At(h, e) && kind == Fat16
      ensures next == ents[e]
    {
      ghost var o := Offset(kind, e);
      PtrsOf16(h, e);
      assert EntryIs(flat, e, ents[e]);
      assert flat[o] == ByteAt(o) && flat[o + 1] == ByteAt(o + 1);
      next := Normalize(Fat16, Raw16(data[h.p0.blk, h.p0.off], data[h.p0.blk, h.p0.off + 1]));
    }

    method Get32(h: FatEnt, ghost e: nat) returns (next: int)
      requires Valid() && At(h, e) && kind == Fat32
      ensures next == ents[e]
    {
      ghost var o := Offset(kind, e);
      PtrsOf32(h, e);
      assert EntryIs(flat, e, ents[e]);
      assert flat[o] == ByteAt(o) && flat[o + 1] == ByteAt(o + 1) && flat[o + 2] == ByteAt(o + 2) && flat[o + 3] == ByteAt(o + 3);
      var blk, off := h.p0.blk, h.p0.off;
      next := Normalize(Fat32, Raw32(data[blk, off], data[blk, off + 1], data[blk, off + 2], data[blk, off + 3]));
    }

    /** ent_get through the operations table. */
    method EntGet(h: FatEnt, ghost e: nat) returns (next: int)
      requires Valid() && At(h, e)
      ensures next == ents[e] && next >= 0 && Legal(kind, next)
    {
      assert EntryIs(flat, e, ents[e]);
      match kind {
        case Fat12 => next := Get12(h, e);
        case Fat16 => next := Get16(h, e);
        case Fat32 => next := Get32(h, e);
      }
    }

    /** What an entry write leaves behind, given that the bytes are the codec's. */
    lemma EntriesAfterPut(s: seq<byte>, ents0: seq<int>, e: nat, v: int, t: seq<byte>, ents1: seq<int>)
      requires 2 <= e < maxCluster == |ents0| && Legal(kind, v) && Fits(kind, s, e)
      requires forall x: nat {:trigger EntryIs(s, x, ents0[x])} :: 2 <= x < maxCluster ==> EntryIs(s, x, ents0[x])
      requires t == PutAt(kind, s, e, v) && ents1 == ents0[e := v]
      ensures forall x: nat {:trigger EntryIs(t, x, ents1[x])} :: 2 <= x < maxCluster ==> EntryIs(t, x, ents1[x])
    {
      PutGet(kind, s, e, v);
      forall x: nat {:trigger EntryIs(t, x, ents1[x])} | 2 <= x < maxCluster
        ensures EntryIs(t, x, ents1[x])
      {
        assert EntryIs(s, x, ents0[x]);
        if x != e {
          PutElsewhere(kind, s, e, v, x);
        }
      }
    }

    /** Device rows outside the given blocks are as before. */
    twostate predicate RowsKept(except: set<nat>)
      requires Geometry()
      reads data
    {
      forall b: nat, o: nat :: b < data.Length0 && o < bs && b !in except ==> data[b, o] == old(data[b, o])
    }

    /** Store one byte of the first FAT through a pointer. */
    method Poke(blk: nat, off: nat, x: byte, ghost i: nat, ghost s: seq<byte>)
      requires Geometry() && BytesAre(s) && i < |s| && PtrOf(i) == Ptr(blk, off)
      modifies data
      ensures BytesAre(s[i := x])
      ensures RowsKept({blk})
    {
      PrimaryInside(i);
      data[blk, off] := x;
      forall j: nat | j < |s|
        ensures s[i := x][j] == ByteAt(j)
      {
        PrimaryInside(j);
        if PtrOf(j) == Ptr(blk, off) { PtrsApart(i, j); }
        assert s[j] == old(ByteAt(j));
      }
    }

    method Put12(h: FatEnt, ghost e: nat, v: int)
      requires Valid() && At(h, e) && kind == Fat12 && Legal(kind, v)
      modifies data
      ensures RowsKept({h.p0.blk, h.p1.blk})
      ensures Fits(kind, flat, e) && BytesAre(PutAt(kind, flat, e, v))
    {
      ghost var o := Offset(kind, e);
      PtrsOf12(h, e);
      assert EntryIs(flat, e, ents[e]);
      assert flat[o] == ByteAt(o) && flat[o + 1] == ByteAt(o + 1);
      var new_ := Stored(Fat12, v);
      var b0 := Put12Lo(h.entry, data[h.p0.blk, h.p0.off], new_);
      var b1 := Put12Hi(h.entry, data[h.p1.blk, h.p1.off], new_);
      Poke(h.p0.blk, h.p0.off, b0, o, flat);
      Poke(h.p1.blk, h.p1.off, b1, o + 1, flat[o := b0]);
    }

    method Put16(h: FatEnt, ghost e: nat, v: int)
      requires Valid() && At(h, e) && kind == Fat16 && Legal(kind, v)
      modifies data
      ensures RowsKept({h.p0.blk})
      ensures Fits(kind, flat, e) && BytesAre(PutAt(kind, flat, e, v))
    {
      ghost var o := Offset(kind, e);
      PtrsOf16(h, e);
      var new_ := Stored(Fat16, v);
      Poke(h.p0.blk, h.p0.off, new_ % 0x100, o, flat);
      Poke(h.p0.blk, h.p0.off + 1, new_ / 0x100, o + 1, flat[o := new_ % 0x100]);
    }

    method Put32(h: FatEnt, ghost e: nat, v: int)
      requires Valid() && At(h, e) && kind == Fat32 && Legal(kind, v)
      modifies data
      ensures RowsKept({h.p0.blk})
      ensures Fits(kind, flat, e) && BytesAre(PutAt(kind, flat, e, v))
    {
      ghost var o := Offset(kind, e);
      PtrsOf32(h, e);
      assert flat[o + 3] == ByteAt(o + 3);
      var new_ := Stored(Fat32, v);
      var blk, off := h.p0.blk, h.p0.off;
      var b3 := Put32Byte(3, data[blk, off + 3], new_);
      PokeFour(blk, off, Put32Byte(0, 0, new_), Put32Byte(1, 0, new_), Put32Byte(2, 0, new_), b3, o, flat);
    }

    method PokeFour(blk: nat, off: nat, b0: byte, b1: byte, b2: byte, b3: byte, ghost o: nat, ghost s: seq<byte>)
      requires Geometry() && BytesAre(s) && o + 3 < |s|
      requires PtrOf(o) == Ptr(blk, off) && PtrOf(o + 1) == Ptr(blk, off + 1)
      requires PtrOf(o + 2) == Ptr(blk, off + 2) && PtrOf(o + 3) == Ptr(blk, off + 3)
      modifies data
      ensures BytesAre(s[o := b0][o + 1 := b1][o + 2 := b2][o + 3 := b3])
      ensures RowsKept({blk})
    {
      Poke(blk, off, b0, o, s);
      Poke(blk, off + 1, b1, o + 1, s[o := b0]);
      Poke(blk, off + 2, b2, o + 2, s[o := b0][o + 1 := b1]);
      Poke(blk, off + 3, b3, o + 3, s[o := b0][o + 1 := b1][o + 2 := b2]);
    }

    twostate lemma CopiesAfterPut(blks: set<nat>)
      requires Geometry() && RowsKept(blks) && (forall b :: b in blks ==> InPrimary(b)) && old(CopiesAgreeExcept(stale))
      ensures CopiesAgreeExcept(old(stale) + blks)
    {
      forall copy: nat, b: nat | 1 <= copy < fats && b < fatLength && fatStart + b !in old(stale) + blks
        ensures RowsEqual(copy, b)
      {
        RowInside(copy, b);
        RowInside(0, b);
        TimesMonotone(1, copy, fatLength);
        assert old(RowsEqual(copy, b));
      }
    }

    /** ent_put through the operations table. */
    method EntPut(h: FatEnt, ghost e: nat, v: int)
      requires Valid() && At(h, e) && Legal(kind, v)
      modifies this`flat, this`ents, this`stale, data
      ensures Valid()
      ensures ents == old(ents)[e := v]
      ensures Fits(kind, old(flat), e) && flat == PutAt(kind, old(flat), e, v)
      ensures stale == old(stale) + BlocksOf(e) && BlocksOf(e) == AsSet(Buffers(h))
      ensures BlocksOf(e) <= Primary()
      ensures RowsKept(BlocksOf(e))
    {
      ghost var blks := BlocksOf(e);
      match kind {
        case Fat12 =>
          PtrsOf12(h, e);
          Put12(h, e, v);
        case Fat16 =>
          PtrsOf16(h, e);
          Put16(h, e, v);
        case Fat32 =>
          PtrsOf32(h, e);
          Put32(h, e, v);
      }
      CopiesAfterPut(blks);
      EntriesAfterPut(flat, ents, e, v, PutAt(kind, flat, e, v), ents[e := v]);
      stale := stale + blks;
      flat, ents := PutAt(kind, flat, e, v), ents[e := v];
    }

    // ----- moving on to the next entry without reading

    method Next12(h: FatEnt, ghost e: nat) returns (ok: bool, r: FatEnt)
      requires Geometry() && At(h, e) && kind == Fat12
      ensures r.entry == e + 1 && 1 <= r.nrBhs <= 2
      ensures ok ==> PointsTo(r, e + 1)
    {
      ghost var o := e + e / 2;
      assert Offset(kind, e + 1) == o + 1 + e % 2;
      QuotRemAdd(o, bs, 1);
      var nextBlk, nextOff := h.p1.blk, h.p1.off + 1 + h.entry % 2;
      r := h.(entry := h.entry + 1);
      if h.nrBhs == 1 {
        assert h.p0.off <= bs - 2 && h.p1.off <= bs - 1;
        if nextOff < bs - 1 {
          QuotRemAdd(o, bs, 1 + e % 2);
          return true, r.(p0 := Ptr(nextBlk, nextOff - 1), p1 := Ptr(nextBlk, nextOff));
        }
      } else {
        assert h.p0 == Ptr(h.bh0, bs - 1) && h.p1 == Ptr(h.bh1, 0);
        QuotRemAdd(o + 1, bs, e % 2);
        return true, r.(p0 := Ptr(nextBlk, nextOff - 1), p1 := Ptr(nextBlk, nextOff), bh0 := h.bh1, nrBhs := 1);
      }
      return false, r.(p0 := Null, p1 := Null);
    }

    method Next16(h: FatEnt, ghost e: nat) returns (ok: bool, r: FatEnt)
      requires Geometry() && At(h, e) && kind == Fat16
      ensures r.entry == e + 1 && r.nrBhs == 1
      ensures ok ==> PointsTo(r, e + 1)
    {
      r := h.(entry := h.entry + 1);
      if h.p0.off < bs - 2 {
        QuotRemAdd(2 * e, bs, 2);
        return true, r.(p0 := Ptr(h.p0.blk, h.p0.off + 2));
      }
      return false, r.(p0 := Null);
    }

    method Next32(h: FatEnt, ghost e: nat) returns (ok: bool, r: FatEnt)
      requires Geometry() && At(h, e) && kind == Fat32
      ensures r.entry == e + 1 && r.nrBhs == 1
      ensures ok ==> PointsTo(r, e + 1)
    {
      r := h.(entry := h.entry + 1);
      if h.p0.off < bs - 4 {
        QuotRemAdd(4 * e, bs, 4);
        return true, r.(p0 := Ptr(h.p0.blk, h.p0.off + 4));
      }
      return false, r.(p0 := Null);
    }

    /** fat12/16/32_ent_next. A return of true keeps the handle exact; a return of false
        only means that the block has to be read again. */
    method EntNext(h: FatEnt, ghost e: nat) returns (ok: bool, r: FatEnt)
      requires Geometry() && At(h, e)
      ensures r.entry == e + 1
      ensures ok ==> PointsTo(r, e + 1)
    {
      match kind {
        case Fat12 => ok, r := Next12(h, e);
        case Fat16 => ok, r := Next16(h, e);
        case Fat32 => ok, r := Next32(h, e);
      }
    }

    /** fat_ent_next: also stops at the last entry of the volume. */
    method FatEntNext(h: FatEnt, ghost e: nat) returns (ok: bool, r: FatEnt)
      requires Geometry() && At(h, e)
      ensures r.entry == e + 1
      ensures ok ==> At(r, e + 1)
    {
      ok, r := EntNext(h, e);
      ok := ok && r.entry < maxCluster;
    }

    /** fat_ent_read_block. */
    method EntReadBlock(h: FatEnt) returns (r: FatEnt)
      requires Geometry() && 2 <= h.entry < maxCluster
      ensures At(r, h.entry)
    {
      var offset, blocknr := EntBlocknr(h.entry);
      r := EntBread(Brelse(h), h.entry, offset, blocknr);
    }

    /** fat_ent_read: the result does not depend on what the handle was used for before. */
    method EntRead(h: FatEnt, entry: int) returns (val: int, r: FatEnt)
      requires Valid() && h.nrBhs <= 2 && (kind != Fat12 ==> h.nrBhs <= 1)
      ensures r.nrBhs <= 2 && (kind != Fat12 ==> r.nrBhs <= 1)
      ensures 2 <= entry < maxCluster ==> At(r, entry) && val == ents[entry] && val >= 0 && Legal(kind, val)
      ensures !(2 <= entry < maxCluster) ==> val == EIO && r == Brelse(h)
    {
      if entry < FAT_START_ENT || maxCluster <= entry {
        return EIO, Brelse(h);
      }
      r := SetEntry(h, entry);
      var offset, blocknr := EntBlocknr(entry);
      var reused;
      reused, r := EntUpdatePtr(r, entry, offset, blocknr);
      if !reused {
        r := EntBread(Brelse(r), entry, offset, blocknr);
      }
      val := EntGet(r, entry);
    }

    // ----- the backup copies

    /** fat_mirror_bhs: copy the listed blocks into every backup FAT. */
    method Mirror(bhs: seq<nat>)
      requires Valid() && AsSet(bhs) <= Primary()
      modifies this`stale, data
      ensures Valid()
      ensures stale == old(stale) - AsSet(bhs)
      ensures forall b: nat, o: nat :: b < fatStart + fatLength && b < data.Length0 && o < bs ==> data[b, o] == old(data[b, o])
    {
      var copy := 1;
      while copy < fats
        invariant 1 <= copy <= fats
        invariant Valid() && stale == old(stale)
        invariant forall b: nat, o: nat :: b < fatStart + fatLength && b < data.Length0 && o < bs ==> data[b, o] == old(data[b, o])
        invariant forall c: nat, b: nat :: 1 <= c < copy && b < fatLength && fatStart + b in bhs ==> RowsEqual(c, b)
      {
        CopyRows(copy, bhs);
        copy := copy + 1;
      }
      stale := stale - AsSet(bhs);
    }

    /** The inner loop of fat_mirror_bhs, for one backup FAT. */
    method CopyRows(copy: nat, bhs: seq<nat>)
      requires Valid() && 1 <= copy < fats && AsSet(bhs) <= Primary()
      modifies data
      ensures Valid()
      ensures forall b: nat, o: nat :: b < fatStart + fatLength && b < data.Length0 && o < bs ==> data[b, o] == old(data[b, o])
      ensures forall b: nat :: b < fatLength && fatStart + b in bhs ==> RowsEqual(copy, b)
      ensures forall c: nat, b: nat :: 1 <= c < fats && b < fatLength && old(RowsEqual(c, b)) ==> RowsEqual(c, b)
    {
      TimesMonotone(1, copy, fatLength);
      TimesIsProduct(copy, fatLength);
      var backup := fatLength * copy;
      for n := 0 to |bhs|
        invariant forall b: nat, o: nat :: b < fatStart + fatLength && b < data.Length0 && o < bs ==> data[b, o] == old(data[b, o])
        invariant forall b: nat :: b < fatLength && fatStart + b in bhs[..n] ==> RowsEqual(copy, b)
        invariant forall c: nat, b: nat :: 1 <= c < fats && b < fatLength && old(RowsEqual(c, b)) ==> RowsEqual(c, b)
      {
        var b0 := bhs[n];
        assert b0 in AsSet(bhs);
        var cBh := backup + b0;
        assert cBh == CopyRow(copy, b0 - fatStart);
        RowInside(copy, b0 - fatStart);
        label before:
        forall o | 0 <= o < bs {
          data[cBh, o] := data[b0, o];
        }
        forall c: nat, b: nat | 1 <= c < fats && b < fatLength && old@before(RowsEqual(c, b))
          ensures RowsEqual(c, b)
        {
          RowInside(c, b);
          RowInside(0, b);
          if CopyRow(c, b) == cBh {
            RowsApart(c, b, copy, b0 - fatStart);
          }
        }
        assert RowsEqual(copy, b0 - fatStart);
        assert bhs[..n + 1] == bhs[..n] + [b0];
      }
      assert bhs[..|bhs|] == bhs;
      forall i: nat | i < |flat|
        ensures flat[i] == ByteAt(i)
      {
        PrimaryInside(i);
        assert old(ByteAt(i)) == flat[i];
      }
      assert forall c: nat, b: nat :: 1 <= c < fats && b < fatLength && fatStart + b !in stale ==> old(RowsEqual(c, b));
    }
  }
}
