/** The small driver's cluster I/O (simplefat/inode.c): user data is cut into blocks, and the
    volume behaves like one flat run of bytes all the same. */
module SimpleFat {
  import opened Arith
  import opened Packing
  import opened Machine
  import opened Splicing

  /** How many of len bytes, from index off of block blk on, lie before the first bad block. */
  function BytesBefore(bad: set<nat>, bs: nat, blk: nat, off: nat, len: nat): (r: nat)
    requires off < bs
    ensures r <= len
    decreases len
  {
    if len == 0 || blk in bad then 0
    else
      var n := if len < bs - off then len else bs - off;
      n + BytesBefore(bad, bs, blk + 1, 0, len - n)
  }

  /** Block q is one of the transfer's: one that begins before its end. */
  ghost predicate Touches(bs: nat, blk: nat, off: nat, len: nat, q: nat) {
    q >= blk && Times(q - blk, bs) < off + len
  }

  /** All bytes go through exactly when no block of the transfer is bad. */
  lemma {:induction false} AllBytesIffGood(bad: set<nat>, bs: nat, blk: nat, off: nat, len: nat)
    requires off < bs && len > 0
    ensures BytesBefore(bad, bs, blk, off, len) == len <==> forall q: nat :: Touches(bs, blk, off, len, q) ==> q !in bad
    decreases len
  {
    assert Touches(bs, blk, off, len, blk);
    if blk !in bad {
      var n := if len < bs - off then len else bs - off;
      if n < len {
        AllBytesIffGood(bad, bs, blk + 1, 0, len - n);
      }
      forall q: nat
        ensures Touches(bs, blk, off, len, q) <==> q == blk || (n < len && Touches(bs, blk + 1, 0, len - n, q))
      {
        if q > blk {
          TimesAdd(q - blk - 1, 1, bs);
          assert Times(1, bs) == bs;
        }
      }
    }
  }

  /** Otherwise the bytes before the first bad block do. */
  lemma {:induction false} StopsAtBad(bad: set<nat>, bs: nat, blk: nat, off: nat, len: nat, q: nat)
    requires off < bs && len > 0 && Touches(bs, blk, off, len, q) && q in bad && forall p :: blk <= p < q ==> p !in bad
    ensures BytesBefore(bad, bs, blk, off, len) == if q == blk then 0 else Times(q - blk, bs) - off
    decreases len
  {
    if q > blk {
      var n := if len < bs - off then len else bs - off;
      TimesAdd(q - blk - 1, 1, bs);
      assert Times(1, bs) == bs && n == bs - off;
      StopsAtBad(bad, bs, blk + 1, 0, len - n, q);
    }
  }

  class SfatVolume {
    const bs: nat
    const blkPerClus: nat
    const dataStartBlk: nat
    /** Blocks on which every transfer fails. */
    const bad: set<nat>
    var blocks: seq<seq<byte>>

    ghost predicate Valid()
      reads this
    {
      bs > 0 && blkPerClus > 0 && forall b :: 0 <= b < |blocks| ==> |blocks[b]| == bs
    }

    constructor (bs: nat, blkPerClus: nat, dataStartBlk: nat, bad: set<nat>, blocks: seq<seq<byte>>)
      requires bs > 0 && blkPerClus > 0 && forall b :: 0 <= b < |blocks| ==> |blocks[b]| == bs
      ensures Valid() && this.bs == bs && this.blkPerClus == blkPerClus && this.dataStartBlk == dataStartBlk
      ensures this.bad == bad && this.blocks == blocks
    {
      this.bs, this.blkPerClus, this.dataStartBlk, this.bad, this.blocks := bs, blkPerClus, dataStartBlk, bad, blocks;
    }

    ghost function ByteAt(i: nat): byte
      requires Valid() && i < Times(|blocks|, bs)
      reads this
    {
      QuotBound(i, bs, |blocks|);
      blocks[Quot(i, bs)][Rem(i, bs)]
    }

    /** The volume as one run of bytes. */
    ghost function Flat(): (r: seq<byte>)
      requires Valid()
      reads this
      ensures |r| == Times(|blocks|, bs)
    {
      seq(Times(|blocks|, bs), i requires Valid() && 0 <= i < Times(|blocks|, bs) reads this => ByteAt(i))
    }

    /** CLS_TO_BLK. */
    function ClsToBlk(cls: nat): nat { dataStartBlk + cls * blkPerClus }

    /** Where a cluster's bytes begin in the volume. */
    ghost function Position(cls: nat, offset: nat): nat { Times(ClsToBlk(cls), bs) + offset }

    /** The clusters follow one another from the start of the data area on. */
    lemma ClustersTile(cls: nat)
      ensures Position(0, 0) == Times(dataStartBlk, bs)
      ensures Position(cls + 1, 0) == Position(cls, 0) + Times(blkPerClus, bs)
    {
      assert ClsToBlk(cls + 1) == ClsToBlk(cls) + blkPerClus;
      TimesAdd(ClsToBlk(cls), blkPerClus, bs);
    }

    /** Transfers inside different clusters have no byte in common. */
    lemma {:induction false} ClustersApart(cls: nat, offset: nat, len: nat, cls': nat, offset': nat)
      requires InCluster(cls, offset, len) && cls < cls'
      ensures Position(cls, offset) + len <= Position(cls', offset')
      decreases cls' - cls
    {
      ClustersTile(cls' - 1);
      if cls + 1 < cls' {
        ClustersApart(cls, offset, len, cls' - 1, 0);
      }
    }

    /** The bytes of a transfer before its first bad block, and whether it has any. */
    ghost function Passed(cls: nat, offset: nat, len: nat): nat
      requires bs > 0
    {
      BytesBefore(bad, bs, ClsToBlk(cls) + Quot(offset, bs), Rem(offset, bs), len)
    }

    ghost predicate NoneBad(cls: nat, offset: nat, len: nat)
      requires bs > 0
    {
      forall q: nat :: Touches(bs, ClsToBlk(cls) + Quot(offset, bs), Rem(offset, bs), len, q) ==> q !in bad
    }

    /** Whether anything is touched at all, and what it comes to. */
    lemma PassedIffNoneBad(cls: nat, offset: nat, len: nat)
      requires bs > 0
      ensures len > 0 ==> (Passed(cls, offset, len) == len <==> NoneBad(cls, offset, len))
      ensures len == 0 ==> (NoneBad(cls, offset, len) <==> Rem(offset, bs) == 0 || ClsToBlk(cls) + Quot(offset, bs) !in bad)
    {
      var blk, off := ClsToBlk(cls) + Quot(offset, bs), Rem(offset, bs);
      if len > 0 {
        AllBytesIffGood(bad, bs, blk, off, len);
      } else {
        forall q: nat | Touches(bs, blk, off, len, q)
          ensures q == blk && off > 0
        {
        }
        assert off > 0 ==> Touches(bs, blk, off, len, blk);
      }
    }

    ghost predicate InCluster(cls: nat, offset: nat, len: nat)
      reads this
    {
      offset + len <= Times(blkPerClus, bs) && offset < Times(blkPerClus, bs) && ClsToBlk(cls) + blkPerClus <= |blocks|
    }

    method ReadBlock(blk: nat) returns (err: int, data: seq<byte>)
      requires Valid() && blk < |blocks|
      ensures err == (if blk in bad then EIO else 0) && (err == 0 ==> data == blocks[blk])
    {
      if blk in bad {
        return EIO, [];
      }
      return 0, blocks[blk];
    }

    /** One block is one stretch of the flat volume. */
    method WriteBlock(blk: nat, data: seq<byte>, ghost off: nat, ghost part: seq<byte>) returns (err: int)
      requires Valid() && blk < |blocks| && off + |part| <= bs && data == Splice(blocks[blk], off, part)
      modifies this`blocks
      ensures Valid() && |blocks| == |old(blocks)| && err == (if blk in bad then EIO else 0)
      ensures Times(blk, bs) + off + |part| <= |Flat()|
      ensures Flat() == if err == 0 then Splice(old(Flat()), Times(blk, bs) + off, part) else old(Flat())
    {
      TimesMonotone(blk + 1, |blocks|, bs);
      if blk in bad {
        return EIO;
      }
      ghost var was := Flat();
      blocks := blocks[blk := data];
      forall i | 0 <= i < |was|
        ensures Flat()[i] == Splice(was, Times(blk, bs) + off, part)[i]
      {
        QuotRem(i, bs);
        QuotBound(i, bs, |blocks|);
        if Quot(i, bs) < blk {
          TimesMonotone(Quot(i, bs) + 1, blk, bs);
        } else if Quot(i, bs) > blk {
          TimesMonotone(blk + 1, Quot(i, bs), bs);
        }
      }
      err := 0;
    }

    /** Part of a block: read it, put the bytes in, write it back. A whole block is not read. */
    method PutPart(blk: nat, off: nat, part: seq<byte>, whole: bool) returns (err: int)
      requires Valid() && blk < |blocks| && off + |part| <= bs && (whole ==> off == 0 && |part| == bs)
      modifies this`blocks
      ensures Valid() && |blocks| == |old(blocks)| && err == (if blk in bad then EIO else 0)
      ensures Times(blk, bs) + off + |part| <= |Flat()|
      ensures Flat() == if err == 0 then Splice(old(Flat()), Times(blk, bs) + off, part) else old(Flat())
    {
      TimesMonotone(blk + 1, |blocks|, bs);
      var data := part;
      if !whole {
        err, data := ReadBlock(blk);
        if err != 0 {
          return;
        }
        data := data[..off] + part + data[off + |part|..];
      }
      err := WriteBlock(blk, data, off, part);
    }

    /** ret bytes of buf are in place; unless that is all, the next goes to `off` in block blk. */
    ghost predicate Wrote(was: seq<byte>, pos: nat, buf: seq<byte>, ret: nat, blk: nat, off: nat)
      requires Valid()
      reads this
    {
      && ret <= |buf| && pos + |buf| <= |was| == Times(|blocks|, bs) && Flat() == Splice(was, pos, buf[..ret])
      && off < bs && (ret < |buf| ==> blk < |blocks| && Times(blk, bs) + off == pos + ret)
    }

    /** One more block's worth. */
    method PutNext(buf: seq<byte>, ret: nat, blk: nat, off: nat, n: nat, ghost was: seq<byte>, ghost pos: nat) returns (err: int)
      requires Valid() && Wrote(was, pos, buf, ret, blk, off) && ret < |buf| && n == (if |buf| - ret < bs - off then |buf| - ret else bs - off)
      modifies this`blocks
      ensures Valid() && |blocks| == |old(blocks)| && err == (if blk in bad then EIO else 0)
      ensures err == 0 ==> Wrote(was, pos, buf, ret + n, blk + 1, 0)
      ensures err != 0 ==> Wrote(was, pos, buf, ret, blk, off)
    {
      SpliceMore(was, pos, buf, ret, ret + n);
      TimesAdd(blk, 1, bs);
      assert Times(1, bs) == bs;
      if ret + n < |buf| {
        BlockInside(blk + 1, pos + |buf|);
      }
      err := PutPart(blk, off, buf[ret..ret + n], off == 0 && n == bs);
    }

    /** The first block, when the transfer begins inside it; with nothing to write it is read
        and written back all the same. */
    method PutFirst(buf: seq<byte>, blk: nat, off: nat, n: nat, ghost was: seq<byte>, ghost pos: nat) returns (err: int)
      requires Valid() && Wrote(was, pos, buf, 0, blk, off) && n == (if |buf| < bs - off then |buf| else bs - off)
      requires blk < |blocks| && off > 0
      modifies this`blocks
      ensures Valid() && |blocks| == |old(blocks)| && err == (if blk in bad then EIO else 0)
      ensures if err == 0 then Wrote(was, pos, buf, n, blk + 1, 0) else Wrote(was, pos, buf, 0, blk, off)
    {
      if n > 0 {
        err := PutNext(buf, 0, blk, off, n, was, pos);
      } else {
        TimesMonotone(blk + 1, |blocks|, bs);
        SpliceNone(Flat(), Times(blk, bs) + off);
        err := PutPart(blk, off, [], false);
      }
    }

    /** sfat_write_cluster: the bytes before the first bad block have gone to the cluster, and
        nothing else has changed. It touches the first block even when there is nothing to write
        and the transfer would begin inside it. */
    method WriteCluster(buf: seq<byte>, cls: nat, offset: nat) returns (ret: nat, err: int)
      requires Valid() && InCluster(cls, offset, |buf|)
      modifies this`blocks
      ensures Valid() && |blocks| == |old(blocks)|
      ensures Position(cls, offset) + |buf| <= |old(Flat())|
      ensures ret == Passed(cls, offset, |buf|) && Flat() == Splice(old(Flat()), Position(cls, offset), buf[..ret])
      ensures err == if NoneBad(cls, offset, |buf|) then 0 else EIO
      ensures err == 0 ==> ret == |buf|
    {
      ghost var was, pos := Flat(), Position(cls, offset);
      Start(cls, offset, |buf|);
      PassedIffNoneBad(cls, offset, |buf|);
      QuotRemIsDivMod(offset, bs);
      var blk: nat, blkOffset: nat := ClsToBlk(cls) + offset / bs, offset % bs;
      var blkSpace := bs - blkOffset;
      ret, err := 0, 0;
      SpliceNone(was, pos);
      assert buf[..0] == [] && buf[..|buf|] == buf;
      if blkOffset != 0 {
        var writeLen := if |buf| < blkSpace then |buf| else blkSpace;
        err := PutFirst(buf, blk, blkOffset, writeLen, was, pos);
        if err != 0 {
          return;
        }
        blk, ret := blk + 1, writeLen;
      }
      ret, err := WriteRest(buf, ret, blk, was, pos);
    }

    /** Whole blocks, and what is left of the last one. */
    method WriteRest(buf: seq<byte>, ret0: nat, blk0: nat, ghost was: seq<byte>, ghost pos: nat) returns (ret: nat, err: int)
      requires Valid() && Wrote(was, pos, buf, ret0, blk0, 0)
      modifies this`blocks
      ensures Valid() && |blocks| == |old(blocks)|
      ensures ret == ret0 + BytesBefore(bad, bs, blk0, 0, |buf| - ret0) <= |buf| && Flat() == Splice(was, pos, buf[..ret])
      ensures err == if ret == |buf| then 0 else EIO
    {
      var blk, len := blk0, |buf| - ret0;
      ret, err := ret0, 0;
      while len >= bs
        invariant Valid() && |blocks| == |old(blocks)| && ret + len == |buf| && len >= 0
        invariant Wrote(was, pos, buf, ret, blk, 0)
        invariant ret + BytesBefore(bad, bs, blk, 0, len) == ret0 + BytesBefore(bad, bs, blk0, 0, |buf| - ret0)
      {
        err := PutNext(buf, ret, blk, 0, bs, was, pos);
        if err != 0 {
          return;
        }
        blk, ret, len := blk + 1, ret + bs, len - bs;
      }
      if len > 0 {
        err := PutNext(buf, ret, blk, 0, len, was, pos);
        if err != 0 {
          return;
        }
        ret := ret + len;
      }
    }

    /** sfat_read_cluster: what it hands out is the stretch of the flat volume that lies before
        the first bad block. */
    method ReadCluster(len0: nat, cls: nat, offset: nat) returns (buf: seq<byte>, err: int)
      requires Valid() && InCluster(cls, offset, len0)
      ensures Position(cls, offset) + len0 <= |Flat()| && |buf| == Passed(cls, offset, len0)
      ensures buf == Flat()[Position(cls, offset)..Position(cls, offset) + |buf|]
      ensures err == if len0 == 0 || NoneBad(cls, offset, len0) then 0 else EIO
      ensures err == 0 ==> |buf| == len0
    {
      Start(cls, offset, len0);
      PassedIffNoneBad(cls, offset, len0);
      QuotRemIsDivMod(offset, bs);
      var blk: nat, blkOffset: nat := ClsToBlk(cls) + offset / bs, offset % bs;
      buf, err := ReadBlocks(len0, blk, blkOffset, Position(cls, offset));
    }

    /** The loop over the blocks. */
    method ReadBlocks(len0: nat, blk0: nat, off0: nat, ghost pos: nat) returns (buf: seq<byte>, err: int)
      requires Valid() && off0 < bs && pos == Times(blk0, bs) + off0 && pos + len0 <= Times(|blocks|, bs)
      ensures |buf| == BytesBefore(bad, bs, blk0, off0, len0) && buf == Flat()[pos..pos + |buf|]
      ensures err == if |buf| == len0 then 0 else EIO
    {
      ghost var flat := Flat();
      var blk: nat, blkOffset: nat, blkSpace, len := blk0, off0, bs - off0, len0;
      buf, err := [], 0;
      while len > 0
        invariant len >= 0 && |buf| + len == len0 && blkOffset < bs && blkSpace == bs - blkOffset
        invariant buf == flat[pos..pos + |buf|]
        invariant |buf| + BytesBefore(bad, bs, blk, blkOffset, len) == BytesBefore(bad, bs, blk0, off0, len0)
        invariant len > 0 ==> Times(blk, bs) + blkOffset == pos + |buf|
      {
        BlockInside(blk, pos + len0);
        var readLen := if len < blkSpace then len else blkSpace;
        err, buf := ReadNext(buf, blk, blkOffset, readLen, flat, pos);
        if err != 0 {
          return;
        }
        TimesAdd(blk, 1, bs);
        assert Times(1, bs) == bs;
        blk, len := blk + 1, len - readLen;
        blkOffset, blkSpace := 0, bs;
      }
    }

    /** One block's worth more. */
    method ReadNext(buf: seq<byte>, blk: nat, off: nat, n: nat, ghost flat: seq<byte>, ghost pos: nat) returns (err: int, buf': seq<byte>)
      requires Valid() && flat == Flat() && blk < |blocks| && off + n <= bs && Times(blk, bs) + off == pos + |buf|
      requires pos + |buf| <= |flat| && buf == flat[pos..pos + |buf|]
      ensures err == (if blk in bad then EIO else 0) && |buf'| == if err == 0 then |buf| + n else |buf|
      ensures pos + |buf'| <= |flat| && buf' == flat[pos..pos + |buf'|]
    {
      var data;
      buf' := buf;
      err, data := ReadBlock(blk);
      if err == 0 {
        ReadMore(pos, |buf|, blk, off, n, flat);
        buf' := buf + data[off..off + n];
      }
    }

    lemma ReadMore(pos: nat, m: nat, blk: nat, off: nat, n: nat, flat: seq<byte>)
      requires Valid() && flat == Flat() && blk < |blocks| && off + n <= bs && Times(blk, bs) + off == pos + m
      ensures pos + m + n <= |flat|
      ensures flat[pos..pos + m] + blocks[blk][off..off + n] == flat[pos..pos + m + n]
    {
      FlatPart(blk, off, n);
    }

    lemma FlatPart(blk: nat, off: nat, n: nat)
      requires Valid() && blk < |blocks| && off + n <= bs
      ensures Times(blk, bs) + off + n <= |Flat()|
      ensures Flat()[Times(blk, bs) + off..Times(blk, bs) + off + n] == blocks[blk][off..off + n]
    {
      TimesMonotone(blk + 1, |blocks|, bs);
      var a, b := Flat()[Times(blk, bs) + off..Times(blk, bs) + off + n], blocks[blk][off..off + n];
      forall i | 0 <= i < n
        ensures a[i] == b[i]
      {
        QuotRemUnique(Times(blk, bs) + off + i, bs, blk, off + i);
      }
    }

    /** Reading with the same arguments gives back what was written. */
    method WriteThenRead(buf: seq<byte>, cls: nat, offset: nat) returns (back: seq<byte>, err: int)
      requires Valid() && InCluster(cls, offset, |buf|)
      modifies this`blocks
      ensures Valid() && (err == 0 <==> NoneBad(cls, offset, |buf|)) && (err == 0 ==> back == buf)
    {
      var ret;
      ret, err := WriteCluster(buf, cls, offset);
      if err != 0 {
        return [], err;
      }
      back, err := ReadCluster(|buf|, cls, offset);
      assert buf[..ret] == buf;
    }

    /** The first block of the transfer, and room for all of it. */
    lemma Start(cls: nat, offset: nat, len: nat)
      requires Valid() && InCluster(cls, offset, len)
      ensures Quot(offset, bs) < blkPerClus
      ensures Times(ClsToBlk(cls) + Quot(offset, bs), bs) + Rem(offset, bs) == Position(cls, offset)
      ensures Position(cls, offset) + len <= Times(|blocks|, bs)
    {
      QuotRem(offset, bs);
      QuotBound(offset, bs, blkPerClus);
      TimesAdd(ClsToBlk(cls), Quot(offset, bs), bs);
      TimesAdd(ClsToBlk(cls), blkPerClus, bs);
      TimesMonotone(ClsToBlk(cls) + blkPerClus, |blocks|, bs);
    }

    /** A block that begins before the end of the transfer is a block of the volume. */
    lemma BlockInside(blk: nat, end: nat)
      requires Valid() && Times(blk, bs) < end <= Times(|blocks|, bs)
      ensures blk < |blocks|
    {
      if |blocks| <= blk {
        TimesMonotone(|blocks|, blk, bs);
      }
    }
  }
}
