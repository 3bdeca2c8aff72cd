/** Whole runs: any number of regular files on one volume, and any sequence of calls. */
module Sessions {
  import opened Arith
  import opened Packing
  import opened Chains
  import opened Logs
  import opened Volumes
  import opened BlockMath
  import opened Inodes
  import opened Machine
  import opened Mapping

  datatype Op =
    | CountFree
    | WriteBegin(file: nat, end: nat)
    | GetBlock(file: nat, iblock: nat, maxBlocks: nat, create: bool)
    | SetSize(file: nat, size: nat)
    | Truncate(file: nat)

  ghost predicate Open(vol: Volume, files: seq<Inode>)
    reads vol, vol.dev, vol.dev.data, files
  {
    && (forall i :: 0 <= i < |files| ==> files[i].vol == vol && files[i].Valid() && files[i].SizesOk())
    && (forall i, j :: 0 <= i < j < |files| ==> files[i].ino != files[j].ino)
    && vol.Valid() && vol.Layout() && vol.pending == []
  }

  /** The files whose chains a call may change. */
  ghost function Touched(files: seq<Inode>, op: Op): set<nat> {
    match op
    case GetBlock(i, _, _, _) => if i < |files| then {files[i].ino} else {}
    case Truncate(i) => if i < |files| then {files[i].ino} else {}
    case _ => {}
  }

  ghost function TouchedBy(files: seq<Inode>, ops: seq<Op>): set<nat> {
    if ops == [] then {} else TouchedBy(files, ops[..|ops| - 1]) + Touched(files, ops[|ops| - 1])
  }

  /** What every step of a run keeps, relative to its start. */
  twostate predicate Kept(vol: Volume)
    reads vol, vol.dev
  {
    && vol.dev.stale <= old(vol.dev.stale)
    && (old(vol.freeClusValid) ==> vol.freeClusValid)
  }

  // ----- how files come to be open

  /** fat_fill_inode on a file whose directory entry agrees with the FAT: it names the first
      cluster of a chain that no open file has, as long as its size needs. A file just created
      has no clusters and size 0. */
  method OpenFile(vol: Volume, files: seq<Inode>, ino: nat, limit: nat, start: int, size: nat, ghost c: seq<int>) returns (i: Inode)
    requires Open(vol, files) && ino !in vol.live && limit < FAT_ENT_EOF
    requires if c == [] then start == 0 else start == c[0] && IsChain(vol.dev.ents, c) && Unowned(vol.live, c)
    requires |c| == CeilDiv(size, vol.ClusterSize()) <= limit + 1
    modifies vol`live, vol`trace
    ensures fresh(i) && i.ino == ino && i.iSize == size && vol.live == old(vol.live)[ino := c]
    ensures Open(vol, files + [i])
    ensures old(LogOk(vol.trace)) ==> LogOk(vol.trace)
  {
    i := new Inode(vol, ino, limit, start, size);
    ghost var live0 := vol.live;
    vol.OpenFile(ino, c);
    forall k | 0 <= k < |files|
      ensures files[k].Valid() && files[k].SizesOk() && files[k].ino in live0
    {
      assert files[k].ino in live0;
    }
  }

  /** n new files on a volume just mounted. */
  method NewFiles(vol: Volume, n: nat, limit: nat) returns (files: seq<Inode>)
    requires vol.Valid() && vol.Layout() && vol.live == map[] && vol.pending == [] && limit < FAT_ENT_EOF
    modifies vol`live, vol`trace
    ensures Open(vol, files) && |files| == n && forall i :: 0 <= i < n ==> fresh(files[i])
    ensures forall i :: 0 <= i < n ==> files[i].ino == i && files[i].iSize == 0
    ensures old(LogOk(vol.trace)) ==> LogOk(vol.trace)
  {
    files := [];
    while |files| < n
      invariant Open(vol, files) && |files| <= n && forall i :: 0 <= i < |files| ==> fresh(files[i])
      invariant forall i :: 0 <= i < |files| ==> files[i].ino == i && files[i].iSize == 0
      invariant forall id :: id in vol.live ==> id < |files|
      invariant old(LogOk(vol.trace)) ==> LogOk(vol.trace)
      decreases n - |files|
    {
      CeilBounds(0, vol.ClusterSize());
      var i := OpenFile(vol, files, |files|, limit, 0, 0, []);
      files := files + [i];
    }
  }

  // ----- runs

  method StepWriteBegin(vol: Volume, files: seq<Inode>, i: nat, end: nat)
    requires Open(vol, files) && i < |files|
    modifies files
    ensures Open(vol, files)
  {
    files[i].WriteBegin(end);
  }

  method StepSetSize(vol: Volume, files: seq<Inode>, i: nat, size: nat)
    requires Open(vol, files) && i < |files| && size <= files[i].mmuPrivate
    modifies files
    ensures Open(vol, files)
  {
    files[i].SetSize(size);
  }

  method StepGetBlock(vol: Volume, files: seq<Inode>, i: nat, iblock: nat, maxBlocks: nat, create: bool)
    requires Open(vol, files) && i < |files| && maxBlocks > 0
    modifies vol, vol.dev, vol.dev.data, files
    ensures Open(vol, files) && Kept(vol)
    ensures LogGrows(old(vol.trace), vol.trace, old(vol.live), {files[i].ino}) && LiveBut(vol.live, old(vol.live), {files[i].ino})
  {
    ghost var f, live0 := vol.dev.ents, vol.live;
    QuotRemIsDivMod(iblock, vol.secPerClus);
    if iblock / vol.secPerClus <= files[i].limit {
      var err, phys, blocks := files[i].GetBlock(iblock, maxBlocks, create);
      Others(vol, files, i, f, live0);
    }
  }

  method StepTruncate(vol: Volume, files: seq<Inode>, i: nat)
    requires Open(vol, files) && i < |files|
    modifies vol, vol.dev, vol.dev.data, files
    ensures Open(vol, files) && Kept(vol)
    ensures LogGrows(old(vol.trace), vol.trace, old(vol.live), {files[i].ino}) && LiveBut(vol.live, old(vol.live), {files[i].ino})
  {
    ghost var f, live0 := vol.dev.ents, vol.live;
    files[i].Truncate();
    Others(vol, files, i, f, live0);
  }

  /** The calls as the virtual file system makes them: on open files, within s_maxbytes,
      with i_size never set past the allocated size. */
  method Step(vol: Volume, files: seq<Inode>, op: Op)
    requires Open(vol, files)
    modifies vol, vol.dev, vol.dev.data, files
    ensures Open(vol, files) && Kept(vol)
    ensures LogGrows(old(vol.trace), vol.trace, old(vol.live), Touched(files, op)) && LiveBut(vol.live, old(vol.live), Touched(files, op))
    ensures op == CountFree ==> vol.freeClusValid
  {
    match op {
      case CountFree =>
        vol.CountFreeClusters();
      case WriteBegin(i, end) =>
        if i < |files| {
          StepWriteBegin(vol, files, i, end);
        }
      case GetBlock(i, iblock, maxBlocks, create) =>
        if i < |files| && maxBlocks > 0 {
          StepGetBlock(vol, files, i, iblock, maxBlocks, create);
        }
      case SetSize(i, size) =>
        if i < |files| && size <= files[i].mmuPrivate {
          StepSetSize(vol, files, i, size);
        }
      case Truncate(i) =>
        if i < |files| {
          StepTruncate(vol, files, i);
        }
    }
  }

  /** After an operation on file k, every other file is as valid as before. */
  lemma Others(vol: Volume, files: seq<Inode>, k: nat, f: Fat, live0: Live)
    requires k < |files| && files[k].vol == vol && files[k].Valid() && files[k].SizesOk() && vol.pending == []
    requires vol.live == live0[files[k].ino := files[k].Chain()] && LiveOk(f, live0) && |f| == |vol.dev.ents|
    requires forall i, j :: 0 <= i < j < |files| ==> files[i].ino != files[j].ino
    requires forall i :: 0 <= i < |files| && i != k ==> files[i].vol == vol && WasOpen(files[i], f, live0)
    ensures Open(vol, files)
  {
    forall i | 0 <= i < |files|
      ensures files[i].Valid() && files[i].SizesOk()
    {
      if i != k {
        assert files[i].ino != files[k].ino;
        files[i].OthersKeep(f, live0[files[i].ino]);
      }
    }
  }

  /** Valid() and SizesOk() of a file, relative to a FAT and live chains of before. */
  ghost predicate WasOpen(i: Inode, f: Fat, live0: Live)
    reads i
  {
    && i.ino in live0 && i.limit < FAT_ENT_EOF
    && (if live0[i.ino] == [] then i.iStart == 0 && i.cacheLru == [] && i.nrCaches == 0 && 0 < i.cacheValidId < U32
        else i.iStart == live0[i.ino][0] && i.iStart != 0 && i.CacheOk(f))
    && i.iBlocks == Times(|live0[i.ino]|, i.vol.ClusterUnits())
    && i.vol.Layout() && i.iSize <= i.mmuPrivate && |live0[i.ino]| == CeilDiv(i.mmuPrivate, i.vol.ClusterSize()) <= i.limit + 1
  }

  /** Every run, from any open state. The log is complete, and in every snapshot of it each
      open file has a chain, well formed and disjoint from all others; from one snapshot to the
      next at most one FAT entry and one file's chain change; files that no call names keep
      their chains throughout. The copies of the FAT are in step and the free count is right. */
  method Run(vol: Volume, files: seq<Inode>, ops: seq<Op>)
    requires Open(vol, files)
    modifies vol, vol.dev, vol.dev.data, files
    ensures Open(vol, files) && vol.trace[|vol.trace| - 1] == vol.Now()
    ensures old(LogOk(vol.trace)) ==> LogOk(vol.trace)
    ensures LogGrows(old(vol.trace), vol.trace, old(vol.live), TouchedBy(files, ops))
    ensures old(vol.dev.stale) == {} ==> vol.dev.CopiesAgreeExcept({})
    ensures vol.freeClusValid ==> vol.freeClusters == FreeCount(vol.dev.ents)
    ensures CountFree in ops || old(vol.freeClusValid) ==> vol.freeClusValid
  {
    ghost var t0, live0 := vol.trace, vol.live;
    for n := 0 to |ops|
      invariant Open(vol, files) && Kept(vol)
      invariant LogGrows(t0, vol.trace, live0, TouchedBy(files, ops[..n])) && LiveBut(vol.live, live0, TouchedBy(files, ops[..n]))
      invariant CountFree in ops[..n] || old(vol.freeClusValid) ==> vol.freeClusValid
    {
      assert ops[..n + 1] == ops[..n] + [ops[n]] && ops[..n + 1][..n] == ops[..n];
      ghost var t1, live1 := vol.trace, vol.live;
      Step(vol, files, ops[n]);
      GrowsTrans(t0, t1, vol.trace, live0, live1, TouchedBy(files, ops[..n]), Touched(files, ops[n]), TouchedBy(files, ops[..n + 1]));
    }
    assert ops[..|ops|] == ops;
    GrowsMeans(t0, vol.trace, live0, TouchedBy(files, ops));
  }

  /** Extents that fat_bmap handed out for open files never overlap: a volume block belongs to
      one block of one file. */
  lemma ExtentsApart(vol: Volume, files: seq<Inode>, x: nat, i: nat, phys: nat, n: nat, y: nat, j: nat, phys': nat, n': nat,
                     k: nat, k': nat)
    requires Open(vol, files) && x < |files| && y < |files|
    requires files[x].Mapped(i, phys, n) && files[y].Mapped(j, phys', n') && k < n && k' < n'
    requires phys + k == phys' + k'
    ensures x == y && i + k == j + k'
  {
    var a := vol.Map();
    Extent(a, files[x].Chain(), i, k);
    Extent(a, files[y].Chain(), j, k');
    FilesShareNoBlock(a, vol.dev.ents, vol.live, files[x].ino, i + k, files[y].ino, j + k');
  }
}
