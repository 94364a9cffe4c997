/** From the disks to the files: the layers put together. */
module EndToEnd {
  import opened Bytes
  import opened Blkptr
  import opened Raidz
  import opened RaidzGeometry
  import opened PoolRead
  import opened Erasure
  import opened BlockIo
  import opened BlockProofs
  import opened Lru
  import opened Dnodes
  import opened Tree
  import opened Objects
  import opened Extract

  // ----- columns without reconstruction -----

  /** `read_columns`: None when a supplied child fails to read. */
  method FetchAll(cols: seq<Column>, devices: map<nat, Device>) returns (r: Option<seq<Option<seq<Byte>>>>)
    ensures r.Some? ==> r.value == ReadColumns(devices, cols)
    ensures r.Some? <==> forall c :: 0 <= c < |cols| && cols[c].devidx in devices ==> ReadColumn(devices, cols[c]).Some?
  {
    var got: seq<Option<seq<Byte>>> := [];
    var n := 0;
    while n < |cols|
      invariant 0 <= n <= |cols| && |got| == n
      invariant forall c :: 0 <= c < n ==> got[c] == ReadColumn(devices, cols[c])
      invariant forall c :: 0 <= c < n && cols[c].devidx in devices ==> ReadColumn(devices, cols[c]).Some?
    {
      var col := cols[n];
      if col.size == 0 {
        got := got + [Some([])];
      } else if col.devidx !in devices {
        got := got + [None];
      } else {
        var bytes := devices[col.devidx].Pread(PhysOffset(col), col.size);
        if bytes.None? { return None; }
        got := got + [bytes];
      }
      n := n + 1;
    }
    r := Some(got);
  }

  /** What `assemble_data` gives: the data, None, or an exception for a column of a wrong length. */
  datatype Assembly = Assembled(data: seq<Byte>) | Lacking | WrongLength

  /** The first data column from `c` on that is missing or not whole. */
  function FirstBad(cols: seq<Column>, got: seq<Option<seq<Byte>>>, c: nat): (k: nat)
    requires |cols| == |got| && c <= |cols|
    ensures c <= k <= |cols|
    ensures forall i :: c <= i < k && cols[i].role == Data ==> got[i].Some? && |got[i].value| == cols[i].size
    ensures k < |cols| ==> cols[k].role == Data && (got[k].None? || |got[k].value| != cols[k].size)
    decreases |cols| - c
  {
    if c == |cols| || (cols[c].role == Data && (got[c].None? || |got[c].value| != cols[c].size)) then c
    else FirstBad(cols, got, c + 1)
  }

  /** `assemble_data`: the data columns end to end, unless one is missing or not whole; the first
      such column decides. */
  method AssembleData(cols: seq<Column>, got: seq<Option<seq<Byte>>>) returns (r: Assembly)
    requires |cols| == |got|
    ensures var k := FirstBad(cols, got, 0);
            r == if k == |cols| then Assembled(Join(cols, Values(got), |cols|))
                 else if got[k].None? then Lacking else WrongLength
  {
    hide Values;
    var pieces: seq<Byte> := [];
    var n := 0;
    while n < |cols|
      invariant 0 <= n <= |cols| && pieces == Join(cols, Values(got), n)
      invariant FirstBad(cols, got, n) == FirstBad(cols, got, 0)
    {
      if cols[n].role == Data {
        if got[n].None? { return Lacking; }
        if |got[n].value| != cols[n].size { return WrongLength; }
        pieces := pieces + got[n].value;
      }
      n := n + 1;
    }
    r := Assembled(pieces);
  }

  lemma {:induction false} JoinSize(cols: seq<Column>, bytes: seq<seq<Byte>>, n: nat)
    requires n <= |cols| == |bytes| && Whole(cols, bytes)
    ensures |Join(cols, bytes, n)| == SizeOf(cols[..n], Data)
  {
    if n > 0 {
      JoinSize(cols, bytes, n - 1);
      assert cols[..n][..n - 1] == cols[..n - 1];
    }
  }

  /** The columns of a map, read whole, always make up the size of the transfer. */
  lemma {:induction false} AssembledSize(l: Layout, bytes: seq<seq<Byte>>)
    requires l.Valid() && |bytes| == |l.Map().columns| && Whole(l.Map().columns, bytes)
    ensures |Join(l.Map().columns, bytes, |bytes|)| == l.size
  {
    hide Layout.Check, Layout.Map, Join, SizeOf;
    var cols := l.Map().columns;
    ColumnSizes(l);
    JoinSize(cols, bytes, |cols|);
    assert cols[..|cols|] == cols;
  }

  /** With all data columns there, the assembled data is the block that was laid out, and has
      exactly the size of the transfer. */
  lemma AssembledIsBlock(pool: Pool, l: Layout, block: seq<Byte>)
    requires l.Valid() && |block| == l.size && l.nparity == pool.nparity
    requires HoldsBlock(l.Map().columns, ReadColumns(pool.devices, l.Map().columns), block)
    requires var cols := l.Map().columns;
             forall c :: 0 <= c < |cols| && cols[c].role == Data ==> ReadColumn(pool.devices, cols[c]).Some?
    ensures var cols := l.Map().columns;
            Join(cols, Values(ReadColumns(pool.devices, cols)), |cols|) == block
  {
    hide Layout.Check, Layout.Map, SizeOf, Shares;
    var cols := l.Map().columns;
    var got := ReadColumns(pool.devices, cols);
    LayoutShape(pool, l, block);
    SharesRead(cols, got, block);
    JoinAll(cols, got, Values(got), pool.nparity, block);
  }

  // ----- the medium that a pool makes -----

  /** What a block pointer reads as; an exception is no result. */
  function Reading(env: Env, bp: BlockPointer): BlockResult
  {
    if Readied(env, bp) && ReadBlock(env, bp).Returned? then ReadBlock(env, bp).res
    else BlockIo.Blank(Unknown)
  }

  ghost predicate MediumOf(read: Medium, env: Env)
  {
    forall bp :: read(bp) == Reading(env, bp)
  }

  /** Success means data, and only success carries data. */
  lemma ReadingLaws(env: Env, bp: BlockPointer)
    ensures var res := Reading(env, bp);
            res.Ok() <==> res.data.Some?
    ensures var res := Reading(env, bp);
            res.physical.Some? ==> res.Ok()
  {
    if Readied(env, bp) {
      hide ReadBlock, BlockPointer.IsHole, BlockPointer.IsGang, BlockPointer.Embedded, BlockPointer.UsesCrypt;
      FailureHasNoData(env, bp);
      if Plain(bp) {
        ReadBlockOutcome(env, bp);
      } else {
        OddPointers(env, bp);
      }
    }
  }

  lemma OddPointers(env: Env, bp: BlockPointer)
    requires Readied(env, bp) && !Plain(bp)
    ensures ReadBlock(env, bp).Returned? && ReadBlock(env, bp).res.Ok() ==> ReadBlock(env, bp).res.data.Some?
  {
  }

  lemma MediumLaws(read: Medium, env: Env)
    requires MediumOf(read, env)
    ensures DataWhenOk(read)
    ensures forall bp :: read(bp).data.Some? || read(bp).physical.Some? ==> read(bp).Ok()
  {
    forall bp: BlockPointer
      ensures (read(bp).Ok() <==> read(bp).data.Some?) && (read(bp).physical.Some? ==> read(bp).Ok())
    {
      ReadingLaws(env, bp);
      assert read(bp) == Reading(env, bp);
    }
  }

  /** The cache over a pool: for every run of readings it answers what the pool holds, stays
      within its budget, never keeps a failed reading, and keeps the entries in the order of their last
      calls. */
  lemma {:induction false} CacheOverPool(read: Medium, env: Env, max: nat, calls: seq<BlockPointer>)
    requires MediumOf(read, env) && forall bp :: bp in calls ==> Blkptr.Genuine(bp)
    ensures var (c, answers) := Session(read, max, calls);
            && |answers| == |calls| && (forall i :: 0 <= i < |calls| ==> answers[i] == Reading(env, calls[i]))
            && WellKept(c, read, max, calls)
  {
    hide WellKept;
    MediumLaws(read, env);
    RunIsInvisible(read, max, calls);
  }

  // ----- a file on the disks -----

  /** Block `i` of the object, as far as the tree leads to it, is a hole or was written as
      `logical` on the disks. */
  ghost predicate OnDisk(env: Env, read: Medium, dn: Dnode, i: nat, logical: seq<Byte>)
    requires WellFormed(dn)
  {
    var e := BlockPointerFor(read, dn, i).0;
    && |logical| <= dn.Datablksize()
    && (e.Pointer? ==>
         if e.bp.IsHole() then logical == Zeros(dn.Datablksize())
         else
           && Readied(env, e.bp) && Plain(e.bp) && e.bp.Psize() > 0
           && exists physical :: Written(env, e.bp, physical, logical))
  }

  ghost predicate Survives(env: Env, read: Medium, dn: Dnode, i: nat)
    requires WellFormed(dn)
  {
    var e := BlockPointerFor(read, dn, i).0;
    e.Pointer? && (e.bp.IsHole() || (Readied(env, e.bp) && e.bp.Psize() > 0 && Recoverable(env, e.bp)))
  }

  /** A block on the disks is read back, padded to the block size, exactly when it survives. */
  lemma BlockFromDisk(env: Env, read: Medium, dn: Dnode, i: nat, logical: seq<Byte>)
    requires WellFormed(dn) && MediumOf(read, env) && OnDisk(env, read, dn, i, logical)
    ensures var b := BlockOf(read, dn, i);
            && (Extract.Usable(b) <==> Survives(env, read, dn, i))
            && (IsGood(b.status) <==> Survives(env, read, dn, i))
            && (Survives(env, read, dn, i) ==> b.data == Some(Pad(logical, dn.Datablksize())))
  {
    hide BlockPointerFor, BlockPointer.IsHole, BlockPointer.Psize, Readable, ReadBlock, Written, Readied, Plain;
    var e := BlockPointerFor(read, dn, i).0;
    if e.Nowhere? {
      MediumLaws(read, env);
      GoodIsUsable(read, dn, i);
    } else if !e.bp.IsHole() {
      var physical :| Written(env, e.bp, physical, logical);
      WrittenSize(env, e.bp, physical, logical);
      WrittenBlockIsRecovered(env, e.bp, physical, logical);
      assert read(e.bp) == Reading(env, e.bp);
    }
  }

  lemma WrittenSize(env: Env, bp: BlockPointer, physical: seq<Byte>, logical: seq<Byte>)
    requires Readied(env, bp) && bp.Psize() > 0 && Written(env, bp, physical, logical)
    ensures |physical| == bp.Psize()
  {
  }

  /** The true content of an object: its blocks, each padded to the block size. */
  function Content(logicals: seq<seq<Byte>>, bs: nat): seq<Byte>
  {
    if logicals == [] then []
    else Content(logicals[..|logicals| - 1], bs) + Pad(logicals[|logicals| - 1], bs)
  }

  lemma {:induction false} ContentByte(logicals: seq<seq<Byte>>, bs: nat, i: nat, r: nat)
    requires forall k :: 0 <= k < |logicals| ==> |logicals[k]| <= bs
    ensures |Content(logicals, bs)| == |logicals| * bs
    ensures i < |logicals| && r < bs ==>
              0 <= i * bs + r < |logicals| * bs && Content(logicals, bs)[i * bs + r] == Pad(logicals[i], bs)[r]
    decreases |logicals|
  {
    hide Pad;
    if logicals != [] {
      var n := |logicals| - 1;
      ContentByte(logicals[..n], bs, i, r);
      Distribute(n, 1, bs);
      assert |Pad(logicals[n], bs)| == bs;
      if i < |logicals| && r < bs {
        InRow(i, r, |logicals|, bs);
      }
    }
  }

  /** A file whose blocks were all written: its extraction is COMPLETE exactly when every block
      survives the missing disks, and then its bytes are the true content. */
  lemma {:induction false} FileFromDisks(env: Env, read: Medium, dn: Dnode, size: nat, logicals: seq<seq<Byte>>)
    requires WellFormed(dn) && MediumOf(read, env) && size > 0 && dn.Nblocks() > 0 && |logicals| == dn.Nblocks()
    requires forall i :: 0 <= i < dn.Nblocks() ==> OnDisk(env, read, dn, i, logicals[i])
    ensures var r := Extraction(read, dn, Some(size), true);
            var content := Content(logicals, dn.Datablksize());
            && (r.State() == Complete <==> forall i :: 0 <= i < dn.Nblocks() ==> Survives(env, read, dn, i))
            && (r.State() == Complete ==> |r.output| <= |content| && r.output == content[..|r.output|])
            && (r.State() == Complete && size <= |content| ==> r.output == content[..size])
  {
    hide BlockOf, Extraction, FileResult.State, OnDisk, Survives, MediumOf, DataWhenOk, Dnode.Nblocks, Content;
    var n, bs := dn.Nblocks(), dn.Datablksize();
    var content := Content(logicals, bs);
    MediumLaws(read, env);
    SmallBlocks(env, read, dn, logicals);
    ContentByte(logicals, bs, 0, 0);
    DiskIsTrue(env, read, dn, logicals);
    CompleteIff(read, dn, Some(size));
    forall i | 0 <= i < n
      ensures IsGood(BlockOf(read, dn, i).status) <==> Survives(env, read, dn, i)
    {
      BlockFromDisk(env, read, dn, i, logicals[i]);
    }
    if Extraction(read, dn, Some(size), true).State() == Complete {
      CompleteMeans(read, dn, size, content);
    }
  }

  lemma SmallBlocks(env: Env, read: Medium, dn: Dnode, logicals: seq<seq<Byte>>)
    requires WellFormed(dn) && |logicals| == dn.Nblocks()
    requires forall i :: 0 <= i < dn.Nblocks() ==> OnDisk(env, read, dn, i, logicals[i])
    ensures forall k :: 0 <= k < |logicals| ==> |logicals[k]| <= dn.Datablksize()
  {
    hide BlockPointerFor, Written, Dnode.Nblocks;
  }

  lemma {:induction false} DiskIsTrue(env: Env, read: Medium, dn: Dnode, logicals: seq<seq<Byte>>)
    requires WellFormed(dn) && MediumOf(read, env) && |logicals| == dn.Nblocks()
    requires forall i :: 0 <= i < dn.Nblocks() ==> OnDisk(env, read, dn, i, logicals[i])
    ensures TrueTo(read, dn, Content(logicals, dn.Datablksize()))
    ensures FitsBlocks(read, dn, dn.Nblocks())
  {
    hide BlockOf, OnDisk, Survives, MediumOf, Dnode.Nblocks, Content, Pad;
    var n, bs := dn.Nblocks(), dn.Datablksize();
    SmallBlocks(env, read, dn, logicals);
    ContentByte(logicals, bs, 0, 0);
    forall i: nat | i < n
      ensures BlockTrue(read, dn, Content(logicals, bs), i)
    {
      BlockIsTrue(env, read, dn, logicals, i);
    }
    forall i: nat | i < n
      ensures |Share(dn, BlockOf(read, dn, i))| <= bs
    {
      BlockFromDisk(env, read, dn, i, logicals[i]);
      ShareFits(env, read, dn, i, logicals[i]);
    }
  }

  lemma {:induction false} BlockIsTrue(env: Env, read: Medium, dn: Dnode, logicals: seq<seq<Byte>>, i: nat)
    requires WellFormed(dn) && MediumOf(read, env) && i < |logicals| && OnDisk(env, read, dn, i, logicals[i])
    requires forall k :: 0 <= k < |logicals| ==> |logicals[k]| <= dn.Datablksize()
    ensures BlockTrue(read, dn, Content(logicals, dn.Datablksize()), i)
  {
    hide OnDisk, Survives, MediumOf, Content, Pad, Dnode.Datablksize;
    var b, bs := BlockOf(read, dn, i), dn.Datablksize();
    var content := Content(logicals, bs);
    BlockFromDisk(env, read, dn, i, logicals[i]);
    if Extract.Usable(b) {
      assert b.data == Some(Pad(logicals[i], bs));
      assert |b.data.value| == bs;
      forall r: nat | r < bs
        ensures ByteTrue(b.data.value, bs, content, i, r)
      {
        ContentByte(logicals, bs, i, r);
      }
    }
  }

  lemma ShareFits(env: Env, read: Medium, dn: Dnode, i: nat, logical: seq<Byte>)
    requires WellFormed(dn) && |logical| <= dn.Datablksize()
    requires var b := BlockOf(read, dn, i);
             b.data.Some? && IsGood(b.status) ==> b.data == Some(Pad(logical, dn.Datablksize()))
    ensures |Share(dn, BlockOf(read, dn, i))| <= dn.Datablksize()
  {
  }
}
