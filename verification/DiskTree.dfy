/** Files as they lie on the disks: trees of written blocks, stated without the reader; and what
    of them is read back after children are lost. */
module DiskTree {
  import opened Bytes
  import opened Blkptr
  import opened PoolRead
  import opened Erasure
  import opened BlockIo
  import opened BlockProofs
  import opened Writing
  import opened Lru
  import opened Dnodes
  import opened Tree
  import opened Objects
  import opened Extract
  import opened EndToEnd

  // ----- trees of blocks -----

  /** A pointer and what is under it: a hole, a block of the object, or an indirect block with its
      bytes and its children. */
  datatype Branch =
    | Gap(bp: BlockPointer)
    | Leaf(bp: BlockPointer, logical: seq<Byte>)
    | Indirect(bp: BlockPointer, data: seq<Byte>, children: seq<Branch>)

  /** What it means that a pointer was given some bytes. */
  type Holding = (BlockPointer, seq<Byte>) -> bool

  /** A tree of the given height: holes anywhere, full indirect blocks whose pointers are those of
      their children, and leaves of at most `bs` bytes, all held. */
  ghost predicate Grown(holds: Holding, t: Branch, level: nat, epbs: nat, bs: nat)
    decreases level, 1
  {
    match t
    case Gap(bp) => bp.IsHole()
    case Leaf(bp, logical) => level == 0 && !bp.IsHole() && |logical| <= bs && holds(bp, logical)
    case Indirect(bp, data, children) =>
      && level > 0 && !bp.IsHole() && holds(bp, data)
      && |children| == Pow2(epbs) && |children| * BLKPTR_SIZE <= |data|
      && forall k: nat :: k < |children| ==> ChildGrown(holds, data, children[k], k, level, epbs, bs)
  }

  ghost predicate ChildGrown(holds: Holding, data: seq<Byte>, child: Branch, k: nat, level: nat, epbs: nat, bs: nat)
    requires level > 0 && (k + 1) * BLKPTR_SIZE <= |data|
    decreases level, 0
  {
    child.bp == ParseBlkptr(data, k * BLKPTR_SIZE) && Grown(holds, child, level - 1, epbs, bs)
  }

  function Index(epbs: nat, level: nat, blkid: nat): (k: nat)
    requires level > 0
    ensures k < Pow2(epbs)
  {
    (blkid / Span(epbs, level - 1)) % Pow2(epbs)
  }

  /** The indirect blocks on the way to a block, and where the way ends. */
  function Way(t: Branch, level: nat, epbs: nat, blkid: nat): (seq<BlockPointer>, Branch)
    decreases level
  {
    if t.Indirect? && level > 0 && Index(epbs, level, blkid) < |t.children| then
      var (ps, end) := Way(t.children[Index(epbs, level, blkid)], level - 1, epbs, blkid);
      ([t.bp] + ps, end)
    else ([], t)
  }

  /** Every block that must be read to have block `blkid`: the indirect ones and, unless the way
      ends in a hole, the block itself. */
  function Path(t: Branch, level: nat, epbs: nat, blkid: nat): seq<BlockPointer>
  {
    var (ps, end) := Way(t, level, epbs, blkid);
    if end.Gap? then ps else ps + [end.bp]
  }

  /** What the block holds: its bytes, or the zeros of a hole. */
  function Logical(t: Branch, level: nat, epbs: nat, bs: nat, blkid: nat): seq<Byte>
  {
    var end := Way(t, level, epbs, blkid).1;
    if end.Leaf? then end.logical else Zeros(bs)
  }

  // ----- written blocks -----

  /** The pool holds the bytes behind the pointer, on every copy. */
  ghost predicate WrittenAs(env: Env, bp: BlockPointer, logical: seq<Byte>)
  {
    && Readied(env, bp) && Plain(bp) && bp.Psize() > 0
    && exists physical :: Written(env, bp, physical, logical)
  }

  ghost function WrittenIn(env: Env): Holding { (bp, logical) => WrittenAs(env, bp, logical) }

  /** The pointer can be read. */
  ghost predicate Alive(env: Env, bp: BlockPointer)
  {
    Readied(env, bp) && bp.Psize() > 0 && Recoverable(env, bp)
  }

  ghost predicate AllAlive(env: Env, ps: seq<BlockPointer>)
  {
    forall bp :: bp in ps ==> Alive(env, bp)
  }

  /** Reading a written block: its bytes when a copy is recoverable, else MISSING_DATA. */
  lemma WrittenReads(env: Env, read: Medium, bp: BlockPointer, logical: seq<Byte>)
    requires MediumOf(read, env) && WrittenAs(env, bp, logical)
    ensures read(bp).Ok() <==> Alive(env, bp)
    ensures Alive(env, bp) ==> read(bp).data == Some(logical)
    ensures !Alive(env, bp) ==> read(bp).status == MissingData
    ensures !bp.IsHole()
  {
    hide ReadBlock, Written, Readable, BlockPointer.Psize, BlockPointer.IsHole, Readied;
    var physical :| Written(env, bp, physical, logical);
    WrittenSize(env, bp, physical, logical);
    WrittenBlockIsRecovered(env, bp, physical, logical);
    assert read(bp) == Reading(env, bp);
  }

  // ----- descent -----

  /** A way ends in a hole or in a block of the object. */
  ghost predicate EndsWell(holds: Holding, end: Branch, bs: nat)
  {
    match end
    case Gap(bp) => bp.IsHole()
    case Leaf(bp, logical) => !bp.IsHole() && |logical| <= bs && holds(bp, logical)
    case Indirect(_, _, _) => false
  }

  lemma {:induction false} WayEnds(holds: Holding, t: Branch, level: nat, epbs: nat, bs: nat, blkid: nat)
    requires Grown(holds, t, level, epbs, bs)
    ensures EndsWell(holds, Way(t, level, epbs, blkid).1, bs)
    decreases level
  {
    hide BlockPointer.IsHole, Pow2, Index, ParseBlkptr;
    if t.Indirect? {
      var k := Index(epbs, level, blkid);
      assert ChildGrown(holds, t.data, t.children[k], k, level, epbs, bs);
      WayEnds(holds, t.children[k], level - 1, epbs, bs, blkid);
    }
  }

  /** Descending a tree on the disks: it comes to the end of the way if every indirect block on it
      can be read, and otherwise nowhere, for want of data. */
  lemma {:induction false} DescendGrown(env: Env, read: Medium, t: Branch, level: nat, epbs: nat, bs: nat,
                                        blkid: nat, path: Tree.Path)
    requires MediumOf(read, env) && Grown(WrittenIn(env), t, level, epbs, bs)
    ensures var (ps, end) := Way(t, level, epbs, blkid);
            Descend(read, epbs, t.bp, level, blkid, path).0
            == if AllAlive(env, ps) then Pointer(end.bp) else Nowhere(MissingData)
    decreases level
  {
    hide MediumOf, WrittenAs, Alive, BlockPointer.IsHole, Pow2, Span, BlockResult.Ok, Descend, ParseBlkptr;
    if t.Indirect? {
      WrittenReads(env, read, t.bp, t.data);
      var k := Index(epbs, level, blkid);
      assert ChildGrown(WrittenIn(env), t.data, t.children[k], k, level, epbs, bs);
      var longer: Tree.Path := path + [(level - 1, k)];
      DescendGrown(env, read, t.children[k], level - 1, epbs, bs, blkid, longer);
      var ps := Way(t.children[k], level - 1, epbs, blkid).0;
      OneMore(env, t.bp, ps);
      MulMono(k + 1, |t.children|, BLKPTR_SIZE);
      OneLevel(read, epbs, t.bp, level, blkid, path, k);
    } else {
      OneLevel(read, epbs, t.bp, level, blkid, path, 0);
    }
  }

  lemma OneMore(env: Env, bp: BlockPointer, ps: seq<BlockPointer>)
    ensures AllAlive(env, [bp] + ps) <==> Alive(env, bp) && AllAlive(env, ps)
  {
    hide Alive;
  }

  /** One level of the descent. */
  lemma {:induction false} OneLevel(read: Medium, epbs: nat, bp: BlockPointer, level: nat, blkid: nat,
                                    path: Tree.Path, k: nat)
    ensures level == 0 || bp.IsHole() ==> Descend(read, epbs, bp, level, blkid, path).0 == Pointer(bp)
    ensures level > 0 && !bp.IsHole() && !read(bp).Ok() ==>
              Descend(read, epbs, bp, level, blkid, path).0 == Nowhere(read(bp).status)
    ensures level > 0 && !bp.IsHole() && read(bp).Ok() && read(bp).data.Some? && k == Index(epbs, level, blkid)
              && (k + 1) * BLKPTR_SIZE <= |read(bp).data.value| ==>
              Descend(read, epbs, bp, level, blkid, path).0
              == Descend(read, epbs, ParseBlkptr(read(bp).data.value, k * BLKPTR_SIZE), level - 1, blkid,
                         path + [(level - 1, k)]).0
  {
    hide BlockPointer.IsHole, Pow2, Span, BlockResult.Ok, ParseBlkptr;
  }

  // ----- files -----

  /** The dnode of a file and the trees under its pointers, which reach all its blocks. */
  ghost predicate FileGrown(holds: Holding, dn: Dnode, trees: seq<Branch>)
  {
    && WellFormed(dn) && dn.Allocated() && dn.nlevels > 0 && |trees| == dn.nblkptr
    && dn.maxblkid < dn.nblkptr * Span(Shift(dn), dn.nlevels - 1)
    && forall k: nat :: k < |trees| ==> TreeAt(holds, dn, trees, k)
  }

  ghost predicate TreeAt(holds: Holding, dn: Dnode, trees: seq<Branch>, k: nat)
    requires |dn.blkptrs| == |trees| && k < |trees| && dn.nlevels > 0
  {
    dn.blkptrs[k] == trees[k].bp && Grown(holds, trees[k], dn.nlevels - 1, Shift(dn), dn.Datablksize())
  }

  function Shift(dn: Dnode): nat { Max(dn.Epbs(), 0) }

  /** The pointer of the dnode under which block `i` lies. */
  function TopOf(dn: Dnode, i: nat): nat
    requires dn.nlevels > 0
  {
    i / Span(Shift(dn), dn.nlevels - 1)
  }

  function FilePath(dn: Dnode, trees: seq<Branch>, i: nat): seq<BlockPointer>
    requires dn.nlevels > 0 && TopOf(dn, i) < |trees|
  {
    Path(trees[TopOf(dn, i)], dn.nlevels - 1, Shift(dn), i)
  }

  function FileLogical(dn: Dnode, trees: seq<Branch>, i: nat): seq<Byte>
    requires dn.nlevels > 0 && TopOf(dn, i) < |trees|
  {
    Logical(trees[TopOf(dn, i)], dn.nlevels - 1, Shift(dn), dn.Datablksize(), i)
  }

  lemma TopInFile(holds: Holding, dn: Dnode, trees: seq<Branch>, i: nat)
    requires FileGrown(holds, dn, trees) && i <= dn.maxblkid
    ensures TopOf(dn, i) < |trees| && TreeAt(holds, dn, trees, TopOf(dn, i))
  {
    hide TreeAt, Span, WellFormed;
    var w := Span(Shift(dn), dn.nlevels - 1);
    if i / w >= |trees| { MulMono(|trees|, i / w, w); }
  }

  /** A block of a file on the disks survives exactly when every block on the way to it, and it
      itself, is alive; and then its bytes are the true ones. */
  lemma {:induction false} BlockOnDisk(env: Env, read: Medium, dn: Dnode, trees: seq<Branch>, i: nat)
    requires MediumOf(read, env) && FileGrown(WrittenIn(env), dn, trees) && i <= dn.maxblkid
    ensures TopOf(dn, i) < |trees|
    ensures OnDisk(env, read, dn, i, FileLogical(dn, trees, i))
    ensures Survives(env, read, dn, i) <==> AllAlive(env, FilePath(dn, trees, i))
  {
    hide MediumOf, Grown, Way, Descend, Span, Alive, BlockPointer.IsHole, Readied, Plain, BlockPointer.Psize, Written;
    TopInFile(WrittenIn(env), dn, trees, i);
    var level: nat, epbs, top := dn.nlevels - 1, Shift(dn), TopOf(dn, i);
    var (ps, end) := Way(trees[top], level, epbs, i);
    WayEnds(WrittenIn(env), trees[top], level, epbs, dn.Datablksize(), i);
    DescendGrown(env, read, trees[top], level, epbs, dn.Datablksize(), i, [(level, top)]);
    TopIndex(epbs, i);
    assert BlockPointerFor(read, dn, i).0 == Descend(read, epbs, trees[top].bp, level, i, [(level, top)]).0;
    PathAlive(env, ps, end);
    EndAlive(env, end);
  }

  lemma PathAlive(env: Env, ps: seq<BlockPointer>, end: Branch)
    ensures AllAlive(env, ps + [end.bp]) <==> AllAlive(env, ps) && Alive(env, end.bp)
  {
    hide Alive;
    assert end.bp in ps + [end.bp];
  }

  lemma EndAlive(env: Env, end: Branch)
    ensures Alive(env, end.bp) ==> Readied(env, end.bp) && end.bp.Psize() > 0 && Recoverable(env, end.bp)
    ensures Readied(env, end.bp) && end.bp.Psize() > 0 && Recoverable(env, end.bp) ==> Alive(env, end.bp)
  {
  }

  /** The true bytes of the blocks of a file. */
  ghost function Logicals(holds: Holding, dn: Dnode, trees: seq<Branch>, n: nat): (ls: seq<seq<Byte>>)
    requires FileGrown(holds, dn, trees) && n <= dn.Nblocks()
    ensures |ls| == n
    ensures forall i: nat :: i < n ==> TopOf(dn, i) < |trees| && ls[i] == FileLogical(dn, trees, i)
  {
    if n == 0 then []
    else
      TopInFile(holds, dn, trees, n - 1);
      Logicals(holds, dn, trees, n - 1) + [FileLogical(dn, trees, n - 1)]
  }

  ghost function FileContent(holds: Holding, dn: Dnode, trees: seq<Branch>): seq<Byte>
    requires FileGrown(holds, dn, trees)
  {
    Content(Logicals(holds, dn, trees, dn.Nblocks()), dn.Datablksize())
  }

  /** Every block that must be read to have the file. */
  ghost predicate FileAlive(env: Env, dn: Dnode, trees: seq<Branch>, i: nat)
    requires dn.nlevels > 0
  {
    TopOf(dn, i) < |trees| && AllAlive(env, FilePath(dn, trees, i))
  }

  /** A file on the disks, whatever is lost of it, indirect blocks included: its extraction is
      COMPLETE exactly when every block on the way to each of its blocks is alive; each byte put
      out is the true one where that is so and zero elsewhere; and a complete file is its content,
      as far as its blocks go. */
  lemma {:induction false} FileFromTree(env: Env, read: Medium, dn: Dnode, trees: seq<Branch>, size: nat)
    requires MediumOf(read, env) && FileGrown(WrittenIn(env), dn, trees) && size > 0
    ensures var r := Extraction(read, dn, Some(size), true);
            var content := FileContent(WrittenIn(env), dn, trees);
            && |content| == dn.Nblocks() * dn.Datablksize()
            && |r.output| == Min(size, |content|)
            && (r.State() == Complete <==> forall i: nat :: i < dn.Nblocks() ==> FileAlive(env, dn, trees, i))
            && (r.State() == Complete ==> r.output == content[..|r.output|])
            && (forall i: nat, b: nat :: i < dn.Nblocks() && b < dn.Datablksize() ==>
                  ByteOrZero(r.output, content, dn.Datablksize(), i, b, FileAlive(env, dn, trees, i)))
  {
    hide MediumOf, FileGrown, Extraction, FileResult.State, Content, OnDisk, Survives, FileAlive, BlockOf, FilePath,
         FileLogical, WrittenIn, FitsBlocks, TrueTo, DataWhenOk, Dnode.Nblocks, ByteOrZero, Logicals;
    var n, bs := dn.Nblocks(), dn.Datablksize();
    FileFacts(WrittenIn(env), dn, trees);
    var logicals := Logicals(WrittenIn(env), dn, trees, n);
    var content := Content(logicals, bs);
    forall i: nat | i < n
      ensures OnDisk(env, read, dn, i, logicals[i])
      ensures Survives(env, read, dn, i) <==> FileAlive(env, dn, trees, i)
      ensures IsGood(BlockOf(read, dn, i).status) <==> FileAlive(env, dn, trees, i)
    {
      BlockOnDisk(env, read, dn, trees, i);
      AliveIs(env, dn, trees, i);
      BlockFromDisk(env, read, dn, i, logicals[i]);
    }
    FileFromDisks(env, read, dn, size, logicals);
    SmallBlocks(env, read, dn, logicals);
    ContentByte(logicals, bs, 0, 0);
    MediumLaws(read, env);
    DiskIsTrue(env, read, dn, logicals);
    OutputIs(read, dn, size, content);
    forall i: nat, b: nat | i < n && b < bs
      ensures ByteOrZero(Extraction(read, dn, Some(size), true).output, content, bs, i, b, FileAlive(env, dn, trees, i))
    {
      TrueByte(read, dn, size, content, i, b);
    }
  }

  /** Byte `b` of block `i`, if the output goes that far, is the true one, or zero where the block is
      lost. */
  predicate ByteOrZero(output: seq<Byte>, content: seq<Byte>, bs: nat, i: nat, b: nat, alive: bool)
  {
    var x := i * bs + b;
    0 <= x < |output| ==> x < |content| && output[x] == if alive then content[x] else 0
  }

  lemma {:induction false} TrueByte(read: Medium, dn: Dnode, size: nat, content: seq<Byte>, i: nat, b: nat)
    requires WellFormed(dn) && DataWhenOk(read) && FitsBlocks(read, dn, dn.Nblocks()) && TrueTo(read, dn, content)
    requires size > 0 && i < dn.Nblocks() && b < dn.Datablksize()
    ensures ByteOrZero(Extraction(read, dn, Some(size), true).output, content, dn.Datablksize(), i, b,
                       IsGood(BlockOf(read, dn, i).status))
  {
    hide BlockOf, After, DataWhenOk, FitsBlocks, TrueTo, Dnode.Nblocks;
    BytesAreTrue(read, dn, Some(size), content, i, b);
    FromAfter(read, dn, size);
  }

  lemma {:induction false} FileFacts(holds: Holding, dn: Dnode, trees: seq<Branch>)
    requires FileGrown(holds, dn, trees)
    ensures WellFormed(dn) && dn.nlevels > 0 && dn.Nblocks() == dn.maxblkid + 1
  {
    hide TreeAt;
  }

  lemma AliveIs(env: Env, dn: Dnode, trees: seq<Branch>, i: nat)
    requires dn.nlevels > 0 && TopOf(dn, i) < |trees|
    ensures FileAlive(env, dn, trees, i) <==> AllAlive(env, FilePath(dn, trees, i))
  {
  }

  lemma {:induction false} FromAfter(read: Medium, dn: Dnode, size: nat)
    requires WellFormed(dn) && size > 0
    ensures Extraction(read, dn, Some(size), true) == After(read, dn, Some(size), true, dn.Nblocks())
  {
  }

  lemma {:induction false} OutputIs(read: Medium, dn: Dnode, size: nat, content: seq<Byte>)
    requires WellFormed(dn) && size > 0 && |content| == dn.Nblocks() * dn.Datablksize()
    ensures |Extraction(read, dn, Some(size), true).output| == Min(size, |content|)
  {
    hide After;
    FromAfter(read, dn, size);
    Conservation(read, dn, Some(size), dn.Nblocks());
  }

  // ----- lost children -----

  /** The same readings, without some children. */
  function Less(env: Env, gone: set<nat>): Env { env.(pool := Writing.Without(env.pool, gone)) }

  /** What was written stays written: losing children takes columns away, not bytes. */
  lemma {:induction false} WrittenSurvives(env: Env, gone: set<nat>, bp: BlockPointer, logical: seq<Byte>)
    requires WrittenAs(env, bp, logical)
    ensures WrittenAs(Less(env, gone), bp, logical)
  {
    hide Stored, Matches, Decoding, BlockPointer.IsHole, BlockPointer.IsGang, BlockPointer.Psize;
    var physical :| Written(env, bp, physical, logical);
    var less := Less(env, gone);
    forall d | d in bp.dvas && !d.IsEmpty()
      ensures CopyHolds(less, d, physical)
    {
      var tail: seq<Byte> :| Stored(env.pool, d, |physical|, physical + tail);
      LossKeepsRest(env.pool, d, |physical|, physical + tail, gone);
    }
    SameReading(env, less, bp, physical);
    assert Written(less, bp, physical, logical);
  }

  /** Checksum and decompression do not depend on the pool. */
  lemma SameReading(env: Env, other: Env, bp: BlockPointer, physical: seq<Byte>)
    requires other == env.(pool := other.pool)
    ensures Matches(other, bp, physical) == Matches(env, bp, physical)
    ensures Decoding(other, bp, physical) == Decoding(env, bp, physical)
  {
  }

  /** A tree that is held in one way is held in any weaker way. */
  lemma {:induction false} GrownWeaker(holds: Holding, weaker: Holding, t: Branch, level: nat, epbs: nat, bs: nat)
    requires Grown(holds, t, level, epbs, bs)
    requires forall bp, logical :: holds(bp, logical) ==> weaker(bp, logical)
    ensures Grown(weaker, t, level, epbs, bs)
    decreases level
  {
    hide BlockPointer.IsHole, ParseBlkptr, Pow2;
    if t.Indirect? {
      forall k: nat | k < |t.children|
        ensures ChildGrown(weaker, t.data, t.children[k], k, level, epbs, bs)
      {
        assert ChildGrown(holds, t.data, t.children[k], k, level, epbs, bs);
        GrownWeaker(holds, weaker, t.children[k], level - 1, epbs, bs);
      }
    }
  }

  lemma FileWeaker(holds: Holding, weaker: Holding, dn: Dnode, trees: seq<Branch>)
    requires FileGrown(holds, dn, trees)
    requires forall bp, logical :: holds(bp, logical) ==> weaker(bp, logical)
    ensures FileGrown(weaker, dn, trees)
  {
    hide Grown, Span;
    forall k: nat | k < |trees|
      ensures TreeAt(weaker, dn, trees, k)
    {
      assert TreeAt(holds, dn, trees, k);
      GrownWeaker(holds, weaker, trees[k], dn.nlevels - 1, Shift(dn), dn.Datablksize());
    }
  }

  /** A file on the disks is one still after any loss. */
  lemma FileSurvivesLoss(env: Env, gone: set<nat>, dn: Dnode, trees: seq<Branch>)
    requires FileGrown(WrittenIn(env), dn, trees)
    ensures FileGrown(WrittenIn(Less(env, gone)), dn, trees)
  {
    hide FileGrown, WrittenAs;
    forall bp, logical | WrittenIn(env)(bp, logical)
      ensures WrittenIn(Less(env, gone))(bp, logical)
    {
      WrittenSurvives(env, gone, bp, logical);
    }
    FileWeaker(WrittenIn(env), WrittenIn(Less(env, gone)), dn, trees);
  }

  // ----- from the writer -----

  /** Every copy of the pointer is among the writes, with the physical bytes at its start. */
  ghost predicate LaidOut(bp: BlockPointer, physical: seq<Byte>, ws: seq<Placed>)
  {
    forall d :: d in bp.dvas && !d.IsEmpty() ==> exists k :: 0 <= k < |ws| && Carries(ws[k], d, physical)
  }

  predicate Carries(w: Placed, d: Dva, physical: seq<Byte>)
  {
    w.dva == d && w.psize == |physical| && physical <= w.block
  }

  /** The writes hold the bytes behind the pointer: they carry a physical form of them on every copy,
      which the checksum and the decoder of the pointer accept. */
  ghost predicate WrittenBy(env: Env, ws: seq<Placed>, bp: BlockPointer, logical: seq<Byte>)
  {
    && Readied(env, bp) && Plain(bp) && bp.Psize() > 0
    && exists physical ::
         && |physical| == bp.Psize() && LaidOut(bp, physical, ws)
         && Matches(env, bp, physical) && Decoding(env, bp, physical) == Codec.Ok(logical)
  }

  ghost function WrittenOver(env: Env, ws: seq<Placed>): Holding { (bp, logical) => WrittenBy(env, ws, bp, logical) }

  function Laid(env: Env, ws: seq<Placed>): Env
    requires env.pool.Valid() && AllOn(env.pool, ws)
  {
    env.(pool := WriteAll(env.pool, ws))
  }

  /** What the writes hold, the pool holds after them. */
  lemma {:induction false} WritesHold(env: Env, ws: seq<Placed>, bp: BlockPointer, logical: seq<Byte>)
    requires env.pool.Valid() && AllOn(env.pool, ws) && AllClear(env.pool, ws) && WrittenBy(env, ws, bp, logical)
    ensures WrittenAs(Laid(env, ws), bp, logical)
  {
    hide Stored, Unreadable, Matches, Decoding, WriteAll, AllClear, BlockPointer.IsHole, BlockPointer.IsGang,
         BlockPointer.Psize, Pool.LayoutOf;
    var physical :| |physical| == bp.Psize() && LaidOut(bp, physical, ws)
                    && Matches(env, bp, physical) && Decoding(env, bp, physical) == Codec.Ok(logical);
    var after := Laid(env, ws);
    forall d | d in bp.dvas && !d.IsEmpty()
      ensures CopyHolds(after, d, physical)
    {
      var k :| 0 <= k < |ws| && Carries(ws[k], d, physical);
      WriteAllStores(env.pool, ws, k);
      assert ws[k].block == physical + ws[k].block[|physical|..];
    }
    SameReading(env, after, bp, physical);
    assert Written(after, bp, physical, logical);
  }

  lemma FileLaidOut(env: Env, ws: seq<Placed>, dn: Dnode, trees: seq<Branch>)
    requires env.pool.Valid() && AllOn(env.pool, ws) && AllClear(env.pool, ws)
    requires FileGrown(WrittenOver(env, ws), dn, trees)
    ensures FileGrown(WrittenIn(Laid(env, ws)), dn, trees)
  {
    hide FileGrown, WrittenAs, WrittenBy, AllClear, AllOn, Laid;
    forall bp, logical | WrittenOver(env, ws)(bp, logical)
      ensures WrittenIn(Laid(env, ws))(bp, logical)
    {
      WritesHold(env, ws, bp, logical);
    }
    FileWeaker(WrittenOver(env, ws), WrittenIn(Laid(env, ws)), dn, trees);
  }

  /** The loss spares some copy, as the geometry counts. */
  ghost predicate CopySpared(env: Env, bp: BlockPointer, gone: set<nat>)
  {
    && Readied(env, bp) && bp.Psize() > 0
    && exists i :: 0 <= i < |bp.dvas| && !bp.dvas[i].IsEmpty() && Spared(env.pool, bp.dvas[i], bp.Psize(), gone)
  }

  ghost predicate AllSpared(env: Env, ps: seq<BlockPointer>, gone: set<nat>)
  {
    forall bp :: bp in ps ==> CopySpared(env, bp, gone)
  }

  lemma {:induction false} CopyAlive(env: Env, ws: seq<Placed>, gone: set<nat>, d: Dva, physical: seq<Byte>, k: nat)
    requires env.pool.Valid() && AllOn(env.pool, ws) && AllClear(env.pool, ws) && Healthy(env.pool, ws)
    requires k < |ws| && Carries(ws[k], d, physical) && env.pool.Aligned(d) && |physical| > 0
    ensures Readable(Less(Laid(env, ws), gone).pool, d, |physical|) <==> Spared(env.pool, d, |physical|, gone)
  {
    hide Stored, Unreadable, WriteAll, AllClear, AllOn, Hit, Pool.LayoutOf;
    var after := WriteAll(env.pool, ws);
    WriteAllStores(env.pool, ws, k);
    LossKeepsRest(after, d, |physical|, ws[k].block, gone);
    SameHit(env.pool, after, d, |physical|, gone);
    assert Unreadable(env.pool, d, |physical|) == {};
  }

  /** After the writes and the loss, a written block is alive exactly when the loss spares a copy. */
  lemma {:induction false} AliveIffSpared(env: Env, ws: seq<Placed>, gone: set<nat>, bp: BlockPointer,
                                          logical: seq<Byte>)
    requires env.pool.Valid() && AllOn(env.pool, ws) && AllClear(env.pool, ws) && Healthy(env.pool, ws)
    requires WrittenBy(env, ws, bp, logical)
    ensures Alive(Less(Laid(env, ws), gone), bp) <==> CopySpared(env, bp, gone)
  {
    hide Stored, Readable, Spared, Matches, Decoding, WriteAll, AllClear, AllOn, Healthy, BlockPointer.Psize,
         BlockPointer.IsHole, BlockPointer.IsGang, Pool.LayoutOf;
    var physical :| |physical| == bp.Psize() && LaidOut(bp, physical, ws)
                    && Matches(env, bp, physical) && Decoding(env, bp, physical) == Codec.Ok(logical);
    forall i | 0 <= i < |bp.dvas| && !bp.dvas[i].IsEmpty()
      ensures Readable(Less(Laid(env, ws), gone).pool, bp.dvas[i], bp.Psize())
              <==> Spared(env.pool, bp.dvas[i], bp.Psize(), gone)
    {
      var d := bp.dvas[i];
      assert d in bp.dvas;
      var k :| 0 <= k < |ws| && Carries(ws[k], d, physical);
      CopyAlive(env, ws, gone, d, physical, k);
    }
  }

  /** Every pointer on a way is one that was given bytes. */
  lemma {:induction false} PathHeld(holds: Holding, t: Branch, level: nat, epbs: nat, bs: nat, blkid: nat,
                                    bp: BlockPointer)
    requires Grown(holds, t, level, epbs, bs) && bp in Path(t, level, epbs, blkid)
    ensures exists logical :: holds(bp, logical)
    decreases level
  {
    hide BlockPointer.IsHole, Pow2, Index, ParseBlkptr;
    match t
    case Gap(_) =>
    case Leaf(_, logical) => assert holds(t.bp, logical);
    case Indirect(_, data, children) =>
      assert holds(t.bp, data);
      var k := Index(epbs, level, blkid);
      if bp != t.bp && k < |children| {
        assert ChildGrown(holds, data, children[k], k, level, epbs, bs);
        PathHeld(holds, children[k], level - 1, epbs, bs, blkid, bp);
      }
  }

  /** From the writer to the file: write all blocks of a file, indirect ones included, on healthy
      pairwise disjoint places of a pool, then lose any children. The extraction is COMPLETE exactly
      when the loss spares a copy of every block on the way to each block of the file; each byte put
      out is the true one where that is so, and zero elsewhere. */
  lemma {:induction false} WriterToFile(env: Env, ws: seq<Placed>, gone: set<nat>, read: Medium, dn: Dnode,
                                        trees: seq<Branch>, size: nat)
    requires env.pool.Valid() && AllOn(env.pool, ws) && AllClear(env.pool, ws) && Healthy(env.pool, ws)
    requires FileGrown(WrittenOver(env, ws), dn, trees) && size > 0
    requires MediumOf(read, Less(Laid(env, ws), gone))
    ensures var r := Extraction(read, dn, Some(size), true);
            var content := FileContent(WrittenOver(env, ws), dn, trees);
            && |content| == dn.Nblocks() * dn.Datablksize()
            && |r.output| == Min(size, |content|)
            && (r.State() == Complete <==>
                forall i: nat :: i < dn.Nblocks() ==> FileSpared(env, dn, trees, i, gone))
            && (r.State() == Complete ==> r.output == content[..|r.output|])
            && (forall i: nat, b: nat :: i < dn.Nblocks() && b < dn.Datablksize() ==>
                  ByteOrZero(r.output, content, dn.Datablksize(), i, b, FileSpared(env, dn, trees, i, gone)))
  {
    hide MediumOf, FileGrown, Extraction, FileResult.State, Content, FileAlive, FileSpared, ByteOrZero, Logicals,
         AllOn, AllClear, Healthy, Laid, WrittenOver, WrittenIn, Dnode.Nblocks, FileContent;
    var after := Laid(env, ws);
    var less := Less(after, gone);
    FileFacts(WrittenOver(env, ws), dn, trees);
    FileLaidOut(env, ws, dn, trees);
    FileSurvivesLoss(after, gone, dn, trees);
    FileFromTree(less, read, dn, trees, size);
    SameContent(WrittenIn(less), WrittenOver(env, ws), dn, trees);
    forall i: nat | i < dn.Nblocks()
      ensures FileAlive(less, dn, trees, i) <==> FileSpared(env, dn, trees, i, gone)
    {
      FileAliveIffSpared(env, ws, gone, dn, trees, i);
    }
    var r, content := Extraction(read, dn, Some(size), true), FileContent(WrittenOver(env, ws), dn, trees);
    forall i: nat, b: nat | i < dn.Nblocks() && b < dn.Datablksize()
      ensures ByteOrZero(r.output, content, dn.Datablksize(), i, b, FileSpared(env, dn, trees, i, gone))
    {
      assert ByteOrZero(r.output, content, dn.Datablksize(), i, b, FileAlive(less, dn, trees, i));
    }
  }

  ghost predicate FileSpared(env: Env, dn: Dnode, trees: seq<Branch>, i: nat, gone: set<nat>)
    requires dn.nlevels > 0
  {
    TopOf(dn, i) < |trees| && AllSpared(env, FilePath(dn, trees, i), gone)
  }

  lemma {:induction false} SameContent(a: Holding, b: Holding, dn: Dnode, trees: seq<Branch>)
    requires FileGrown(a, dn, trees) && FileGrown(b, dn, trees)
    ensures FileContent(a, dn, trees) == FileContent(b, dn, trees)
  {
    hide FileGrown, FileLogical, Content;
    var x, y := Logicals(a, dn, trees, dn.Nblocks()), Logicals(b, dn, trees, dn.Nblocks());
    assert x == y;
  }

  lemma {:induction false} FileAliveIffSpared(env: Env, ws: seq<Placed>, gone: set<nat>, dn: Dnode,
                                              trees: seq<Branch>, i: nat)
    requires env.pool.Valid() && AllOn(env.pool, ws) && AllClear(env.pool, ws) && Healthy(env.pool, ws)
    requires FileGrown(WrittenOver(env, ws), dn, trees) && i < dn.Nblocks()
    ensures dn.nlevels > 0
    ensures FileAlive(Less(Laid(env, ws), gone), dn, trees, i) <==> FileSpared(env, dn, trees, i, gone)
  {
    hide AllOn, AllClear, Healthy, Laid, Grown, Path, Span, Alive, CopySpared, WrittenBy;
    TopInFile(WrittenOver(env, ws), dn, trees, i);
    var k := TopOf(dn, i);
    forall bp | bp in FilePath(dn, trees, i)
      ensures Alive(Less(Laid(env, ws), gone), bp) <==> CopySpared(env, bp, gone)
    {
      PathHeld(WrittenOver(env, ws), trees[k], dn.nlevels - 1, Shift(dn), dn.Datablksize(), i, bp);
      var logical :| WrittenOver(env, ws)(bp, logical);
      AliveIffSpared(env, ws, gone, bp, logical);
    }
    var less, ps := Less(Laid(env, ws), gone), FilePath(dn, trees, i);
    assert AllAlive(less, ps) <==> AllSpared(env, ps, gone);
    assert FileAlive(less, dn, trees, i) <==> AllAlive(less, ps);
  }
}
