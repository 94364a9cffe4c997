/** Small files, from the writer to the dnode: one of one block, and one with an indirect block. */
module Sample {
  import opened Bytes
  import opened Blkptr
  import opened PoolRead
  import opened Erasure
  import opened BlockIo
  import opened BlockProofs
  import opened Writing
  import opened Small
  import opened Dnodes
  import opened Tree
  import opened DiskTree
  import Codec
  import Compress

  /** 512 bytes, neither compressed nor checksummed, one copy at the given place. */
  function WordsAt(sectors: Word): (ws: seq<Word>)
    ensures |ws| == 16
  {
    [1, sectors, 0, 0, 0, 0, 2 * TWO_32 + 2 * 0x100_0000_0000, 0, 0, 0, 0, 0, 0, 0, 0, 0]
  }

  function PointerTo(sectors: Word): BlockPointer { FromWords(WordsAt(sectors)) }

  lemma {:induction false} PointerFields(sectors: Word)
    requires sectors < TWO_63
    ensures var bp := PointerTo(sectors);
            && Genuine(bp) && Plain(bp) && bp.dvas == [Dva(1, sectors), Dva(0, 0), Dva(0, 0)]
            && bp.Psize() == 512 && bp.Lsize() == 512 && bp.Compress() == 2 && bp.Checksum() == 2
  {
    hide EncWords, WordAt;
    PointerReadsBack(WordsAt(sectors));
    ParsedIsGenuine(EncWords(WordsAt(sectors)), 0);
    var bp := PointerTo(sectors);
    hide ParseBlkptr, Genuine, FromWords;
    assert bp.prop == 2 * TWO_32 + 2 * 0x100_0000_0000;
    assert Dva(1, sectors) in bp.dvas;
  }

  /** A pointer to nothing. */
  const NO_WORDS: seq<Word> := [0, 0, 0, 0, 0, 0, 0, 0, 0, 0, 0, 0, 0, 0, 0, 0]

  function Hole(): BlockPointer { FromWords(NO_WORDS) }

  lemma {:induction false} HoleFields()
    ensures Genuine(Hole()) && Hole().IsHole()
  {
    hide EncWords, WordAt;
    PointerReadsBack(NO_WORDS);
    ParsedIsGenuine(EncWords(NO_WORDS), 0);
  }

  function Reader(pool: Pool): Env { Env(pool, _ => (0, 0, 0, 0), Compress.Foreign(_ => None, None), 0) }

  /** What is written at the place of such a pointer is held. */
  lemma {:induction false} Held(pool: Pool, ws: seq<Placed>, k: nat, sectors: Word, logical: seq<Byte>)
    requires pool.Valid() && pool.Aligned(Dva(1, sectors)) && sectors < TWO_63
    requires k < |ws| && ws[k] == Placed(Dva(1, sectors), 512, logical) && |logical| == 512
    ensures WrittenBy(Reader(pool), ws, PointerTo(sectors), logical) && !PointerTo(sectors).IsHole()
  {
    hide BlockPointer.Psize, BlockPointer.Lsize, BlockPointer.Compress, BlockPointer.Checksum, PointerTo, Genuine;
    var bp, env := PointerTo(sectors), Reader(pool);
    PointerFields(sectors);
    RawIsWhole(bp);
    assert Carries(ws[k], Dva(1, sectors), logical);
    assert LaidOut(bp, logical, ws);
    assert logical[..512] == logical;
    assert Matches(env, bp, logical) && Decoding(env, bp, logical) == Codec.Ok(logical);
  }

  lemma RawIsWhole(bp: BlockPointer)
    requires Genuine(bp)
    ensures |bp.raw| == BLKPTR_SIZE
  {
  }

  // ----- one block -----

  function OneBlock(bp: BlockPointer): Dnode
  {
    Dnode(2, 19, 17, 1, 1, 44, 7, 2, 1, 1, 0, 0, 0, 0, [bp], [], None)
  }

  /** For any 512 bytes there are a pool, a write, a dnode and a tree that hold them. */
  lemma {:induction false} OneBlockFile(logical: seq<Byte>) returns (env: Env, ws: seq<Placed>)
    requires |logical| == 512
    ensures env.pool.Valid() && AllOn(env.pool, ws) && AllClear(env.pool, ws) && Healthy(env.pool, ws)
    ensures FileGrown(WrittenOver(env, ws), OneBlock(PointerTo(0)), [Branch.Leaf(PointerTo(0), logical)])
  {
    hide Unreadable, Pool.LayoutOf, PointerTo, Genuine, WrittenBy, BlockPointer.IsHole;
    ws := TwoBlocks(logical, Zeros(512));
    var pool := SmallPool(logical, Zeros(512));
    PlacesAreOn(pool, ws);
    env := Reader(pool);
    Held(pool, ws, 0, 0, logical);
    PointerFields(0);
    var dn, trees := OneBlock(PointerTo(0)), [Branch.Leaf(PointerTo(0), logical)];
    assert Grown(WrittenOver(env, ws), trees[0], 0, Shift(dn), 512);
    assert TreeAt(WrittenOver(env, ws), dn, trees, 0);
    assert Span(Shift(dn), 0) == 1;
  }

  // ----- an indirect block -----

  /** Four pointers: to a block, and three holes. */
  function Pointers(bp: BlockPointer): seq<Byte> { bp.raw + Hole().raw + Hole().raw + Hole().raw }

  /** Four blocks of 512 bytes under one indirect block of four pointers. */
  function FourBlocks(bp: BlockPointer): Dnode
  {
    Dnode(2, 19, 9, 2, 1, 44, 7, 2, 1, 1, 0, 0, 3, 0, [bp], [], None)
  }

  /** A block and three holes under an indirect block. */
  function TreeOf(upper: BlockPointer, lower: BlockPointer, logical: seq<Byte>): Branch
  {
    var gap := Branch.Gap(Hole());
    Branch.Indirect(upper, Pointers(lower), [Branch.Leaf(lower, logical), gap, gap, gap])
  }

  lemma {:induction false} PointersStand(bp: BlockPointer)
    requires Genuine(bp)
    ensures var all := Pointers(bp);
            && |all| == 512 && ParseBlkptr(all, 0) == bp
            && ParseBlkptr(all, 128) == ParseBlkptr(all, 256) == ParseBlkptr(all, 384) == Hole()
  {
    hide ParseBlkptr, Genuine, Hole;
    HoleFields();
    RawIsWhole(bp);
    RawIsWhole(Hole());
    var all := Pointers(bp);
    assert all[0..128] == bp.raw;
    assert all[128..256] == all[256..384] == all[384..512] == Hole().raw;
    PointerStands(all, 0, bp);
    PointerStands(all, 128, Hole());
    PointerStands(all, 256, Hole());
    PointerStands(all, 384, Hole());
  }

  lemma {:induction false} TreeGrown(holds: Holding, upper: BlockPointer, lower: BlockPointer, logical: seq<Byte>)
    requires |logical| == 512 && Genuine(lower) && holds(lower, logical) && holds(upper, Pointers(lower))
    requires !lower.IsHole() && !upper.IsHole()
    ensures Grown(holds, TreeOf(upper, lower, logical), 1, 2, 512)
  {
    hide Genuine, BlockPointer.IsHole, ParseBlkptr, Hole;
    HoleFields();
    PointersStand(lower);
    hide Pointers;
    var t := TreeOf(upper, lower, logical);
    assert Pow2(2) == 4;
    forall k: nat | k < 4
      ensures ChildGrown(holds, t.data, t.children[k], k, 1, 2, 512)
    {
      assert k == 0 || k == 1 || k == 2 || k == 3;
    }
  }

  lemma {:induction false} FileOf(holds: Holding, upper: BlockPointer, tree: Branch)
    requires Genuine(upper) && tree.bp == upper && Grown(holds, tree, 1, 2, 512)
    ensures FileGrown(holds, FourBlocks(upper), [tree])
  {
    hide Genuine, Grown;
    assert TreeAt(holds, FourBlocks(upper), [tree], 0);
    assert Pow2(2) == 4 && Span(2, 0) == 1 && Span(2, 1) == 4;
  }

  /** For any 512 bytes there are a pool, two writes, a dnode and a tree with an indirect block that
      hold them, and three holes behind them. */
  lemma {:induction false} IndirectFile(logical: seq<Byte>) returns (env: Env, ws: seq<Placed>)
    requires |logical| == 512
    ensures env.pool.Valid() && AllOn(env.pool, ws) && AllClear(env.pool, ws) && Healthy(env.pool, ws)
    ensures FileGrown(WrittenOver(env, ws), FourBlocks(PointerTo(8)), [TreeOf(PointerTo(8), PointerTo(0), logical)])
  {
    hide Healthy, AllClear, Pool.LayoutOf, PointerTo, Genuine, WrittenBy, BlockPointer.IsHole, FileGrown, Plain,
         BlockPointer.Psize, BlockPointer.Lsize, BlockPointer.Compress, BlockPointer.Checksum, Pointers, TreeOf,
         Pool.Aligned, Pow2;
    var lower, upper := PointerTo(0), PointerTo(8);
    PointerFields(0);
    PointerFields(8);
    PointersStand(lower);
    var data := Pointers(lower);
    ws := TwoBlocks(logical, data);
    var pool := SmallPool(logical, data);
    PlacesAreOn(pool, ws);
    env := Reader(pool);
    assert ws[0] == Placed(Dva(1, 0), 512, logical) && ws[1] == Placed(Dva(1, 8), 512, data);
    Held(pool, ws, 0, 0, logical);
    Held(pool, ws, 1, 8, data);
    TreeGrown(WrittenOver(env, ws), upper, lower, logical);
    FileOf(WrittenOver(env, ws), upper, TreeOf(upper, lower, logical)) by { TopOfTree(upper, lower, logical); }
  }

  lemma TopOfTree(upper: BlockPointer, lower: BlockPointer, logical: seq<Byte>)
    ensures TreeOf(upper, lower, logical).bp == upper
  {
  }
}
