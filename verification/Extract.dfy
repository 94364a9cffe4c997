/** Extraction of a file: block accounting, the bytes written, and what its state promises. */
module Extract {
  import opened Bytes
  import opened Blkptr
  import opened PoolRead
  import opened Lru
  import opened Dnodes
  import opened Tree
  import opened Objects
  import opened Dmu

  datatype FileBlock = FileBlock(blkid: nat, status: BlockStatus, offset: nat, length: nat)

  datatype FileState = Complete | Partial | LostFile | Empty | AlreadyExtracted

  /** The result of an extraction; `output` is what went into the file and the digest. */
  datatype FileResult = FileResult(
    size: Option<nat>, blocks: seq<FileBlock>, recovered: nat, missing: nat,
    interrupted: bool, resumed: bool, output: seq<Byte>)
  {
    function State(): FileState
    {
      if resumed then AlreadyExtracted
      else if size == Some(0) then Empty
      else if blocks == [] then LostFile
      else
        var good := GoodBlocks(blocks);
        if good == |blocks| then Complete else if good == 0 then LostFile else Partial
    }
  }

  predicate IsGood(s: BlockStatus) { s == Recovered || s == RecoveredWithReconstruction }

  function GoodBlocks(blocks: seq<FileBlock>): (n: nat)
    ensures n <= |blocks|
  {
    if blocks == [] then 0
    else GoodBlocks(blocks[..|blocks| - 1]) + (if IsGood(blocks[|blocks| - 1].status) then 1 else 0)
  }

  // ----- the extraction as a function -----

  /** The part of a file of the given size that lies in block `i`. */
  function Length(dn: Dnode, size: Option<nat>, i: nat): (n: nat)
    ensures n <= dn.Datablksize()
  {
    var bs := dn.Datablksize();
    if size.None? then bs else Max(0, Min(bs, size.value - i * bs))
  }

  predicate Usable(b: ObjectBlock) { IsGood(b.status) && b.data.Some? }

  function Piece(dn: Dnode, size: Option<nat>, b: ObjectBlock, i: nat): (p: seq<Byte>)
  {
    var n := Length(dn, size, i);
    if Usable(b) then b.data.value[..Min(n, |b.data.value|)] else Zeros(n)
  }

  /** The result after the first `n` blocks; without filling it stops at the first lost one. */
  function After(read: Medium, dn: Dnode, size: Option<nat>, fill: bool, n: nat): FileResult
    requires WellFormed(dn)
  {
    if n == 0 then FileResult(size, [], 0, 0, false, false, [])
    else
      var r := After(read, dn, size, fill, n - 1);
      if r.interrupted then r else Turn(read, dn, size, fill, n - 1, r)
  }

  /** One turn of the loop of the extraction. */
  function Turn(read: Medium, dn: Dnode, size: Option<nat>, fill: bool, i: nat, r: FileResult): FileResult
    requires WellFormed(dn)
  {
    var b, len := BlockOf(read, dn, i), Length(dn, size, i);
    MulMono(0, i, dn.Datablksize());
    var r := r.(blocks := r.blocks + [FileBlock(i, b.status, i * dn.Datablksize(), len)]);
    var piece := Piece(dn, size, b, i);
    if Usable(b) then r.(recovered := r.recovered + |piece|, output := r.output + piece)
    else if fill then r.(missing := r.missing + len, output := r.output + piece)
    else r.(missing := r.missing + len, interrupted := true)
  }

  function Extraction(read: Medium, dn: Dnode, size: Option<nat>, fill: bool): FileResult
    requires WellFormed(dn)
  {
    if size == Some(0) then After(read, dn, size, fill, 0) else After(read, dn, size, fill, dn.Nblocks())
  }

  // ----- the program -----

  method ExtractFile(dmu: DmuReader, dn: Dnode, size: Option<nat>, fill: bool) returns (res: FileResult)
    requires dmu.Valid() && WellFormed(dn)
    modifies dmu
    ensures dmu.Valid() && res == Extraction(dmu.medium, dn, size, fill)
  {
    hide Sound, BlockOf, DmuReader.Valid, WellFormed, Length, Zeros, Dnode.Nblocks, Dnode.Datablksize, After;
    AfterTurn(dmu.medium, dn, size, fill, 0);
    res := FileResult(size, [], 0, 0, false, false, []);
    if size == Some(0) || dn.Nblocks() == 0 { return; }
    var rest: nat := if size.Some? then size.value else 0;
    var blkid: nat := 0;
    var bs := dn.Datablksize();
    while blkid < dn.Nblocks()
      invariant dmu.Valid() && blkid <= dn.Nblocks() && !res.interrupted
      invariant size.Some? ==> rest == Max(0, size.value - blkid * bs)
      invariant res == After(dmu.medium, dn, size, fill, blkid)
    {
      var b := dmu.ReadObjectBlock(dn, blkid);
      MulMono(0, blkid, bs);
      LengthLeft(dn, size, blkid, rest);
      AfterTurn(dmu.medium, dn, size, fill, blkid);
      var start: nat := blkid * bs;
      var length: nat := bs;
      if size.Some? {
        length := Max(0, Min(bs, rest));
        rest := rest - length;
      }
      res := res.(blocks := res.blocks + [FileBlock(blkid, b.status, start, length)]);
      if IsGood(b.status) && b.data.Some? {
        var data := b.data.value[..Min(length, |b.data.value|)];
        res := res.(recovered := res.recovered + |data|, output := res.output + data);
      } else {
        res := res.(missing := res.missing + length);
        if !fill {
          res := res.(interrupted := true);
          StaysInterrupted(dmu.medium, dn, size, fill, blkid + 1, dn.Nblocks());
          return;
        }
        res := res.(output := res.output + Zeros(length));
      }
      blkid := blkid + 1;
    }
  }

  lemma AfterTurn(read: Medium, dn: Dnode, size: Option<nat>, fill: bool, n: nat)
    requires WellFormed(dn)
    ensures n == 0 ==> After(read, dn, size, fill, n) == FileResult(size, [], 0, 0, false, false, [])
    ensures var r := After(read, dn, size, fill, n);
            After(read, dn, size, fill, n + 1) == if r.interrupted then r else Turn(read, dn, size, fill, n, r)
  {
    hide Turn;
  }

  lemma LengthLeft(dn: Dnode, size: Option<nat>, i: nat, rest: nat)
    requires size.Some? ==> rest == Max(0, size.value - i * dn.Datablksize())
    ensures Length(dn, size, i) == if size.Some? then Min(dn.Datablksize(), rest) else dn.Datablksize()
    ensures size.Some? ==> rest - Length(dn, size, i) == Max(0, size.value - (i + 1) * dn.Datablksize())
  {
    Distribute(i, 1, dn.Datablksize());
    MulMono(0, i, dn.Datablksize());
  }

  lemma {:induction false} StaysInterrupted(read: Medium, dn: Dnode, size: Option<nat>, fill: bool, n: nat, m: nat)
    requires WellFormed(dn) && n <= m && After(read, dn, size, fill, n).interrupted
    ensures After(read, dn, size, fill, m) == After(read, dn, size, fill, n)
    decreases m
  {
    hide Turn;
    if n < m {
      StaysInterrupted(read, dn, size, fill, n, m - 1);
    }
  }

  // ----- conservation -----

  /** The bytes of the first `n` blocks that lie in the file. */
  function Covered(dn: Dnode, size: Option<nat>, n: nat): int
  {
    var all := n * dn.Datablksize();
    if size.None? then all else Min(size.value, all)
  }

  lemma CoveredStep(dn: Dnode, size: Option<nat>, n: nat)
    requires n > 0
    ensures Covered(dn, size, n) == Covered(dn, size, n - 1) + Length(dn, size, n - 1)
  {
    Distribute(n - 1, 1, dn.Datablksize());
  }

  lemma PieceLength(read: Medium, dn: Dnode, size: Option<nat>, i: nat)
    requires WellFormed(dn)
    ensures |Piece(dn, size, BlockOf(read, dn, i), i)| == Length(dn, size, i)
  {
    hide Length;
    var n := Length(dn, size, i);
  }

  /** In fill mode the blocks tile the file: block i is the i-th, at its place, with its length;
      recovered and missing bytes add up to what is written, which is the file as far as its
      blocks go. */
  lemma {:induction false} Conservation(read: Medium, dn: Dnode, size: Option<nat>, n: nat)
    requires WellFormed(dn)
    ensures var r := After(read, dn, size, true, n);
            && !r.interrupted && !r.resumed && r.size == size
            && r.recovered + r.missing == |r.output| == Covered(dn, size, n)
            && |r.blocks| == n
            && (forall i :: 0 <= i < n ==>
                 r.blocks[i] == FileBlock(i, BlockOf(read, dn, i).status, Offset(dn, i), Length(dn, size, i)))
  {
    hide BlockOf, Length, Covered, Piece;
    if n > 0 {
      Conservation(read, dn, size, n - 1);
      CoveredStep(dn, size, n);
      PieceLength(read, dn, size, n - 1);
      ZeroPiece(read, dn, size, n - 1);
    } else {
      CoveredZero(dn, size);
    }
  }

  function Offset(dn: Dnode, i: nat): nat
  {
    MulMono(0, i, dn.Datablksize());
    i * dn.Datablksize()
  }

  lemma ZeroPiece(read: Medium, dn: Dnode, size: Option<nat>, i: nat)
    requires WellFormed(dn)
    ensures !Usable(BlockOf(read, dn, i)) ==> Piece(dn, size, BlockOf(read, dn, i), i) == Zeros(Length(dn, size, i))
  {
  }

  lemma CoveredZero(dn: Dnode, size: Option<nat>)
    ensures Covered(dn, size, 0) == 0
  {
  }

  /** Without filling, the extraction is the one that fills, cut before the first lost block. */
  lemma {:induction false} StopsAtLoss(read: Medium, dn: Dnode, size: Option<nat>, n: nat)
    requires WellFormed(dn)
    ensures var r := After(read, dn, size, false, n);
            var k := if r.interrupted then |r.blocks| - 1 else n;
            && 0 <= k <= n && |r.blocks| <= n && (r.interrupted ==> k < n && !Usable(BlockOf(read, dn, k)))
            && (forall i: nat :: i < k ==> Usable(BlockOf(read, dn, i)))
            && r.output == After(read, dn, size, true, k).output && r.recovered == |r.output|
            && r.blocks == After(read, dn, size, true, if r.interrupted then k + 1 else k).blocks
            && r.missing == if r.interrupted then Length(dn, size, k) else 0
  {
    hide BlockOf, Length, Piece, Usable, After;
    if n == 0 {
      AfterTurn(read, dn, size, false, 0);
      AfterTurn(read, dn, size, true, 0);
    } else {
      StopsAtLoss(read, dn, size, n - 1);
      Conservation(read, dn, size, n - 1);
      AfterTurn(read, dn, size, false, n - 1);
      AfterTurn(read, dn, size, true, n - 1);
    }
  }

  // ----- faithfulness -----

  /** A reading that succeeds carries data. */
  ghost predicate DataWhenOk(read: Medium)
  {
    forall bp :: read(bp).Ok() ==> read(bp).data.Some?
  }

  /** The output is the object as `read_object` gives it, cut at the size of the file: true
      bytes where blocks were recovered, zeros where they were not. */
  lemma {:induction false} OutputIsObject(read: Medium, dn: Dnode, size: Option<nat>, n: nat)
    requires WellFormed(dn) && FitsBlocks(read, dn, n) && DataWhenOk(read)
    ensures var all := ObjectBytes(read, dn, n);
            && 0 <= Covered(dn, size, n) <= |all|
            && After(read, dn, size, true, n).output == all[..Covered(dn, size, n)]
  {
    hide BlockOf, FitsBlocks, DataWhenOk;
    if n > 0 {
      LessFits(read, dn, n);
      OutputIsObject(read, dn, size, n - 1);
      Conservation(read, dn, size, n - 1);
      ObjectLength(read, dn, n);
      ObjectLength(read, dn, n - 1);
      CoveredStep(dn, size, n);
      PieceIsShare(read, dn, size, n - 1);
      PieceAppends(read, dn, size, n);
    } else {
      assert Covered(dn, size, 0) == 0;
    }
  }

  lemma LessFits(read: Medium, dn: Dnode, n: nat)
    requires WellFormed(dn) && n > 0 && FitsBlocks(read, dn, n)
    ensures FitsBlocks(read, dn, n - 1)
    ensures |Share(dn, BlockOf(read, dn, n - 1))| == dn.Datablksize()
  {
    ShareIsWhole(read, dn, n - 1);
    assert |Share(dn, BlockOf(read, dn, n - 1))| <= dn.Datablksize();
  }

  lemma PieceIsShare(read: Medium, dn: Dnode, size: Option<nat>, i: nat)
    requires WellFormed(dn) && DataWhenOk(read) && |Share(dn, BlockOf(read, dn, i))| == dn.Datablksize()
    ensures Piece(dn, size, BlockOf(read, dn, i), i) == Share(dn, BlockOf(read, dn, i))[..Length(dn, size, i)]
  {
    hide Length;
    assert Length(dn, size, i) <= dn.Datablksize();
  }

  lemma PieceAppends(read: Medium, dn: Dnode, size: Option<nat>, n: nat)
    requires WellFormed(dn) && n > 0
    requires |ObjectBytes(read, dn, n - 1)| == (n - 1) * dn.Datablksize()
    requires |Share(dn, BlockOf(read, dn, n - 1))| == dn.Datablksize()
    requires 0 <= Covered(dn, size, n - 1) <= |ObjectBytes(read, dn, n - 1)|
    ensures var before, len := ObjectBytes(read, dn, n - 1), Length(dn, size, n - 1);
            0 <= Covered(dn, size, n) <= |ObjectBytes(read, dn, n)| &&
            before[..Covered(dn, size, n - 1)] + Share(dn, BlockOf(read, dn, n - 1))[..len]
            == ObjectBytes(read, dn, n)[..Covered(dn, size, n)]
  {
    hide BlockOf, Share, WellFormed;
    CoveredStep(dn, size, n);
    var bs := dn.Datablksize();
    Distribute(n - 1, 1, bs);
    if Length(dn, size, n - 1) > 0 {
      assert Covered(dn, size, n - 1) == (n - 1) * bs;
    }
  }

  lemma {:induction false} GoodCount(blocks: seq<FileBlock>)
    ensures GoodBlocks(blocks) == |blocks| <==> forall i :: 0 <= i < |blocks| ==> IsGood(blocks[i].status)
  {
    if blocks != [] {
      GoodCount(blocks[..|blocks| - 1]);
      var last := |blocks| - 1;
      assert forall i :: 0 <= i < last ==> blocks[..last][i] == blocks[i];
    }
  }

  /** Nothing is missing exactly when every block that has bytes in the file is good. */
  lemma {:induction false} MissingNothing(read: Medium, dn: Dnode, size: Option<nat>, n: nat)
    requires WellFormed(dn) && DataWhenOk(read)
    ensures After(read, dn, size, true, n).missing == 0 <==>
            forall i :: 0 <= i < n ==> Length(dn, size, i) == 0 || IsGood(BlockOf(read, dn, i).status)
  {
    hide BlockOf, Length, DataWhenOk, Piece, IsGood, After;
    if n == 0 {
      AfterTurn(read, dn, size, true, 0);
    } else {
      AfterTurn(read, dn, size, true, n - 1);
      MissingNothing(read, dn, size, n - 1);
      Conservation(read, dn, size, n - 1);
      GoodIsUsable(read, dn, n - 1);
    }
  }

  /** A block id that leads nowhere never has the status of a recovered block. */
  lemma {:induction false} NowhereIsBad(read: Medium, epbs: nat, bp: BlockPointer, level: nat, blkid: nat, path: Path)
    requires DataWhenOk(read)
    ensures var e := Descend(read, epbs, bp, level, blkid, path).0;
            e.Nowhere? ==> !IsGood(e.status)
    decreases level
  {
    hide Span, Pow2, ParseBlkptr, BlockPointer.IsHole;
    if level > 0 && !bp.IsHole() && read(bp).Ok() && read(bp).data.Some? {
      var data := read(bp).data.value;
      var index := (blkid / Span(epbs, level - 1)) % Pow2(epbs);
      if (index + 1) * BLKPTR_SIZE <= |data| {
        NowhereIsBad(read, epbs, ParseBlkptr(data, index * BLKPTR_SIZE), level - 1, blkid, path + [(level - 1, index)]);
      }
    }
  }

  lemma GoodIsUsable(read: Medium, dn: Dnode, i: nat)
    requires WellFormed(dn) && DataWhenOk(read)
    ensures var b := BlockOf(read, dn, i);
            IsGood(b.status) <==> Usable(b)
  {
    hide Descend, Pow2;
    if dn.nlevels > 0 && i <= dn.maxblkid {
      var level: nat, epbs: nat := dn.nlevels - 1, Max(dn.Epbs(), 0);
      var top := if level == 0 then i else i / Span(epbs, level);
      if top < dn.nblkptr {
        NowhereIsBad(read, epbs, dn.blkptrs[top], level, i, [(level, top)]);
      }
    }
  }

  // ----- what the state of a file promises -----

  /** Byte `r` of block `i` is the true byte at its place. */
  predicate ByteTrue(data: seq<Byte>, bs: nat, content: seq<Byte>, i: nat, r: nat)
  {
    r < |data| && 0 <= i * bs + r < |content| && data[r] == content[i * bs + r]
  }

  /** Block `i`, if it can be recovered, holds the true bytes of the object. */
  ghost predicate BlockTrue(read: Medium, dn: Dnode, content: seq<Byte>, i: nat)
    requires WellFormed(dn)
  {
    var b, bs := BlockOf(read, dn, i), dn.Datablksize();
    Usable(b) ==> forall r: nat :: r < bs ==> ByteTrue(b.data.value, bs, content, i, r)
  }

  ghost predicate TrueTo(read: Medium, dn: Dnode, content: seq<Byte>)
    requires WellFormed(dn)
  {
    && |content| == dn.Nblocks() * dn.Datablksize()
    && forall i: nat :: i < dn.Nblocks() ==> BlockTrue(read, dn, content, i)
  }

  /** Each byte written is the true one where its block was recovered, and zero elsewhere. */
  lemma {:induction false} BytesAreTrue(read: Medium, dn: Dnode, size: Option<nat>, content: seq<Byte>, i: nat, r: nat)
    requires WellFormed(dn) && DataWhenOk(read) && FitsBlocks(read, dn, dn.Nblocks()) && TrueTo(read, dn, content)
    requires i < dn.Nblocks() && r < dn.Datablksize()
    ensures var x := i * dn.Datablksize() + r;
            var out := After(read, dn, size, true, dn.Nblocks()).output;
            0 <= x < |out| ==>
              x < |content| && out[x] == if IsGood(BlockOf(read, dn, i).status) then content[x] else 0
  {
    hide BlockOf, After, DataWhenOk, Dnode.Nblocks;
    var n := dn.Nblocks();
    OutputIsObject(read, dn, size, n);
    ObjectByte(read, dn, n, i, r);
    GoodIsUsable(read, dn, i);
    assert BlockTrue(read, dn, content, i);
    var b := BlockOf(read, dn, i);
    if Usable(b) {
      assert ByteTrue(b.data.value, dn.Datablksize(), content, i, r);
    } else {
      LostShare(read, dn, i);
    }
  }

  lemma LostShare(read: Medium, dn: Dnode, i: nat)
    requires WellFormed(dn) && DataWhenOk(read) && !Usable(BlockOf(read, dn, i))
    ensures Share(dn, BlockOf(read, dn, i)) == Zeros(dn.Datablksize())
  {
  }

  /** A non-empty file is called COMPLETE exactly when all blocks of the object are good. */
  lemma CompleteIff(read: Medium, dn: Dnode, size: Option<nat>)
    requires WellFormed(dn) && DataWhenOk(read) && size != Some(0) && dn.Nblocks() > 0
    ensures var r := Extraction(read, dn, size, true);
            && (r.State() == Complete <==>
                forall i :: 0 <= i < dn.Nblocks() ==> IsGood(BlockOf(read, dn, i).status))
            && (r.State() == Complete ==> r.missing == 0 && r.recovered == |r.output|)
  {
    hide BlockOf, After, DataWhenOk, Dnode.Nblocks, GoodBlocks, Length, Covered;
    var n := dn.Nblocks();
    var r := After(read, dn, size, true, n);
    Conservation(read, dn, size, n);
    GoodCount(r.blocks);
    MissingNothing(read, dn, size, n);
    assert (forall i :: 0 <= i < n ==> IsGood(r.blocks[i].status))
      <==> forall i :: 0 <= i < n ==> IsGood(BlockOf(read, dn, i).status);
  }

  /** When all blocks are good, the output is the true content as far as the blocks go. */
  lemma {:induction false} GoodContent(read: Medium, dn: Dnode, size: Option<nat>, content: seq<Byte>)
    requires WellFormed(dn) && DataWhenOk(read) && FitsBlocks(read, dn, dn.Nblocks()) && TrueTo(read, dn, content)
    requires forall i :: 0 <= i < dn.Nblocks() ==> IsGood(BlockOf(read, dn, i).status)
    ensures 0 <= Covered(dn, size, dn.Nblocks()) <= |content|
    ensures After(read, dn, size, true, dn.Nblocks()).output == content[..Covered(dn, size, dn.Nblocks())]
  {
    hide BlockOf, After, DataWhenOk, Dnode.Nblocks, TrueTo, FitsBlocks, Covered;
    var n := dn.Nblocks();
    var out := After(read, dn, size, true, n).output;
    Conservation(read, dn, size, n);
    ContentLength(read, dn, size, content);
    forall x | 0 <= x < |out|
      ensures x < |content| && out[x] == content[x]
    {
      GoodByte(read, dn, size, content, x);
    }
  }

  lemma {:induction false} GoodByte(read: Medium, dn: Dnode, size: Option<nat>, content: seq<Byte>, x: nat)
    requires WellFormed(dn) && DataWhenOk(read) && FitsBlocks(read, dn, dn.Nblocks()) && TrueTo(read, dn, content)
    requires forall i :: 0 <= i < dn.Nblocks() ==> IsGood(BlockOf(read, dn, i).status)
    requires x < Covered(dn, size, dn.Nblocks()) && x < |After(read, dn, size, true, dn.Nblocks()).output|
    ensures x < |content| && After(read, dn, size, true, dn.Nblocks()).output[x] == content[x]
  {
    hide WellFormed, BlockOf, After, DataWhenOk, Dnode.Nblocks, Dnode.Datablksize, TrueTo, FitsBlocks, Covered, IsGood;
    var n, bs := dn.Nblocks(), dn.Datablksize();
    PlaceOf(x, n, bs, dn, size);
    var i, r := x / bs, x % bs;
    assert IsGood(BlockOf(read, dn, i).status);
    BytesAreTrue(read, dn, size, content, i, r);
  }

  /** COMPLETE: nothing is missing and the output is the true content as far as the blocks of
      the object go. That is the whole file exactly when its size does not exceed them: a file
      whose declared size runs past its last block is called COMPLETE too, and its output is
      shorter than its size. */
  lemma CompleteMeans(read: Medium, dn: Dnode, size: nat, content: seq<Byte>)
    requires WellFormed(dn) && DataWhenOk(read) && FitsBlocks(read, dn, dn.Nblocks()) && TrueTo(read, dn, content)
    requires size > 0 && dn.Nblocks() > 0 && Extraction(read, dn, Some(size), true).State() == Complete
    ensures var r := Extraction(read, dn, Some(size), true);
            && r.missing == 0 && r.recovered == |r.output| <= |content|
            && r.output == content[..|r.output|]
            && (|r.output| == size <==> size <= dn.Nblocks() * dn.Datablksize())
  {
    hide BlockOf, After, DataWhenOk, Dnode.Nblocks, TrueTo, FitsBlocks, FileResult.State;
    CompleteIff(read, dn, Some(size));
    GoodContent(read, dn, Some(size), content);
    Conservation(read, dn, Some(size), dn.Nblocks());
  }

  /** A file of 1000 bytes whose object is one hole of 512 bytes: a sparse tail. */
  const SPARSE := Dnode(2, 19, 17, 1, 1, 44, 7, 15, 1, 1, 0, 0, 0, 0, [ParseBlkptr(EncWords(NO_WORDS), 0)], [], None)

  const NO_WORDS: seq<Word> := [0, 0, 0, 0, 0, 0, 0, 0, 0, 0, 0, 0, 0, 0, 0, 0]

  /** It is COMPLETE on any medium, with 512 bytes put out and nothing missing. */
  lemma {:induction false} CompleteButShort(read: Medium)
    ensures WellFormed(SPARSE)
    ensures var r := Extraction(read, SPARSE, Some(1000), true);
            r.State() == Complete && |r.output| == 512 && r.missing == 0 && r.size == Some(1000)
  {
    hide EncWords, WordAt;
    PointerReadsBack(NO_WORDS);
    ParsedIsGenuine(EncWords(NO_WORDS), 0);
    var bp := ParseBlkptr(EncWords(NO_WORDS), 0);
    hide ParseBlkptr, Genuine;
    assert bp.IsHole();
    assert BlockPointerFor(read, SPARSE, 0).0 == Pointer(bp);
    assert BlockOf(read, SPARSE, 0) == ObjectBlock(0, Recovered, Some(Zeros(512)));
    hide BlockOf;
    var r := After(read, SPARSE, Some(1000), true, 1);
    AfterTurn(read, SPARSE, Some(1000), true, 0);
    assert r == Extraction(read, SPARSE, Some(1000), true);
    assert |r.blocks| == 1 && IsGood(r.blocks[0].status);
    assert GoodBlocks(r.blocks) == GoodBlocks(r.blocks[..0]) + 1;
  }

  lemma ContentLength(read: Medium, dn: Dnode, size: Option<nat>, content: seq<Byte>)
    requires WellFormed(dn) && TrueTo(read, dn, content)
    ensures 0 <= Covered(dn, size, dn.Nblocks()) <= |content|
  {
  }

  lemma PlaceOf(x: nat, n: nat, bs: nat, dn: Dnode, size: Option<nat>)
    requires x < Covered(dn, size, n) && bs == dn.Datablksize()
    ensures bs > 0 && x / bs < n && x == (x / bs) * bs + x % bs
  {
    if bs > 0 && x / bs >= n {
      MulMono(n, x / bs, bs);
    }
  }

  // ----- totals over many files -----

  datatype Totals = Totals(files: nat, recovered: nat, missing: nat, blocks: nat, good: nat,
                           reconstructed: nat, byState: map<FileState, nat>)

  const NOTHING := Totals(0, 0, 0, 0, 0, 0, map[])

  function Reconstructed(blocks: seq<FileBlock>): nat
  {
    if blocks == [] then 0
    else Reconstructed(blocks[..|blocks| - 1])
         + (if blocks[|blocks| - 1].status == RecoveredWithReconstruction then 1 else 0)
  }

  function Count(m: map<FileState, nat>, s: FileState): nat { if s in m then m[s] else 0 }

  function AddFile(t: Totals, r: FileResult): Totals
  {
    Totals(t.files + 1, t.recovered + r.recovered, t.missing + r.missing, t.blocks + |r.blocks|,
           t.good + GoodBlocks(r.blocks), t.reconstructed + Reconstructed(r.blocks),
           t.byState[r.State() := Count(t.byState, r.State()) + 1])
  }

  function AddAll(t: Totals, rs: seq<FileResult>): Totals
  {
    if rs == [] then t else AddFile(AddAll(t, rs[..|rs| - 1]), rs[|rs| - 1])
  }

  /** `cumuler`: adds a batch to the running totals. */
  method Accumulate(before: Option<Totals>, rs: seq<FileResult>) returns (t: Totals)
    ensures t == AddAll(if before.Some? then before.value else NOTHING, rs)
  {
    t := if before.Some? then before.value else NOTHING;
    ghost var start := t;
    var i := 0;
    while i < |rs|
      invariant 0 <= i <= |rs| && t == AddAll(start, rs[..i])
    {
      assert rs[..i + 1][..i] == rs[..i];
      t := AddFile(t, rs[i]);
      i := i + 1;
    }
    assert rs[..|rs|] == rs;
  }

  /** Accumulating in batches is the same as accumulating all at once. */
  lemma {:induction false} Batches(t: Totals, a: seq<FileResult>, b: seq<FileResult>)
    ensures AddAll(AddAll(t, a), b) == AddAll(t, a + b)
  {
    hide AddFile;
    var n := |b|;
    if n == 0 {
      assert a + b == a;
    } else {
      Batches(t, a, b[..n - 1]);
      assert (a + b)[..|a + b| - 1] == a + b[..n - 1];
    }
  }

  /** The number of files under any state. */
  function AllStates(m: map<FileState, nat>): nat
  {
    Count(m, Complete) + Count(m, Partial) + Count(m, LostFile) + Count(m, Empty) + Count(m, AlreadyExtracted)
  }

  lemma OneMore(m: map<FileState, nat>, s: FileState)
    ensures AllStates(m[s := Count(m, s) + 1]) == AllStates(m) + 1
  {
  }

  /** Every file is counted under exactly one state. */
  lemma {:induction false} StatesAddUp(rs: seq<FileResult>)
    ensures AllStates(AddAll(NOTHING, rs).byState) == |rs| == AddAll(NOTHING, rs).files
  {
    hide GoodBlocks, Reconstructed, AllStates, FileResult.State;
    if rs == [] {
      NoStates();
    } else {
      StatesAddUp(rs[..|rs| - 1]);
      OneMore(AddAll(NOTHING, rs[..|rs| - 1]).byState, rs[|rs| - 1].State());
    }
  }

  lemma NoStates()
    ensures AllStates(map[]) == 0
  {
  }
}
