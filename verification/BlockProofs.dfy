/** What a block reading means: the first copy that passes every test, and the true bytes. */
module BlockProofs {
  import opened Bytes
  import opened Blkptr
  import opened PoolRead
  import opened Codec
  import opened BlockIo
  import opened Erasure
  import Checksum
  import Compress

  /** The bytes of copy `i`, if they can be had. */
  function CopyBytes(env: Env, bp: BlockPointer, i: nat): Option<seq<Byte>>
    requires Readied(env, bp) && bp.Psize() > 0 && i < |bp.dvas|
  {
    if bp.dvas[i].IsEmpty() then None else ReadDva(env.pool, bp.dvas[i], bp.Psize()).0
  }

  predicate Matches(env: Env, bp: BlockPointer, raw: seq<Byte>)
  {
    var check := Checksum.Verify(env.sha256, bp.Checksum(), raw, bp.cksum, Swap(env, bp));
    check.Checked? && check.ok
  }

  function Decoding(env: Env, bp: BlockPointer, raw: seq<Byte>): (d: Decoded)
    ensures d.Ok? ==> |d.data| == bp.Lsize()
  {
    Compress.Decompress(env.foreign, bp.Compress(), raw, bp.Lsize())
  }

  /** Copy `i` can be read, has the right checksum, and decompresses. */
  predicate Usable(env: Env, bp: BlockPointer, i: nat)
    requires Readied(env, bp) && bp.Psize() > 0 && i < |bp.dvas|
  {
    var raw := CopyBytes(env, bp, i);
    raw.Some? && Matches(env, bp, raw.value) && Decoding(env, bp, raw.value).Ok?
  }

  /** Copy `i` makes a decoder raise something else than a decompression error. */
  predicate Raises(env: Env, bp: BlockPointer, i: nat)
    requires Readied(env, bp) && bp.Psize() > 0 && i < |bp.dvas|
  {
    var raw := CopyBytes(env, bp, i);
    raw.Some? && Matches(env, bp, raw.value) && Decoding(env, bp, raw.value).Escaped?
  }

  /** The first copy from `i` on that decides the reading. */
  function First(env: Env, bp: BlockPointer, i: nat): (k: nat)
    requires Readied(env, bp) && bp.Psize() > 0 && i <= |bp.dvas|
    ensures i <= k <= |bp.dvas| && (k < |bp.dvas| ==> Usable(env, bp, k) || Raises(env, bp, k))
    decreases |bp.dvas| - i
  {
    if i == |bp.dvas| || Usable(env, bp, i) || Raises(env, bp, i) then i else First(env, bp, i + 1)
  }

  /** The copies before it decide nothing. */
  lemma {:induction false} FirstDecides(env: Env, bp: BlockPointer, i: nat)
    requires Readied(env, bp) && bp.Psize() > 0 && i <= |bp.dvas|
    ensures forall j :: i <= j < First(env, bp, i) ==> !Usable(env, bp, j) && !Raises(env, bp, j)
    decreases |bp.dvas| - i
  {
    hide Usable, Raises, Readied, BlockPointer.Psize;
    if i < |bp.dvas| && !Usable(env, bp, i) && !Raises(env, bp, i) { FirstDecides(env, bp, i + 1); }
  }

  lemma AttemptStatus(env: Env, bp: BlockPointer, i: nat)
    requires Readied(env, bp) && bp.Psize() > 0 && !bp.IsGang()
    requires i < |bp.dvas| && !bp.dvas[i].IsEmpty()
    ensures var (att, t) := TryCopy(env, bp, bp.dvas[i]);
            var raw := CopyBytes(env, bp, i);
            && (t.NoData? <==> raw.None?)
            && (att.status == MissingData <==> raw.None?)
            && (t.Good? <==> Usable(env, bp, i))
            && (t.Escapes? <==> Raises(env, bp, i))
            && (t.Good? ==>
                 && t.physical == raw.value && Decoding(env, bp, raw.value) == Ok(t.data)
                 && (att.status == Recovered || att.status == RecoveredWithReconstruction)
                 && (att.status == RecoveredWithReconstruction <==> att.reconstructed != []))
  {
    hide Checksum.Verify, Compress.Decompress, ReadDva, Dva.IsEmpty, Dva.Gang;
    StatusOfRead(env.pool, bp.dvas[i], bp.Psize());
  }

  /** The running result before copy `i`: no data, and MISSING_DATA so far exactly when every
      attempt lacked columns. */
  predicate SoFar(acc: BlockResult)
  {
    && acc.data.None? && !acc.Ok()
    && (acc.status == MissingData <==> forall a :: a in acc.attempts ==> a.status == MissingData)
  }

  predicate AllMissing(env: Env, bp: BlockPointer, i: nat)
    requires Readied(env, bp) && bp.Psize() > 0
  {
    forall j :: i <= j < |bp.dvas| ==> CopyBytes(env, bp, j).None?
  }

  lemma NoteKeeps(acc: BlockResult, att: Attempt, t: Trial)
    requires SoFar(acc) && !t.Good? && !t.Escapes?
    requires t.NoData? <==> att.status == MissingData
    ensures SoFar(Note(acc, att, t))
    ensures Note(acc, att, t).status == MissingData <==> acc.status == MissingData && t.NoData?
    ensures Note(acc, att, t).attempts == acc.attempts + [att]
  {
    var next := Note(acc, att, t);
    if acc.status == MissingData && t.NoData? {
      assert forall a :: a in next.attempts ==> a in acc.attempts || a == att;
    } else if t.NoData? {
      var a :| a in acc.attempts && a.status != MissingData;
      assert a in next.attempts;
    } else {
      assert att in next.attempts;
    }
  }

  lemma {:induction false} ReadCopiesOutcome(env: Env, bp: BlockPointer, i: nat, acc: BlockResult)
    requires Readied(env, bp) && bp.Psize() > 0 && !bp.IsGang() && i <= |bp.dvas| && SoFar(acc)
    ensures var r := ReadCopies(env, bp, i, acc);
            var k := First(env, bp, i);
            if k == |bp.dvas| then
              && r.Returned? && !r.res.Ok() && r.res.data.None?
              && (r.res.status == MissingData <==> acc.status == MissingData && AllMissing(env, bp, i))
            else if Raises(env, bp, k) then r.Raised?
            else
              var raw := CopyBytes(env, bp, k).value;
              && r.Returned? && r.res.Ok() && r.res.dvaIndex == Some(k)
              && r.res.physical == Some(raw) && r.res.data == Some(Decoding(env, bp, raw).data)
              && r.res.checksumOk == Some(true)
              && (r.res.status == RecoveredWithReconstruction <==> r.res.reconstructed)
    decreases |bp.dvas| - i
  {
    hide TryCopy, CopyBytes, Usable, Raises, Decoding, Note, BlockPointer.IsGang;
    if i == |bp.dvas| {
    } else if bp.dvas[i].IsEmpty() {
      EmptyCopy(env, bp, i);
      ReadCopiesOutcome(env, bp, i + 1, acc);
    } else {
      AttemptStatus(env, bp, i);
      var (att, t) := TryCopy(env, bp, bp.dvas[i]);
      if !t.Good? && !t.Escapes? {
        NoteKeeps(acc, att, t);
        ReadCopiesOutcome(env, bp, i + 1, Note(acc, att, t));
      } else {
        NotBoth(env, bp, i);
      }
    }
  }

  lemma EmptyCopy(env: Env, bp: BlockPointer, i: nat)
    requires Readied(env, bp) && bp.Psize() > 0 && i < |bp.dvas| && bp.dvas[i].IsEmpty()
    ensures CopyBytes(env, bp, i).None? && !Usable(env, bp, i) && !Raises(env, bp, i)
  {
  }

  lemma NotBoth(env: Env, bp: BlockPointer, i: nat)
    requires Readied(env, bp) && bp.Psize() > 0 && i < |bp.dvas|
    ensures !(Usable(env, bp, i) && Raises(env, bp, i))
  {
  }

  lemma PlainHasSize(bp: BlockPointer)
    requires Plain(bp)
    ensures bp.Psize() > 0 && !bp.IsGang()
  {
  }

  /** `read_block` is sound and complete over the copies: it succeeds exactly on the first
      usable copy (unless an earlier one makes a decoder raise), and it answers MISSING_DATA
      exactly when no copy could be read at all. */
  lemma {:induction false} ReadBlockOutcome(env: Env, bp: BlockPointer)
    requires Readied(env, bp) && Plain(bp)
    ensures bp.Psize() > 0
    ensures var r := ReadBlock(env, bp);
            var k := First(env, bp, 0);
            && (r.Raised? <==> k < |bp.dvas| && Raises(env, bp, k))
            && (r.Returned? && r.res.Ok() <==> k < |bp.dvas| && Usable(env, bp, k))
            && (r.Returned? && r.res.Ok() ==>
                 && r.res.dvaIndex == Some(k)
                 && r.res.physical == CopyBytes(env, bp, k) && r.res.physical.Some?
                 && r.res.data == Some(Decoding(env, bp, r.res.physical.value).data)
                 && |r.res.data.value| == bp.Lsize())
            && (r.Returned? && !r.res.Ok() ==>
                 && r.res.data.None?
                 && (r.res.status == MissingData <==> AllMissing(env, bp, 0)))
  {
    hide ReadCopies, CopyBytes, Matches, BlockPointer.IsHole, BlockPointer.IsGang, BlockPointer.Embedded,
         BlockPointer.UsesCrypt;
    PlainHasSize(bp);
    ReadCopiesOutcome(env, bp, 0, Blank(MissingData));
    var k := First(env, bp, 0);
    if k < |bp.dvas| {
      NotBoth(env, bp, k);
    }
  }

  /** A failed reading never carries data, whatever the pointer. */
  lemma FailureHasNoData(env: Env, bp: BlockPointer)
    requires Readied(env, bp)
    ensures var r := ReadBlock(env, bp);
            r.Returned? && (r.res.data.Some? || r.res.physical.Some?) ==> r.res.Ok()
  {
    if Plain(bp) {
      PlainHasSize(bp);
      FailuresAreBare(env, bp, 0, Blank(MissingData));
    }
  }

  lemma {:induction false} FailuresAreBare(env: Env, bp: BlockPointer, i: nat, acc: BlockResult)
    requires Readied(env, bp) && bp.Psize() > 0 && !bp.IsGang() && i <= |bp.dvas|
    requires SoFar(acc) && acc.physical.None?
    ensures var r := ReadCopies(env, bp, i, acc);
            r.Returned? && (r.res.data.Some? || r.res.physical.Some?) ==> r.res.Ok()
    decreases |bp.dvas| - i
  {
    hide TryCopy, CopyBytes, Usable, Raises, Decoding, BlockPointer.IsGang;
    if i < |bp.dvas| {
      if bp.dvas[i].IsEmpty() {
        FailuresAreBare(env, bp, i + 1, acc);
      } else {
        AttemptStatus(env, bp, i);
        var (att, t) := TryCopy(env, bp, bp.dvas[i]);
        if !t.Good? && !t.Escapes? {
          NoteKeeps(acc, att, t);
          FailuresAreBare(env, bp, i + 1, Note(acc, att, t));
        }
      }
    }
  }

  // ----- the true bytes -----

  /** A block was written: each copy holds the physical bytes (and anything beyond them up to
      the sector), these match the checksum, and decode to the logical bytes. */
  ghost predicate Written(env: Env, bp: BlockPointer, physical: seq<Byte>, logical: seq<Byte>)
    requires Readied(env, bp) && bp.Psize() > 0
  {
    && |physical| == bp.Psize()
    && Matches(env, bp, physical)
    && Decoding(env, bp, physical) == Ok(logical)
    && forall d :: d in bp.dvas && !d.IsEmpty() ==> CopyHolds(env, d, physical)
  }

  ghost predicate CopyHolds(env: Env, d: Dva, physical: seq<Byte>)
    requires env.pool.Valid() && env.pool.Aligned(d)
  {
    && |physical| > 0
    && exists tail: seq<Byte> :: Stored(env.pool, d, |physical|, physical + tail)
  }

  lemma CopyReadsBack(env: Env, bp: BlockPointer, i: nat, physical: seq<Byte>)
    requires Readied(env, bp) && bp.Psize() == |physical| > 0 && !bp.IsGang()
    requires i < |bp.dvas| && !bp.dvas[i].IsEmpty() && CopyHolds(env, bp.dvas[i], physical)
    ensures var raw := CopyBytes(env, bp, i);
            && (raw.Some? <==> Readable(env.pool, bp.dvas[i], |physical|))
            && (raw.Some? ==> raw.value == physical)
  {
    hide Stored, Readable, ReadDva;
    var d := bp.dvas[i];
    var tail: seq<Byte> :| Stored(env.pool, d, |physical|, physical + tail);
    ErasureRecovery(env.pool, d, |physical|, physical + tail);
    assert (physical + tail)[..|physical|] == physical;
  }

  /** Some copy has not lost more columns than parity can replace. */
  ghost predicate Recoverable(env: Env, bp: BlockPointer)
    requires Readied(env, bp) && bp.Psize() > 0
  {
    exists i :: 0 <= i < |bp.dvas| && !bp.dvas[i].IsEmpty() && Readable(env.pool, bp.dvas[i], bp.Psize())
  }

  /** End to end: a written block is recovered exactly when some copy has not lost more columns
      than parity can replace, and what is returned is what was written. */
  lemma WrittenBlockIsRecovered(env: Env, bp: BlockPointer, physical: seq<Byte>, logical: seq<Byte>)
    requires Readied(env, bp) && Plain(bp) && bp.Psize() > 0 && Written(env, bp, physical, logical)
    ensures var r := ReadBlock(env, bp);
            var recoverable := Recoverable(env, bp);
            && r.Returned?
            && (r.res.Ok() <==> recoverable)
            && (recoverable ==> r.res.data == Some(logical) && r.res.physical == Some(physical))
            && (!recoverable ==> r.res.status == MissingData && r.res.data.None?)
  {
    hide ReadBlock, CopyBytes, Matches, Readable, CopyHolds, Decoding, BlockPointer.IsGang, BlockPointer.IsHole,
         BlockPointer.Psize;
    PlainHasSize(bp);
    ReadBlockOutcome(env, bp);
    forall i | 0 <= i < |bp.dvas|
      ensures CopyBytes(env, bp, i).Some? <==>
              !bp.dvas[i].IsEmpty() && Readable(env.pool, bp.dvas[i], bp.Psize())
      ensures CopyBytes(env, bp, i).Some? ==> CopyBytes(env, bp, i).value == physical
    {
      if bp.dvas[i].IsEmpty() {
        EmptyCopy(env, bp, i);
      } else {
        CopyReadsBack(env, bp, i, physical);
      }
    }
    var k := First(env, bp, 0);
    FirstDecides(env, bp, 0);
    if i :| 0 <= i < |bp.dvas| && !bp.dvas[i].IsEmpty() && Readable(env.pool, bp.dvas[i], bp.Psize()) {
      assert Usable(env, bp, i);
      assert k <= i;
      assert CopyBytes(env, bp, k).value == physical;
    } else {
      assert AllMissing(env, bp, 0);
      assert k == |bp.dvas|;
    }
  }
}
