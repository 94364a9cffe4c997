/** What a failed reading says: its status, its checksum, and the record of every copy tried. */
module Verdicts {
  import opened Bytes
  import opened Blkptr
  import opened Raidz
  import opened Availability
  import opened PoolRead
  import opened BlockIo
  import opened BlockProofs
  import opened Erasure
  import Checksum
  import Compress

  // ----- why a copy that was read is no good -----

  predicate KnownChecksum(bp: BlockPointer) { bp.Checksum() in {0, 1, 2, 6, 7, 8, 10} }

  function Summed(env: Env, bp: BlockPointer, raw: seq<Byte>): (s: bool)
    ensures s <==> KnownChecksum(bp)
  {
    Checksum.Verify(env.sha256, bp.Checksum(), raw, bp.cksum, Swap(env, bp)).Checked?
  }

  /** The checksum of the bytes that were read, and whether it is the one of the pointer. */
  function Sum(env: Env, bp: BlockPointer, raw: seq<Byte>): (Cksum, bool)
    requires KnownChecksum(bp)
  {
    assert Summed(env, bp, raw);
    var check := Checksum.Verify(env.sha256, bp.Checksum(), raw, bp.cksum, Swap(env, bp));
    (check.computed, check.ok)
  }

  predicate WrongSum(env: Env, bp: BlockPointer, raw: seq<Byte>) { KnownChecksum(bp) && !Sum(env, bp, raw).1 }

  predicate NoDecoding(env: Env, bp: BlockPointer, raw: seq<Byte>)
  {
    Matches(env, bp, raw) && Decoding(env, bp, raw).Unsupported?
  }

  predicate BadStream(env: Env, bp: BlockPointer, raw: seq<Byte>)
  {
    Matches(env, bp, raw) && Decoding(env, bp, raw).Corrupt?
  }

  // ----- the record of a copy -----

  /** The attempt on copy `i`: what reading it gave, with the outcome of the checksum and of the
      decoder written over it. */
  ghost predicate Records(env: Env, bp: BlockPointer, i: nat, att: Attempt)
    requires Readied(env, bp) && bp.Psize() > 0 && i < |bp.dvas| && !bp.dvas[i].IsEmpty()
  {
    var (raw, read) := ReadDva(env.pool, bp.dvas[i], bp.Psize());
    && att.reconstructed == read.reconstructed && att.missing == read.missing
    && match raw
       case None => att.status == MissingData && att.checksumOk == None
       case Some(raw) =>
         && att.checksumOk == (if KnownChecksum(bp) then Some(Sum(env, bp, raw).1) else None)
         && (att.status == InvalidChecksum <==> WrongSum(env, bp, raw))
         && (att.status == Unknown <==> !KnownChecksum(bp) || NoDecoding(env, bp, raw))
         && (att.status == RecoveredWithReconstruction <==>
               (Usable(env, bp, i) || Raises(env, bp, i) || BadStream(env, bp, raw)) && read.reconstructed != [])
         && (att.status == Recovered <==>
               (Usable(env, bp, i) || Raises(env, bp, i) || BadStream(env, bp, raw)) && read.reconstructed == [])
  }

  /** The copies below `n` that a pointer has, in order. */
  function Copies(bp: BlockPointer, n: nat): (c: seq<nat>)
    requires n <= |bp.dvas|
    ensures forall i: nat :: i in c <==> i < n && !bp.dvas[i].IsEmpty()
    ensures forall x, y :: 0 <= x < y < |c| ==> c[x] < c[y]
  {
    if n == 0 then []
    else
      var c := Copies(bp, n - 1);
      assert forall x :: 0 <= x < |c| ==> c[x] in c;
      if bp.dvas[n - 1].IsEmpty() then c else c + [n - 1]
  }

  /** One attempt for each copy below `n`, in order. */
  ghost predicate Recorded(env: Env, bp: BlockPointer, n: nat, atts: seq<Attempt>)
    requires Readied(env, bp) && bp.Psize() > 0 && n <= |bp.dvas|
  {
    && |atts| == |Copies(bp, n)|
    && forall x :: 0 <= x < |atts| ==> Copies(bp, n)[x] < n && Records(env, bp, Copies(bp, n)[x], atts[x])
  }

  lemma NotSummed(pool: Pool, dva: Dva, psize: nat)
    requires pool.Valid() && pool.Aligned(dva) && psize > 0
    ensures ReadDva(pool, dva, psize).1.checksumOk == None
  {
    hide Dva.Offset, Layout.Map, RebuiltColumn, GoneUsed, AnalyseAvailability, Select, Whole, Join;
  }

  lemma TryRecords(env: Env, bp: BlockPointer, i: nat)
    requires Readied(env, bp) && bp.Psize() > 0 && !bp.IsGang() && i < |bp.dvas| && !bp.dvas[i].IsEmpty()
    ensures var (att, t) := TryCopy(env, bp, bp.dvas[i]);
            Records(env, bp, i, att)
  {
    hide ReadDva, Compress.Decompress, Checksum.Compute, Checksum.Expected, Dva.Gang, Dva.IsEmpty;
    StatusOfRead(env.pool, bp.dvas[i], bp.Psize());
    NotSummed(env.pool, bp.dvas[i], bp.Psize());
    var raw := CopyBytes(env, bp, i);
    if raw.Some? { assert Summed(env, bp, raw.value) <==> KnownChecksum(bp); }
  }

  lemma {:induction false} OneMore(env: Env, bp: BlockPointer, n: nat, atts: seq<Attempt>, att: Attempt)
    requires Readied(env, bp) && bp.Psize() > 0 && n < |bp.dvas| && !bp.dvas[n].IsEmpty()
    requires Recorded(env, bp, n, atts) && Records(env, bp, n, att)
    ensures Recorded(env, bp, n + 1, atts + [att])
  {
    hide Records;
  }

  // ----- the status -----

  /** The bytes of every copy, None where they cannot be had. */
  function Raws(env: Env, bp: BlockPointer): (raws: seq<Option<seq<Byte>>>)
    requires Readied(env, bp) && bp.Psize() > 0
    ensures |raws| == |bp.dvas| && forall i :: 0 <= i < |raws| ==> raws[i] == CopyBytes(env, bp, i)
  {
    seq(|bp.dvas|, i requires 0 <= i < |bp.dvas| => CopyBytes(env, bp, i))
  }

  /** The last of the first `n` copies that could be read; -1 for none. */
  function LastRead(raws: seq<Option<seq<Byte>>>, n: nat): (j: int)
    requires n <= |raws|
    ensures -1 <= j < n && (j >= 0 ==> raws[j].Some?) && forall i :: j < i < n ==> raws[i].None?
  {
    if n == 0 then -1 else if raws[n - 1].Some? then n - 1 else LastRead(raws, n - 1)
  }

  predicate Wrong(env: Env, bp: BlockPointer, raw: Option<seq<Byte>>)
  {
    raw.Some? && WrongSum(env, bp, raw.value)
  }

  /** The last of the first `n` copies that was read with a wrong checksum; -1 for none. */
  function LastWrong(env: Env, bp: BlockPointer, raws: seq<Option<seq<Byte>>>, n: nat): (j: int)
    requires n <= |raws|
    ensures -1 <= j < n && (j >= 0 ==> Wrong(env, bp, raws[j]))
    ensures forall i :: j < i < n ==> !Wrong(env, bp, raws[i])
  {
    if n == 0 then -1 else if Wrong(env, bp, raws[n - 1]) then n - 1 else LastWrong(env, bp, raws, n - 1)
  }

  /** The status of a failure after the first `n` copies. */
  predicate StatusTells(env: Env, bp: BlockPointer, raws: seq<Option<seq<Byte>>>, n: nat, s: BlockStatus)
    requires n <= |raws|
  {
    var j := LastRead(raws, n);
    if j < 0 then s == MissingData else Blames(env, bp, raws[j].value, s)
  }

  /** The checksum that it shows. */
  predicate SumTells(env: Env, bp: BlockPointer, raws: seq<Option<seq<Byte>>>, n: nat, c: Option<Cksum>)
    requires n <= |raws|
  {
    var j := LastWrong(env, bp, raws, n);
    if j < 0 then c == None else c == Some(Sum(env, bp, raws[j].value).0)
  }

  ghost predicate Tells(env: Env, bp: BlockPointer, n: nat, res: BlockResult)
    requires Readied(env, bp) && bp.Psize() > 0 && n <= |bp.dvas|
  {
    var raws := Raws(env, bp);
    StatusTells(env, bp, raws, n, res.status) && SumTells(env, bp, raws, n, res.computed)
  }

  /** The status that a copy leaves when it was read in vain. */
  predicate Blames(env: Env, bp: BlockPointer, raw: seq<Byte>, s: BlockStatus)
  {
    && (s == InvalidChecksum <==> WrongSum(env, bp, raw) || BadStream(env, bp, raw))
    && (s == Unknown <==> !KnownChecksum(bp) || NoDecoding(env, bp, raw))
    && (s == InvalidChecksum || s == Unknown)
  }

  lemma {:induction false} StatusMore(env: Env, bp: BlockPointer, raws: seq<Option<seq<Byte>>>, n: nat,
                                      s: BlockStatus, s': BlockStatus)
    requires n < |raws| && StatusTells(env, bp, raws, n, s)
    requires if raws[n].None? then s' == s else Blames(env, bp, raws[n].value, s')
    ensures StatusTells(env, bp, raws, n + 1, s')
  {
    hide Blames;
  }

  lemma {:induction false} SumMore(env: Env, bp: BlockPointer, raws: seq<Option<seq<Byte>>>, n: nat,
                                   c: Option<Cksum>, c': Option<Cksum>)
    requires n < |raws| && SumTells(env, bp, raws, n, c)
    requires c' == if Wrong(env, bp, raws[n]) then Some(Sum(env, bp, raws[n].value).0) else c
    ensures SumTells(env, bp, raws, n + 1, c')
  {
    hide WrongSum, Sum;
  }

  /** One copy read in vain, or not read, is added to what the failure says. */
  lemma TellsMore(env: Env, bp: BlockPointer, n: nat, acc: BlockResult)
    requires Readied(env, bp) && bp.Psize() > 0 && !bp.IsGang() && n < |bp.dvas| && !bp.dvas[n].IsEmpty()
    requires Tells(env, bp, n, acc) && !acc.Ok() && !Usable(env, bp, n) && !Raises(env, bp, n)
    ensures var (att, t) := TryCopy(env, bp, bp.dvas[n]);
            Tells(env, bp, n + 1, Note(acc, att, t))
  {
    hide CopyBytes, Wrong, Blames, Note, TryCopy, Sum, StatusTells, SumTells, Usable, Raises;
    var (att, t) := TryCopy(env, bp, bp.dvas[n]);
    var next := Note(acc, att, t);
    NoteSays(env, bp, n, acc);
    StatusMore(env, bp, Raws(env, bp), n, acc.status, next.status);
    SumMore(env, bp, Raws(env, bp), n, acc.computed, next.computed);
  }

  lemma NoteSays(env: Env, bp: BlockPointer, n: nat, acc: BlockResult)
    requires Readied(env, bp) && bp.Psize() > 0 && !bp.IsGang() && n < |bp.dvas| && !bp.dvas[n].IsEmpty()
    requires !acc.Ok() && !Usable(env, bp, n) && !Raises(env, bp, n)
    ensures var (att, t) := TryCopy(env, bp, bp.dvas[n]);
            var raw := CopyBytes(env, bp, n);
            var next := Note(acc, att, t);
            && (raw.None? ==> next.status == acc.status)
            && (raw.Some? ==> Blames(env, bp, raw.value, next.status))
            && next.computed == (if Wrong(env, bp, raw) then Some(Sum(env, bp, raw.value).0) else acc.computed)
  {
    hide ReadDva, Compress.Decompress, Checksum.Compute, Checksum.Expected, Dva.Gang, Dva.IsEmpty;
    var raw := CopyBytes(env, bp, n);
    if raw.Some? { assert Summed(env, bp, raw.value) <==> KnownChecksum(bp); }
  }

  lemma NotWrong(env: Env, bp: BlockPointer)
    ensures !Wrong(env, bp, None)
  {
  }

  lemma {:induction false} SkipsEmpty(env: Env, bp: BlockPointer, n: nat, acc: BlockResult)
    requires Readied(env, bp) && bp.Psize() > 0 && n < |bp.dvas| && bp.dvas[n].IsEmpty()
    requires Tells(env, bp, n, acc) && Recorded(env, bp, n, acc.attempts)
    ensures Tells(env, bp, n + 1, acc) && Recorded(env, bp, n + 1, acc.attempts)
  {
    hide CopyBytes, Wrong, Blames, Sum, Records, StatusTells, SumTells;
    EmptyCopy(env, bp, n);
    assert !Wrong(env, bp, Raws(env, bp)[n]) by { NotWrong(env, bp); }
    StatusMore(env, bp, Raws(env, bp), n, acc.status, acc.status);
    SumMore(env, bp, Raws(env, bp), n, acc.computed, acc.computed);
  }

  /** The checksum of the copy that was good, and the status of the attempt on it. */
  predicate Succeeds(env: Env, bp: BlockPointer, k: nat, res: BlockResult)
    requires Readied(env, bp) && bp.Psize() > 0 && k < |bp.dvas|
  {
    && Usable(env, bp, k) && KnownChecksum(bp)
    && res.computed == Some(Sum(env, bp, CopyBytes(env, bp, k).value).0)
    && res.attempts != [] && res.status == res.attempts[|res.attempts| - 1].status
  }

  lemma {:induction false} GoodSucceeds(env: Env, bp: BlockPointer, i: nat, acc: BlockResult)
    requires Readied(env, bp) && bp.Psize() > 0 && !bp.IsGang() && i < |bp.dvas| && !bp.dvas[i].IsEmpty()
    ensures var (att, t) := TryCopy(env, bp, bp.dvas[i]);
            var r := ReadCopies(env, bp, i, acc);
            t.Good? ==> r.Returned? && r.res.attempts == acc.attempts + [att] && Succeeds(env, bp, i, r.res)
  {
    hide ReadDva, Compress.Decompress, Checksum.Compute, Checksum.Expected, Dva.Gang, Note;
    var raw := CopyBytes(env, bp, i);
    if raw.Some? { assert Summed(env, bp, raw.value) <==> KnownChecksum(bp); }
  }

  lemma {:induction false} CopiesTell(env: Env, bp: BlockPointer, i: nat, acc: BlockResult)
    requires Readied(env, bp) && bp.Psize() > 0 && !bp.IsGang() && i <= |bp.dvas| && SoFar(acc)
    requires Tells(env, bp, i, acc) && Recorded(env, bp, i, acc.attempts)
    ensures var r := ReadCopies(env, bp, i, acc);
            var k := First(env, bp, i);
            r.Returned? ==>
              if k == |bp.dvas| then Tells(env, bp, k, r.res) && Recorded(env, bp, k, r.res.attempts)
              else Recorded(env, bp, k + 1, r.res.attempts) && Succeeds(env, bp, k, r.res)
    decreases |bp.dvas| - i
  {
    hide TryCopy, CopyBytes, Usable, Raises, Decoding, Note, BlockPointer.IsGang, Tells, Recorded, Records,
         Succeeds;
    if i == |bp.dvas| {
    } else if bp.dvas[i].IsEmpty() {
      EmptyCopy(env, bp, i);
      SkipsEmpty(env, bp, i, acc);
      CopiesTell(env, bp, i + 1, acc);
    } else {
      AttemptStatus(env, bp, i);
      TryRecords(env, bp, i);
      var (att, t) := TryCopy(env, bp, bp.dvas[i]);
      OneMore(env, bp, i, acc.attempts, att);
      GoodSucceeds(env, bp, i, acc);
      if !t.Good? && !t.Escapes? {
        NoteKeeps(acc, att, t);
        TellsMore(env, bp, i, acc);
        CopiesTell(env, bp, i + 1, Note(acc, att, t));
      }
    }
  }

  lemma {:induction false} NothingTold(env: Env, bp: BlockPointer)
    requires Readied(env, bp) && bp.Psize() > 0
    ensures Tells(env, bp, 0, Blank(MissingData)) && Recorded(env, bp, 0, [])
  {
  }

  /** The last copy that could be read gives a failed reading its status: INVALID_CHECKSUM exactly when
      its checksum is wrong or its stream cannot be decoded, UNKNOWN exactly when its checksum or
      its compression is of an unknown kind. The checksum shown is that of the last mismatch. Every
      reading, failed or not, records each copy that it tried, in order, with its own outcome. */
  lemma {:induction false} FailureTells(env: Env, bp: BlockPointer)
    requires Readied(env, bp) && Plain(bp)
    ensures bp.Psize() > 0
    ensures var r := ReadBlock(env, bp);
            var k, n := First(env, bp, 0), |bp.dvas|;
            r.Returned? ==>
              && Recorded(env, bp, if k == n then n else k + 1, r.res.attempts)
              && (if k < n then Succeeds(env, bp, k, r.res) else Tells(env, bp, n, r.res))
  {
    hide ReadCopies, CopyBytes, Usable, Raises, BlockPointer.IsHole, BlockPointer.IsGang, BlockPointer.Embedded,
         BlockPointer.UsesCrypt, Tells, Recorded, Succeeds;
    PlainHasSize(bp);
    NothingTold(env, bp);
    CopiesTell(env, bp, 0, Blank(MissingData));
    ReadCopiesOutcome(env, bp, 0, Blank(MissingData));
  }

  /** Every other pointer is answered without a reading: a hole is zeros, an embedded block is its own
      payload decoded, an encrypted block and a gang block are UNKNOWN. */
  lemma OtherPointers(env: Env, bp: BlockPointer)
    requires Readied(env, bp) && !Plain(bp)
    ensures var r, bare := ReadBlock(env, bp), BlockResult(Unknown, None, None, None, false, None, None, []);
            if bp.IsHole() then
              r == Returned(bare.(status := Recovered, data := Some(Zeros(bp.Lsize())), physical := Some([])))
            else if bp.Embedded() then
              match Decoding(env, bp, bp.EmbeddedPayload())
              case Ok(data) =>
                r == Returned(bare.(status := Recovered, data := Some(data), physical := Some(bp.EmbeddedPayload())))
              case Escaped => r == Raised
              case _ => r == Returned(bare)
            else r == Returned(bare)
  {
    hide Compress.Decompress, BlockPointer.IsHole, BlockPointer.Embedded, BlockPointer.IsGang, BlockPointer.UsesCrypt;
  }

  // ----- the reads of a copy -----

  predicate IsUsed(c: Column, devices: map<nat, Device>, here: bool)
  {
    c.size > 0 && (here <==> c.devidx in devices)
  }

  /** The places of the used columns whose children are supplied, or are not. */
  function UsedPlaces(cols: seq<Column>, devices: map<nat, Device>, here: bool): set<nat>
  {
    set c: nat | c < |cols| && IsUsed(cols[c], devices, here)
  }

  lemma {:induction false} OneMoreUsed(devices: map<nat, Device>, cols: seq<Column>, n: nat)
    requires 0 < n <= |cols|
    ensures |UsedPlaces(cols[..n], devices, true)|
         == |UsedPlaces(cols[..n - 1], devices, true)| + (if IsUsed(cols[n - 1], devices, true) then 1 else 0)
  {
    hide IsUsed;
    var here: set<nat> := if IsUsed(cols[n - 1], devices, true) then {n - 1} else {};
    assert UsedPlaces(cols[..n], devices, true) == UsedPlaces(cols[..n - 1], devices, true) + here;
  }

  /** One read behind the front labels of the child, for every used column on a supplied child. */
  lemma {:induction false} RequestsListed(devices: map<nat, Device>, cols: seq<Column>, n: nat)
    requires n <= |cols|
    ensures |Requests(devices, cols, n)| == |UsedPlaces(cols[..n], devices, true)|
    ensures forall c: nat :: c < n && IsUsed(cols[c], devices, true) ==>
              (cols[c].devidx, cols[c].offset + 0x40_0000, cols[c].size) in Requests(devices, cols, n)
  {
    if n == 0 {
      assert UsedPlaces(cols[..0], devices, true) == {};
    } else {
      hide UsedPlaces;
      RequestsListed(devices, cols, n - 1);
      OneMoreUsed(devices, cols, n);
    }
  }

  /** A copy is read only where that can help: not at all for a gang DVA, and not at all when more used
      columns are absent than parity can replace; otherwise every used column on a supplied child is read
      once, and nothing else. */
  lemma NoVainReads(pool: Pool, dva: Dva, psize: nat)
    requires pool.Valid() && pool.Aligned(dva) && psize > 0
    ensures dva.Gang() ==>
              RequestsOf(pool, dva, psize) == [] && ReadDva(pool, dva, psize) == (None, Attempt(Unknown, [], {}, None))
    ensures !dva.Gang() ==>
              var cols, rs := pool.LayoutOf(dva, psize).Map().columns, RequestsOf(pool, dva, psize);
              if |UsedPlaces(cols, pool.devices, false)| > pool.nparity then rs == []
              else
                && |rs| == |UsedPlaces(cols, pool.devices, true)|
                && forall c: nat :: c < |cols| && IsUsed(cols[c], pool.devices, true) ==>
                     (cols[c].devidx, cols[c].offset + 0x40_0000, cols[c].size) in rs
  {
    hide ReadLayout, Layout.Map, AnalyseAvailability, Requests;
    if !dva.Gang() {
      var l := pool.LayoutOf(dva, psize);
      var cols := l.Map().columns;
      RecoverableIff(l, pool.devices.Keys);
      RequestsListed(pool.devices, cols, |cols|);
      assert GoneUsed(cols, Absent(cols, pool.devices.Keys)) == UsedPlaces(cols, pool.devices, false);
      assert cols[..|cols|] == cols;
    }
  }
}
