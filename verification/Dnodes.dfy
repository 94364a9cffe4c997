/** Dnodes: decoding one from a block of the dnode table. */
module Dnodes {
  import opened Bytes
  import opened Blkptr
  import opened Codec

  const DNODE_MIN_SIZE := 512
  const DNODE_CORE_SIZE := 64

  datatype Dnode = Dnode(
    objectId: nat, kind: nat, indblkshift: nat, nlevels: nat, nblkptr: nat, bonustype: nat,
    checksum: nat, compress: nat, flags: nat, datablkszsec: nat, bonuslen: nat, extraSlots: nat,
    maxblkid: nat, used: nat, blkptrs: seq<BlockPointer>, bonus: seq<Byte>, spill: Option<BlockPointer>)
  {
    predicate Allocated() { kind != 0 }

    function Datablksize(): nat { datablkszsec * 512 }

    /** Binary logarithm of the number of pointers in an indirect block (negative if it holds
        none). */
    function Epbs(): int { indblkshift - 7 }

    function Nblocks(): nat { if Allocated() then maxblkid + 1 else 0 }
  }

  /** `raw[start:start + len]`, as far as it goes. */
  function Slice(raw: seq<Byte>, start: nat, len: nat): seq<Byte>
  {
    raw[Min(start, |raw|)..Min(start + len, |raw|)]
  }

  /** The `n` block pointers from `base` on; None when one is cut short. */
  function ParseBlkptrs(raw: seq<Byte>, base: nat, n: nat): (r: Option<seq<BlockPointer>>)
    ensures r.Some? ==> |r.value| == n
    ensures r.Some? ==> forall bp :: bp in r.value ==> Genuine(bp)
  {
    if n == 0 then Some([])
    else
      match ParseBlkptrs(raw, base, n - 1)
      case None => None
      case Some(bps) =>
        var at := base + (n - 1) * BLKPTR_SIZE;
        if at + BLKPTR_SIZE > |raw| then None
        else
          ParsedIsGenuine(raw, at);
          Some(bps + [ParseBlkptr(raw, at)])
  }

  /** None stands for the exceptions: a buffer too short for a dnode or for its pointers. */
  function ParseDnode(raw: seq<Byte>, offset: nat, objectId: nat): (r: Option<Dnode>)
    ensures r.Some? ==> r.value.objectId == objectId
    ensures r.Some? && r.value.Allocated() ==>
              |r.value.blkptrs| == r.value.nblkptr && forall bp :: bp in r.value.blkptrs ==> Genuine(bp)
  {
    if |raw| < offset + DNODE_MIN_SIZE then None
    else
      var dn := Dnode(
        objectId, raw[offset], raw[offset + 1], raw[offset + 2], raw[offset + 3], raw[offset + 4],
        raw[offset + 5], raw[offset + 6], raw[offset + 7], Le(raw[offset + 8..offset + 10]),
        Le(raw[offset + 10..offset + 12]), raw[offset + 12], Le(raw[offset + 16..offset + 24]),
        Le(raw[offset + 24..offset + 32]), [], [], None);
      if dn.kind == 0 then Some(dn)
      else
        var base := offset + DNODE_CORE_SIZE;
        match ParseBlkptrs(raw, base, dn.nblkptr)
        case None => None
        case Some(bps) =>
          var dn := dn.(blkptrs := bps, bonus := Slice(raw, base + dn.nblkptr * BLKPTR_SIZE, dn.bonuslen));
          if (dn.flags / 4) % 2 == 0 then Some(dn)
          else
            var end := offset + (1 + dn.extraSlots) * DNODE_MIN_SIZE;
            if end > |raw| then None
            else Some(dn.(spill := Some(ParseBlkptr(raw, end - BLKPTR_SIZE))))
  }

  /** What `parse_dnode` needs of a dnode for its block pointers to be reached. */
  predicate WellFormed(dn: Dnode)
  {
    && |dn.blkptrs| == dn.nblkptr
    && (forall bp :: bp in dn.blkptrs ==> Genuine(bp))
    && (dn.nlevels > 1 ==> dn.Epbs() >= 0)
  }

  // ----- a writer of dnodes -----

  /** A dnode whose fields fit their places, and whose parts fit its slots. */
  predicate Writable(dn: Dnode)
  {
    && dn.kind < 256 && dn.indblkshift < 256 && dn.nlevels < 256 && dn.nblkptr < 256 && dn.bonustype < 256
    && dn.checksum < 256 && dn.compress < 256 && dn.flags < 256 && dn.extraSlots < 256
    && dn.datablkszsec < Base256(2) && dn.bonuslen < Base256(2) && dn.maxblkid < TWO_64 && dn.used < TWO_64
    && dn.kind != 0 && |dn.blkptrs| == dn.nblkptr && (forall bp :: bp in dn.blkptrs ==> Genuine(bp))
    && |dn.bonus| == dn.bonuslen && (dn.spill.Some? <==> (dn.flags / 4) % 2 == 1)
    && (dn.spill.Some? ==> Genuine(dn.spill.value))
    && Filled(dn) <= (1 + dn.extraSlots) * DNODE_MIN_SIZE
  }

  /** The bytes that the parts of a dnode take. */
  function Filled(dn: Dnode): nat
  {
    DNODE_CORE_SIZE + dn.nblkptr * BLKPTR_SIZE + dn.bonuslen + (if dn.spill.Some? then BLKPTR_SIZE else 0)
  }

  function EncBlkptrs(bps: seq<BlockPointer>): (e: seq<Byte>)
    requires forall bp :: bp in bps ==> Genuine(bp)
    ensures |e| == |bps| * BLKPTR_SIZE
  {
    if bps == [] then []
    else
      assert Genuine(bps[|bps| - 1]);
      Distribute(|bps| - 1, 1, BLKPTR_SIZE);
      EncBlkptrs(bps[..|bps| - 1]) + bps[|bps| - 1].raw
  }

  function EncBytes(dn: Dnode): (e: seq<Byte>)
    requires Writable(dn)
    ensures |e| == 8
  {
    [dn.kind, dn.indblkshift, dn.nlevels, dn.nblkptr, dn.bonustype, dn.checksum, dn.compress, dn.flags]
  }

  function EncCore(dn: Dnode): (e: seq<Byte>)
    requires Writable(dn)
    ensures |e| == DNODE_CORE_SIZE
  {
    EncBytes(dn) + LeBytes(dn.datablkszsec, 2) + LeBytes(dn.bonuslen, 2) + [dn.extraSlots] + Zeros(3)
    + LeBytes(dn.maxblkid, 8) + LeBytes(dn.used, 8) + Zeros(32)
  }

  /** The core, the pointers, the bonus, and the spill pointer at the end of the last slot. */
  function EncDnode(dn: Dnode): (e: seq<Byte>)
    requires Writable(dn)
    ensures |e| == (1 + dn.extraSlots) * DNODE_MIN_SIZE
  {
    EncCore(dn) + EncBlkptrs(dn.blkptrs) + dn.bonus
    + Zeros((1 + dn.extraSlots) * DNODE_MIN_SIZE - Filled(dn))
    + (if dn.spill.Some? then dn.spill.value.raw else [])
  }

  lemma PointerStands(raw: seq<Byte>, at: nat, bp: BlockPointer)
    requires Genuine(bp) && Stands(raw, at, bp.raw)
    ensures ParseBlkptr(raw, at) == bp
  {
    hide Le;
    forall i: nat | i < 16
      ensures WordAt(raw, at, i) == WordAt(bp.raw, 0, i)
    {
      SliceOfSlice(raw, at, BLKPTR_SIZE, 8 * i, 8 * i + 8);
    }
    assert bp.raw[0..BLKPTR_SIZE] == bp.raw;
  }

  lemma {:induction false} PointersReadBack(raw: seq<Byte>, base: nat, bps: seq<BlockPointer>)
    requires (forall bp :: bp in bps ==> Genuine(bp)) && Stands(raw, base, EncBlkptrs(bps))
    ensures ParseBlkptrs(raw, base, |bps|) == Some(bps)
  {
    hide ParseBlkptr, Genuine, Stands, ParseBlkptrs, EncBlkptrs;
    PointersStep(raw, base, bps);
    if bps != [] {
      var n := |bps| - 1;
      StandsSplit(raw, base, EncBlkptrs(bps[..n]), bps[n].raw);
      PointersReadBack(raw, base, bps[..n]);
      PointerSize(bps[n]);
      MulMono(0, n, BLKPTR_SIZE);
      StandsInside(raw, base + n * BLKPTR_SIZE, bps[n].raw);
      PointerStands(raw, base + n * BLKPTR_SIZE, bps[n]);
      assert bps[..n] + [bps[n]] == bps;
    }
  }

  lemma {:induction false} PointersStep(raw: seq<Byte>, base: nat, bps: seq<BlockPointer>)
    requires forall bp :: bp in bps ==> Genuine(bp)
    ensures bps == [] ==> ParseBlkptrs(raw, base, 0) == Some([])
    ensures bps != [] ==>
              var n := |bps| - 1;
              && EncBlkptrs(bps) == EncBlkptrs(bps[..n]) + bps[n].raw
              && (ParseBlkptrs(raw, base, n).Some? && base + n * BLKPTR_SIZE + BLKPTR_SIZE <= |raw| ==>
                    ParseBlkptrs(raw, base, n + 1)
                    == Some(ParseBlkptrs(raw, base, n).value + [ParseBlkptr(raw, base + n * BLKPTR_SIZE)]))
  {
    hide ParseBlkptr, Genuine;
  }

  lemma PointerSize(bp: BlockPointer)
    requires Genuine(bp)
    ensures |bp.raw| == BLKPTR_SIZE
  {
  }

  lemma {:induction false} LeStands(raw: seq<Byte>, at: nat, v: nat, n: nat)
    requires v < Base256(n) && Stands(raw, at, LeBytes(v, n))
    ensures at + n <= |raw| && Le(raw[at..at + n]) == v
  {
    LeRoundTrip(v, n);
  }

  /** The fields of the core are read back. */
  lemma CoreReadsBack(raw: seq<Byte>, at: nat, dn: Dnode)
    requires Writable(dn) && Stands(raw, at, EncCore(dn))
    ensures at + 32 <= |raw| && Stands(raw, at, EncBytes(dn)) && raw[at + 12] == dn.extraSlots
    ensures Le(raw[at + 8..at + 10]) == dn.datablkszsec && Le(raw[at + 10..at + 12]) == dn.bonuslen
    ensures Le(raw[at + 16..at + 24]) == dn.maxblkid && Le(raw[at + 24..at + 32]) == dn.used
  {
    hide Le, LeBytes, Writable, EncBytes;
    var a, b, c := LeBytes(dn.datablkszsec, 2), LeBytes(dn.bonuslen, 2), LeBytes(dn.maxblkid, 8);
    var d, x := LeBytes(dn.used, 8), EncBytes(dn);
    var slots: seq<Byte> := [dn.extraSlots] by { FieldsFit(dn); }
    StandsSplit(raw, at, x + a + b + slots + Zeros(3) + c + d, Zeros(32));
    StandsSplit(raw, at, x + a + b + slots + Zeros(3) + c, d);
    StandsSplit(raw, at, x + a + b + slots + Zeros(3), c);
    StandsSplit(raw, at, x + a + b + slots, Zeros(3));
    StandsSplit(raw, at, x + a + b, slots);
    StandsSplit(raw, at, x + a, b);
    StandsSplit(raw, at, x, a);
    FieldsFit(dn);
    LeStands(raw, at + 8, dn.datablkszsec, 2);
    LeStands(raw, at + 10, dn.bonuslen, 2);
    LeStands(raw, at + 16, dn.maxblkid, 8);
    LeStands(raw, at + 24, dn.used, 8);
    assert raw[at + 12..at + 13][0] == dn.extraSlots;
  }

  lemma FieldsFit(dn: Dnode)
    requires Writable(dn)
    ensures dn.datablkszsec < Base256(2) && dn.bonuslen < Base256(2) && dn.extraSlots < 256
    ensures dn.maxblkid < Base256(8) && dn.used < Base256(8)
  {
    assert Base256(8) == TWO_64;
  }

  /** A written dnode is read back whole, wherever it stands: its fields, its pointers, its bonus
      and its spill pointer. */
  lemma DnodeReadsBack(raw: seq<Byte>, offset: nat, dn: Dnode)
    requires Writable(dn) && Stands(raw, offset, EncDnode(dn))
    ensures ParseDnode(raw, offset, dn.objectId) == Some(dn)
  {
    hide Le, LeBytes, EncCore, EncBlkptrs, ParseBlkptrs, ParseBlkptr, Genuine, Stands, ParseDnode, Slice, Zeros;
    var spill := if dn.spill.Some? then dn.spill.value.raw else [];
    var gap := Zeros((1 + dn.extraSlots) * DNODE_MIN_SIZE - Filled(dn));
    var core, pointers := EncCore(dn), EncBlkptrs(dn.blkptrs);
    StandsSplit(raw, offset, core + pointers + dn.bonus + gap, spill);
    StandsSplit(raw, offset, core + pointers + dn.bonus, gap);
    StandsSplit(raw, offset, core + pointers, dn.bonus);
    StandsSplit(raw, offset, core, pointers);
    PointersReadBack(raw, offset + DNODE_CORE_SIZE, dn.blkptrs);
    StandsInside(raw, offset, EncDnode(dn));
    if dn.spill.Some? {
      PointerSize(dn.spill.value);
      PointerStands(raw, offset + (1 + dn.extraSlots) * DNODE_MIN_SIZE - BLKPTR_SIZE, dn.spill.value);
    }
    PartsReadBack(raw, offset, dn);
  }

  /** With the parts where they belong, the dnode is read. */
  lemma {:induction false} PartsReadBack(raw: seq<Byte>, offset: nat, dn: Dnode)
    requires Writable(dn) && Stands(raw, offset, EncCore(dn)) && |raw| >= offset + (1 + dn.extraSlots) * DNODE_MIN_SIZE
    requires ParseBlkptrs(raw, offset + DNODE_CORE_SIZE, dn.nblkptr) == Some(dn.blkptrs)
    requires Stands(raw, offset + DNODE_CORE_SIZE + dn.nblkptr * BLKPTR_SIZE, dn.bonus)
    requires dn.spill.Some? ==>
               ParseBlkptr(raw, offset + (1 + dn.extraSlots) * DNODE_MIN_SIZE - BLKPTR_SIZE) == dn.spill.value
    ensures ParseDnode(raw, offset, dn.objectId) == Some(dn)
  {
    hide Le, EncCore, ParseBlkptrs, ParseBlkptr, Genuine;
    CoreReadsBack(raw, offset, dn);
    var bytes := EncBytes(dn);
    forall i | 0 <= i < 8
      ensures raw[offset + i] == bytes[i]
    {
      assert raw[offset..offset + 8][i] == bytes[i];
    }
    StandsInside(raw, offset + DNODE_CORE_SIZE + dn.nblkptr * BLKPTR_SIZE, dn.bonus);
  }
}
