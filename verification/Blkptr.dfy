/** Block pointers: 128 bytes, sixteen little-endian words, decoded by bit field. */
module Blkptr {
  import opened Bytes

  const BLKPTR_SIZE := 128
  const SPA_MINBLOCK := 512

  type Word = w: int | 0 <= w < TWO_64

  /** The `len` bits of `x` from bit `low` up, both given as powers of two. */
  function Field(x: nat, low: nat, len: nat): nat
    requires low > 0 && len > 0
  {
    (x / low) % len
  }

  /** Where one copy of a block is. */
  datatype Dva = Dva(word0: nat, word1: nat)
  {
    function Offset(): nat { Field(word1, 1, TWO_63) * SPA_MINBLOCK }

    predicate Gang() { Field(word1, TWO_63, 2) == 1 }

    predicate IsEmpty() { word0 == 0 && word1 == 0 }
  }

  type Cksum = (Word, Word, Word, Word)

  datatype BlockPointer = BlockPointer(raw: seq<Byte>, dvas: seq<Dva>, prop: nat, cksum: Cksum)
  {
    predicate Embedded() { Field(prop, 0x80_0000_0000, 2) == 1 }

    function EmbeddedType(): nat { Field(prop, 0x100_0000_0000, 256) }

    function Lsize(): nat
    {
      if Embedded() then (if EmbeddedType() == 0 then Field(prop, 1, 0x200_0000) + 1 else 0)
      else (Field(prop, 1, 0x1_0000) + 1) * SPA_MINBLOCK
    }

    function Psize(): nat
    {
      if Embedded() then 0 else (Field(prop, 0x1_0000, 0x1_0000) + 1) * SPA_MINBLOCK
    }

    function EmbeddedPsize(): nat { Field(prop, 0x200_0000, 128) + 1 }

    function Compress(): nat { Field(prop, TWO_32, 128) }

    function Checksum(): nat { if Embedded() then 2 else Field(prop, 0x100_0000_0000, 256) }

    predicate UsesCrypt() { Field(prop, 0x2000_0000_0000_0000, 2) == 1 }

    function Byteorder(): nat { Field(prop, TWO_63, 2) }

    predicate IsHole() { !Embedded() && forall d :: d in dvas ==> d.IsEmpty() }

    predicate IsGang() { exists d :: d in dvas && !d.IsEmpty() && d.Gang() }

    /** The payload of an embedded pointer: every word but the sixth and the tenth. */
    function EmbeddedPayload(): seq<Byte>
      requires |raw| == BLKPTR_SIZE
    {
      var all := raw[..48] + raw[56..80] + raw[88..];
      all[..Min(EmbeddedPsize(), |all|)]
    }
  }

  /** Word `i` of a block pointer stored at `offset`. */
  function WordAt(raw: seq<Byte>, offset: nat, i: nat): Word
    requires offset + 8 * i + 8 <= |raw|
  {
    assert Base256(8) == TWO_64;
    Le(raw[offset + 8 * i..offset + 8 * i + 8])
  }

  function ParseBlkptr(raw: seq<Byte>, offset: nat): (bp: BlockPointer)
    requires offset + BLKPTR_SIZE <= |raw|
    ensures |bp.raw| == BLKPTR_SIZE && |bp.dvas| == 3
  {
    BlockPointer(
      raw[offset..offset + BLKPTR_SIZE],
      [Dva(WordAt(raw, offset, 0), WordAt(raw, offset, 1)),
       Dva(WordAt(raw, offset, 2), WordAt(raw, offset, 3)),
       Dva(WordAt(raw, offset, 4), WordAt(raw, offset, 5))],
      WordAt(raw, offset, 6),
      (WordAt(raw, offset, 12), WordAt(raw, offset, 13), WordAt(raw, offset, 14), WordAt(raw, offset, 15)))
  }

  /** A pointer that was decoded from its own raw bytes. */
  predicate Genuine(bp: BlockPointer)
  {
    |bp.raw| == BLKPTR_SIZE && bp == ParseBlkptr(bp.raw, 0)
  }

  lemma ParsedIsGenuine(raw: seq<Byte>, offset: nat)
    requires offset + BLKPTR_SIZE <= |raw|
    ensures Genuine(ParseBlkptr(raw, offset))
  {
    var own := raw[offset..offset + BLKPTR_SIZE];
    forall i: nat | i < 16
      ensures WordAt(own, 0, i) == WordAt(raw, offset, i)
    {
      SliceOfSlice(raw, offset, BLKPTR_SIZE, 8 * i, 8 * i + 8);
    }
    assert own[0..BLKPTR_SIZE] == own;
  }

  // ----- a writer of pointers -----

  /** Words, one after the other, each with its lowest byte first. */
  function EncWords(ws: seq<Word>): (e: seq<Byte>)
    ensures |e| == 8 * |ws|
  {
    if ws == [] then [] else EncWords(ws[..|ws| - 1]) + LeBytes(ws[|ws| - 1], 8)
  }

  /** The pointer that sixteen words make. */
  function FromWords(ws: seq<Word>): (bp: BlockPointer)
    requires |ws| == 16
    ensures |bp.raw| == BLKPTR_SIZE
  {
    ParseBlkptr(EncWords(ws), 0)
  }

  lemma {:induction false} WordReadsBack(ws: seq<Word>, more: seq<Byte>, i: nat)
    requires i < |ws|
    ensures WordAt(EncWords(ws) + more, 0, i) == ws[i]
  {
    hide Le, LeBytes;
    var n := |ws| - 1;
    var last := LeBytes(ws[n], 8);
    if i < n {
      WordReadsBack(ws[..n], last + more, i);
      assert EncWords(ws) + more == EncWords(ws[..n]) + (last + more);
    } else {
      assert Base256(8) == TWO_64;
      LeRoundTrip(ws[n], 8);
      assert (EncWords(ws) + more)[8 * n..8 * n + 8] == last;
    }
  }

  /** A pointer written as its sixteen words is read back: three DVAs, the properties and the
      checksum, each from its own words. */
  lemma {:induction false} PointerReadsBack(ws: seq<Word>)
    requires |ws| == 16
    ensures ParseBlkptr(EncWords(ws), 0)
         == BlockPointer(EncWords(ws), [Dva(ws[0], ws[1]), Dva(ws[2], ws[3]), Dva(ws[4], ws[5])], ws[6],
                         (ws[12], ws[13], ws[14], ws[15]))
  {
    hide WordAt, EncWords;
    var raw := EncWords(ws);
    assert raw + [] == raw && raw[0..BLKPTR_SIZE] == raw;
    forall i: nat | i < 16
      ensures WordAt(raw, 0, i) == ws[i]
    {
      WordReadsBack(ws, [], i);
    }
  }
}
