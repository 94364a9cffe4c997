/** The fields of block pointers, packed into words as ZFS does and read back. */
module Pointers {
  import opened Bytes
  import opened Blkptr

  /** Fields side by side, the lowest first, each given by its value and its size as a power of two. */
  function Pack(fields: seq<(nat, nat)>): nat
  {
    if fields == [] then 0 else fields[0].0 + fields[0].1 * Pack(fields[1..])
  }

  /** Where field `k` begins: the product of the sizes of those before it. */
  function Scale(fields: seq<(nat, nat)>, k: nat): nat
    requires k <= |fields|
  {
    if k == 0 then 1 else fields[0].1 * Scale(fields[1..], k - 1)
  }

  predicate Packable(fields: seq<(nat, nat)>)
  {
    forall i :: 0 <= i < |fields| ==> fields[i].0 < fields[i].1
  }

  lemma {:induction false} FieldOfPack(fields: seq<(nat, nat)>, k: nat)
    requires Packable(fields) && k < |fields|
    ensures Scale(fields, k) > 0 && Field(Pack(fields), Scale(fields, k), fields[k].1) == fields[k].0
  {
    hide Field;
    var (v, size) := fields[0];
    var rest := Pack(fields[1..]);
    if k == 0 {
      OneField(v, size, rest);
    } else {
      FieldOfPack(fields[1..], k - 1);
      var low, len := Scale(fields[1..], k - 1), fields[k].1;
      MulPositive(size, low);
      HigherField(v, size, rest, low, len);
    }
  }

  lemma {:induction false} NextScale(fields: seq<(nat, nat)>, k: nat)
    requires k < |fields|
    ensures Scale(fields, k + 1) == Scale(fields, k) * fields[k].1
  {
    if k > 0 {
      NextScale(fields[1..], k - 1);
      MulAssoc(fields[0].1, Scale(fields[1..], k - 1), fields[k].1);
    }
  }

  lemma OneField(v: nat, size: nat, rest: nat)
    requires v < size
    ensures Field(v + size * rest, 1, size) == v
  {
    DivAddMul(v, rest, size);
    DivModUnique(v, size, 0, v);
  }

  lemma HigherField(v: nat, size: nat, rest: nat, low: nat, len: nat)
    requires v < size && low > 0 && len > 0 && size * low > 0
    ensures Field(v + size * rest, size * low, len) == Field(rest, low, len)
  {
    var q, r := rest / low, rest % low;
    Distribute(q * low, r, size);
    MulAssoc(q, low, size);
    MulMono(0, r, size);
    MulMono(r, low - 1, size);
    Distribute(low, 1, size);
    DivModUnique(v + size * rest, size * low, q, v + size * r);
  }

  // ----- the property word -----

  /** The property word of a block that lies elsewhere: sizes in sectors less one, compression, no embedding,
      checksum, type, level, encryption, deduplication, byte order. */
  function Props(lsize: nat, psize: nat, comp: nat, cksum: nat, kind: nat, level: nat, crypt: nat, dedup: nat,
                 order: nat): seq<(nat, nat)>
  {
    [(lsize, 0x1_0000), (psize, 0x1_0000), (comp, 128), (0, 2), (cksum, 256), (kind, 256), (level, 32), (crypt, 2),
     (dedup, 2), (order, 2)]
  }

  /** That of an embedded block: sizes in bytes less one, compression, the mark, what is embedded, the rest. */
  function EmbeddedProps(lsize: nat, psize: nat, comp: nat, etype: nat, rest: nat): seq<(nat, nat)>
  {
    [(lsize, 0x200_0000), (psize, 128), (comp, 128), (1, 2), (etype, 256), (rest, 0x1_0000)]
  }

  /** The places of the fields of a block that lies elsewhere. */
  lemma {:induction false} PropScales(fields: seq<(nat, nat)>)
    requires |fields| == 10 && fields[0].1 == fields[1].1 == 0x1_0000 && fields[2].1 == 128 && fields[3].1 == 2
    requires fields[4].1 == fields[5].1 == 256 && fields[6].1 == 32 && fields[7].1 == fields[8].1 == 2
    ensures Scale(fields, 0) == 1 && Scale(fields, 1) == 0x1_0000 && Scale(fields, 2) == 0x1_0000_0000
    ensures Scale(fields, 3) == 0x80_0000_0000 && Scale(fields, 4) == 0x100_0000_0000
    ensures Scale(fields, 7) == 0x2000_0000_0000_0000 && Scale(fields, 9) == 0x8000_0000_0000_0000
  {
    assert Scale(fields, 0) == 1;
    hide Scale;
    NextScale(fields, 0);
    NextScale(fields, 1);
    NextScale(fields, 2);
    NextScale(fields, 3);
    NextScale(fields, 4);
    NextScale(fields, 5);
    NextScale(fields, 6);
    NextScale(fields, 7);
    NextScale(fields, 8);
  }

  /** Every field of the property word is read back. */
  lemma PropsReadBack(bp: BlockPointer, lsize: nat, psize: nat, comp: nat, cksum: nat, kind: nat, level: nat,
                      crypt: nat, dedup: nat, order: nat)
    requires Packable(Props(lsize, psize, comp, cksum, kind, level, crypt, dedup, order))
    requires bp.prop == Pack(Props(lsize, psize, comp, cksum, kind, level, crypt, dedup, order))
    ensures !bp.Embedded() && bp.Lsize() == 512 * (lsize + 1) && bp.Psize() == 512 * (psize + 1)
    ensures bp.Compress() == comp && bp.Checksum() == cksum
    ensures (bp.UsesCrypt() <==> crypt == 1) && bp.Byteorder() == order
  {
    var fields := Props(lsize, psize, comp, cksum, kind, level, crypt, dedup, order);
    PropScales(fields);
    hide Pack, Field, Packable, Scale;
    FieldOfPack(fields, 0);
    FieldOfPack(fields, 1);
    FieldOfPack(fields, 2);
    FieldOfPack(fields, 3);
    FieldOfPack(fields, 4);
    FieldOfPack(fields, 7);
    FieldOfPack(fields, 9);
  }

  /** So is that of an embedded block: its sizes are in bytes, and only data has a logical size. */
  lemma {:induction false} EmbeddedPropsReadBack(bp: BlockPointer, lsize: nat, psize: nat, comp: nat, etype: nat,
                                                 rest: nat)
    requires Packable(EmbeddedProps(lsize, psize, comp, etype, rest))
    requires bp.prop == Pack(EmbeddedProps(lsize, psize, comp, etype, rest))
    ensures bp.Embedded() && bp.Psize() == 0 && bp.EmbeddedPsize() == psize + 1 && bp.Compress() == comp
    ensures bp.Lsize() == if etype == 0 then lsize + 1 else 0
    ensures bp.Checksum() == 2
  {
    var fields := EmbeddedProps(lsize, psize, comp, etype, rest);
    assert Scale(fields, 0) == 1;
    hide Pack, Field, Packable, Scale;
    NextScale(fields, 0);
    NextScale(fields, 1);
    NextScale(fields, 2);
    NextScale(fields, 3);
    FieldOfPack(fields, 0);
    FieldOfPack(fields, 1);
    FieldOfPack(fields, 2);
    FieldOfPack(fields, 3);
    FieldOfPack(fields, 4);
  }

  /** The second word of a DVA: the offset in units of 512 bytes, and the mark of a gang block. */
  lemma DvaReadsBack(word0: nat, offset: nat, gang: nat)
    requires offset < 0x8000_0000_0000_0000 && gang < 2
    ensures var dva := Dva(word0, offset + 0x8000_0000_0000_0000 * gang);
            && dva.Offset() == 512 * offset && (dva.Gang() <==> gang == 1)
            && (dva.IsEmpty() <==> word0 == 0 && offset == 0 && gang == 0)
  {
    hide Field;
    OneField(offset, 0x8000_0000_0000_0000, gang);
    HigherField(offset, 0x8000_0000_0000_0000, gang, 1, 2);
    OneField(gang, 2, 0);
  }

  // ----- whole pointers -----

  lemma {:induction false} EncAppend(a: seq<Word>, b: seq<Word>)
    ensures EncWords(a + b) == EncWords(a) + EncWords(b)
    decreases |b|
  {
    hide LeBytes;
    if b == [] {
      assert a + b == a;
    } else {
      var n := |b| - 1;
      assert (a + b)[..|a + b| - 1] == a + b[..n];
      EncAppend(a, b[..n]);
    }
  }

  /** The payload of an embedded pointer is its words but the sixth and the tenth, cut at its size. */
  lemma {:induction false} PayloadReadsBack(ws: seq<Word>, size: nat)
    requires |ws| == 16 && FromWords(ws).EmbeddedPsize() == size
    ensures FromWords(ws).EmbeddedPayload() == EncWords(ws[..6] + ws[7..10] + ws[11..])[..Min(size, 112)]
  {
    hide EncWords, BlockPointer.EmbeddedPsize;
    var bp := FromWords(ws);
    var a, b, c, d, e := ws[..6], ws[6..7], ws[7..10], ws[10..11], ws[11..];
    assert bp.raw == EncWords(ws);
    assert ws == a + b + c + d + e;
    EncAppend(a + b + c + d, e);
    EncAppend(a + b + c, d);
    EncAppend(a + b, c);
    EncAppend(a, b);
    EncAppend(a + c, e);
    EncAppend(a, c);
    assert bp.raw[..48] == EncWords(a) && bp.raw[56..80] == EncWords(c) && bp.raw[88..] == EncWords(e);
  }

  /** Whether a pointer is a hole, a gang block, or a plain one, by its words: a hole has three empty DVAs
      and no payload; one gang mark on a copy that is there makes a gang block. */
  lemma {:induction false} PointerKinds(ws: seq<Word>)
    requires |ws| == 16
    ensures var bp := FromWords(ws);
            && (bp.IsHole() <==> !bp.Embedded() && ws[..6] == [0, 0, 0, 0, 0, 0])
            && (bp.IsGang() <==> ws[1] >= TWO_63 || ws[3] >= TWO_63 || ws[5] >= TWO_63)
  {
    hide EncWords, ParseBlkptr, BlockPointer.Embedded, Dva.Offset;
    PointerReadsBack(ws);
    GangMark(ws[0], ws[1]);
    GangMark(ws[2], ws[3]);
    GangMark(ws[4], ws[5]);
    hide Dva.Gang;
    var dvas := [Dva(ws[0], ws[1]), Dva(ws[2], ws[3]), Dva(ws[4], ws[5])];
    assert FromWords(ws).dvas == dvas;
    assert dvas[0] in dvas && dvas[1] in dvas && dvas[2] in dvas;
  }

  lemma GangMark(word0: Word, word1: Word)
    ensures Dva(word0, word1).Gang() <==> word1 >= TWO_63
  {
  }
}
