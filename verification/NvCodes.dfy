/** The data types of nvlists by number: what each makes of the bytes that stand in the buffer. */
module NvCodes {
  import opened Bytes
  import opened Codec
  import opened Xdr
  import opened Nvlist

  /** `v` is the number between the bounds that agrees with the word in all the low bits they span. */
  predicate Reads(w: int, low: int, high: int, v: int)
  {
    low <= v < high && (w - v) % (high - low) == 0
  }

  // ----- four bytes -----

  /** The low bits of a word do not depend on the sign that it is read with. */
  lemma LowBitsAgree(w: nat, v: int, d: int, k: int)
    requires w < 0x1_0000_0000 && d > 0 && k * d == 0x1_0000_0000 && (w - v) % d == 0
    ensures Signed(w, TWO_31) % d == v % d
  {
    var j := (w - v) / d;
    assert w == v + j * d;
    DivAddMul(v, j, d);
    Distribute(j, k, d);
    DivAddMul(v, j - k, d);
  }

  lemma NarrowByte(w: nat, v: int)
    requires w < 0x1_0000_0000 && Reads(w, 0, 0x100, v)
    ensures Narrow(U8, Signed(w, TWO_31)) == v
  {
    hide Signed;
    LowBitsAgree(w, v, 0x100, 0x100_0000);
  }

  lemma NarrowInt8(w: nat, v: int)
    requires w < 0x1_0000_0000 && Reads(w, -0x80, 0x80, v)
    ensures Narrow(I8, Signed(w, TWO_31)) == v
  {
    hide Signed;
    LowBitsAgree(w, v, 0x100, 0x100_0000);
    LowBits(v, 0x80);
  }

  lemma NarrowInt16(w: nat, v: int)
    requires w < 0x1_0000_0000 && Reads(w, -0x8000, 0x8000, v)
    ensures Narrow(I16, Signed(w, TWO_31)) == v
  {
    hide Signed;
    LowBitsAgree(w, v, 0x1_0000, 0x1_0000);
    LowBits(v, 0x8000);
  }

  lemma AllBits(v: int)
    ensures Narrow(S32, v) == v
  {
  }

  lemma SignedWord(w: nat, v: int, half: int)
    requires w < 2 * half && Reads(w, -half, half, v)
    ensures Signed(w, half) == v
  {
    var d := 2 * half;
    assert w - v == ((w - v) / d) * d;
    var j := (w - v) / d;
    if j != 0 && j != 1 {
      if j < 0 { MulMono(j, -1, d); } else { MulMono(2, j, d); }
    }
  }

  /** One item of four bytes, whatever they are. */
  lemma {:induction false} ItemByWord(buf: seq<Byte>, pos: nat, w: nat, v: int)
    requires w < 0x1_0000_0000 && Stands(buf, pos, BeBytes(w, 4))
    ensures Reads(w, 0, 0x100, v) ==> ReadItem(buf, pos, U8) == Good(v, pos + 4)
    ensures Reads(w, -0x80, 0x80, v) ==> ReadItem(buf, pos, I8) == Good(v, pos + 4)
    ensures Reads(w, -0x8000, 0x8000, v) ==> ReadItem(buf, pos, I16) == Good(v, pos + 4)
    ensures Reads(w, 0, 0x1_0000_0000, v) ==> ReadItem(buf, pos, U32) == Good(v, pos + 4)
    ensures Reads(w, -0x8000_0000, 0x8000_0000, v) ==> ReadItem(buf, pos, S32) == Good(v, pos + 4)
  {
    hide Stands, Reads, Narrow, Unsigned, BeBytes;
    assert Base256(4) == TWO_32;
    ReadUnsigned(buf, pos, w, 4);
    assert Int32(buf, pos) == Good(Signed(w, TWO_31), pos + 4);
    hide Int32;
    if Reads(w, 0, 0x100, v) { NarrowByte(w, v); }
    if Reads(w, -0x80, 0x80, v) { NarrowInt8(w, v); }
    if Reads(w, -0x8000, 0x8000, v) { NarrowInt16(w, v); }
    if Reads(w, -0x8000_0000, 0x8000_0000, v) {
      SignedWord(w, v, 0x8000_0000);
      AllBits(v);
    }
    if Reads(w, 0, 0x1_0000_0000, v) { Whole(w, v, 0x1_0000_0000); }
  }

  lemma Whole(w: nat, v: int, high: int)
    requires w < high && Reads(w, 0, high, v)
    ensures v == w
  {
    assert w - v == ((w - v) / high) * high;
    if w != v { MulAtLeast((w - v) / high, high); }
  }

  // ----- eight bytes -----

  lemma {:induction false} ItemByLongWord(buf: seq<Byte>, pos: nat, w: nat, v: int)
    requires w < 0x1_0000_0000_0000_0000 && Stands(buf, pos, BeBytes(w, 8))
    ensures Unsigned(buf, pos, 8) == ReadItem(buf, pos, U64) == Good(w, pos + 8)
    ensures Reads(w, 0, 0x1_0000_0000_0000_0000, v) ==> v == w
    ensures Reads(w, -0x8000_0000_0000_0000, 0x8000_0000_0000_0000, v) ==> ReadItem(buf, pos, S64) == Good(v, pos + 8)
  {
    hide Stands, Reads, Unsigned, BeBytes;
    assert Base256(8) == TWO_64;
    ReadUnsigned(buf, pos, w, 8);
    assert Int64(buf, pos) == Good(Signed(w, TWO_63), pos + 8);
    hide Int64;
    if Reads(w, -0x8000_0000_0000_0000, 0x8000_0000_0000_0000, v) { SignedWord(w, v, 0x8000_0000_0000_0000); }
    if Reads(w, 0, 0x1_0000_0000_0000_0000, v) { Whole(w, v, 0x1_0000_0000_0000_0000); }
  }

  // ----- one value -----

  /** A number of four bytes by its type: a byte (2, 23), int8 (22), int16 (3), uint16 and uint32 (4, 6),
      int32 and boolean value (5, 21). */
  lemma {:induction false} ScalarByCode(buf: seq<Byte>, pos: nat, nelem: int, w: nat, v: int)
    requires nelem != 0 && w < 0x1_0000_0000 && pos <= |buf| && Stands(buf, pos, BeBytes(w, 4))
    ensures Reads(w, 0, 0x100, v) ==>
              ReadValue(buf, pos, 2, nelem) == ReadValue(buf, pos, 23, nelem) == Good(Number(v), pos + 4)
    ensures Reads(w, -0x80, 0x80, v) ==> ReadValue(buf, pos, 22, nelem) == Good(Number(v), pos + 4)
    ensures Reads(w, -0x8000, 0x8000, v) ==> ReadValue(buf, pos, 3, nelem) == Good(Number(v), pos + 4)
    ensures Reads(w, 0, 0x1_0000_0000, v) ==>
              ReadValue(buf, pos, 4, nelem) == ReadValue(buf, pos, 6, nelem) == Good(Number(v), pos + 4)
    ensures Reads(w, -0x8000_0000, 0x8000_0000, v) ==>
              ReadValue(buf, pos, 5, nelem) == ReadValue(buf, pos, 21, nelem) == Good(Number(v), pos + 4)
  {
    hide Reads, ReadItem, Stands;
    ItemByWord(buf, pos, w, v);
  }

  /** A number of eight bytes: uint64 (8), int64 and hrtime (7, 18), a double (27). */
  lemma {:induction false} LongScalarByCode(buf: seq<Byte>, pos: nat, nelem: int, w: nat, v: int)
    requires nelem != 0 && w < 0x1_0000_0000_0000_0000 && pos <= |buf| && Stands(buf, pos, BeBytes(w, 8))
    ensures ReadValue(buf, pos, 8, nelem) == Good(Number(w), pos + 8)
    ensures Reads(w, -0x8000_0000_0000_0000, 0x8000_0000_0000_0000, v) ==>
              ReadValue(buf, pos, 7, nelem) == ReadValue(buf, pos, 18, nelem) == Good(Number(v), pos + 8)
    ensures ReadValue(buf, pos, 27, nelem) == Good(Real(w), pos + 8)
  {
    hide Reads, ReadItem, Stands;
    ItemByLongWord(buf, pos, w, v);
  }

  // ----- arrays -----

  /** Words one after the other, each with its highest byte first. */
  function Laid(ws: seq<nat>, width: nat): (e: seq<Byte>)
  {
    if ws == [] then [] else BeBytes(ws[0], width) + Laid(ws[1..], width)
  }

  predicate AllRead(ws: seq<nat>, low: int, high: int, vs: seq<int>)
  {
    |ws| == |vs| && forall i :: 0 <= i < |ws| ==> Reads(ws[i], low, high, vs[i])
  }

  /** Wherever a word of `ws` stands, its item is read as its value. */
  ghost predicate ItemsKnown(buf: seq<Byte>, item: Item, ws: seq<nat>, vs: seq<int>, width: nat)
  {
    && |ws| == |vs|
    && forall i, p: nat :: 0 <= i < |ws| && Stands(buf, p, BeBytes(ws[i], width)) ==>
         ReadItem(buf, p, item) == Good(vs[i], p + width)
  }

  lemma SameCount(buf: seq<Byte>, item: Item, ws: seq<nat>, vs: seq<int>, width: nat)
    requires ItemsKnown(buf, item, ws, vs, width)
    ensures |ws| == |vs|
  {
  }

  lemma {:induction false} ItemsFewer(buf: seq<Byte>, item: Item, ws: seq<nat>, vs: seq<int>, width: nat)
    requires ItemsKnown(buf, item, ws, vs, width) && ws != []
    ensures ItemsKnown(buf, item, ws[1..], vs[1..], width)
    ensures forall p: nat :: Stands(buf, p, BeBytes(ws[0], width)) ==> ReadItem(buf, p, item) == Good(vs[0], p + width)
  {
    hide ReadItem, Stands, BeBytes;
  }

  lemma {:induction false} OneMoreItem(buf: seq<Byte>, pos: nat, item: Item, n: nat, vs: seq<int>, p: nat, p': int)
    requires vs != [] && ReadItem(buf, pos, item) == Good(vs[0], p)
    requires ReadItems(buf, p, item, n) == Good(vs[1..], p')
    ensures ReadItems(buf, pos, item, n + 1) == Good(vs, p')
  {
    hide ReadItem;
    assert vs == [vs[0]] + vs[1..];
  }

  lemma {:induction false} ItemsByWord(buf: seq<Byte>, pos: nat, item: Item, ws: seq<nat>, vs: seq<int>, width: nat)
    requires ItemsKnown(buf, item, ws, vs, width) && Stands(buf, pos, Laid(ws, width))
    ensures ReadItems(buf, pos, item, |ws|) == Good(vs, pos + |Laid(ws, width)|)
    decreases |ws|
  {
    hide ReadItem, Stands, ItemsKnown, BeBytes;
    SameCount(buf, item, ws, vs, width);
    if ws != [] {
      var rest := Laid(ws[1..], width);
      assert Laid(ws, width) == BeBytes(ws[0], width) + rest;
      hide Laid, ReadItems;
      StandsSplit(buf, pos, BeBytes(ws[0], width), rest);
      ItemsFewer(buf, item, ws, vs, width);
      ItemsByWord(buf, pos + width, item, ws[1..], vs[1..], width);
      OneMoreItem(buf, pos, item, |ws| - 1, vs, pos + width, pos + width + |rest|);
    }
  }

  lemma {:induction false} ArrayRead(buf: seq<Byte>, pos: nat, item: Item, ws: seq<nat>, vs: seq<int>, width: nat)
    requires 0 < |ws| < 0x1_0000_0000 && ItemsKnown(buf, item, ws, vs, width)
    requires Stands(buf, pos, BeBytes(|ws|, 4) + Laid(ws, width))
    ensures ReadArray(buf, pos, item, |ws|) == Good(Numbers(vs), pos + 4 + |Laid(ws, width)|)
  {
    hide ReadItem, ReadItems, Stands, ItemsKnown, Laid, Unsigned;
    assert Base256(4) == TWO_32;
    StandsSplit(buf, pos, BeBytes(|ws|, 4), Laid(ws, width));
    ReadUnsigned(buf, pos, |ws|, 4);
    ItemsByWord(buf, pos + 4, item, ws, vs, width);
  }

  lemma NumbersKnown(buf: seq<Byte>, ws: seq<nat>, vs: seq<int>)
    requires |ws| == |vs| && forall w :: w in ws ==> w < 0x1_0000_0000
    ensures AllRead(ws, 0, 0x100, vs) ==> ItemsKnown(buf, U8, ws, vs, 4)
    ensures AllRead(ws, -0x80, 0x80, vs) ==> ItemsKnown(buf, I8, ws, vs, 4)
    ensures AllRead(ws, -0x8000, 0x8000, vs) ==> ItemsKnown(buf, I16, ws, vs, 4)
    ensures AllRead(ws, 0, 0x1_0000_0000, vs) ==> ItemsKnown(buf, U32, ws, vs, 4)
    ensures AllRead(ws, -0x8000_0000, 0x8000_0000, vs) ==> ItemsKnown(buf, S32, ws, vs, 4)
  {
    hide Reads, ReadItem, Stands, BeBytes;
    forall i, p: nat | 0 <= i < |ws| && Stands(buf, p, BeBytes(ws[i], 4))
      ensures Reads(ws[i], 0, 0x100, vs[i]) ==> ReadItem(buf, p, U8) == Good(vs[i], p + 4)
      ensures Reads(ws[i], -0x80, 0x80, vs[i]) ==> ReadItem(buf, p, I8) == Good(vs[i], p + 4)
      ensures Reads(ws[i], -0x8000, 0x8000, vs[i]) ==> ReadItem(buf, p, I16) == Good(vs[i], p + 4)
      ensures Reads(ws[i], 0, 0x1_0000_0000, vs[i]) ==> ReadItem(buf, p, U32) == Good(vs[i], p + 4)
      ensures Reads(ws[i], -0x8000_0000, 0x8000_0000, vs[i]) ==> ReadItem(buf, p, S32) == Good(vs[i], p + 4)
    {
      assert ws[i] in ws;
      ItemByWord(buf, p, ws[i], vs[i]);
    }
  }

  lemma LongNumbersKnown(buf: seq<Byte>, ws: seq<nat>, vs: seq<int>)
    requires |ws| == |vs| && forall w :: w in ws ==> w < 0x1_0000_0000_0000_0000
    ensures ItemsKnown(buf, U64, ws, ws, 8)
    ensures AllRead(ws, -0x8000_0000_0000_0000, 0x8000_0000_0000_0000, vs) ==> ItemsKnown(buf, S64, ws, vs, 8)
  {
    hide Reads, ReadItem, Stands, BeBytes, Unsigned;
    forall i, p: nat | 0 <= i < |ws| && Stands(buf, p, BeBytes(ws[i], 8))
      ensures ReadItem(buf, p, U64) == Good(ws[i], p + 8)
      ensures Reads(ws[i], -0x8000_0000_0000_0000, 0x8000_0000_0000_0000, vs[i]) ==>
                ReadItem(buf, p, S64) == Good(vs[i], p + 8)
    {
      assert ws[i] in ws;
      ItemByLongWord(buf, p, ws[i], vs[i]);
    }
  }

  /** An array of numbers of four bytes by its type, its counter first: uint8 (26), int8 (25), int16 (11),
      uint16 and uint32 (12, 14), int32 and boolean (13, 24). */
  lemma {:induction false} ArrayByCode(buf: seq<Byte>, pos: nat, ws: seq<nat>, vs: seq<int>)
    requires 0 < |ws| == |vs| < 0x1_0000_0000 && forall w :: w in ws ==> w < 0x1_0000_0000
    requires pos <= |buf| && Stands(buf, pos, BeBytes(|ws|, 4) + Laid(ws, 4))
    ensures var r := Good(Numbers(vs), pos + 4 + |Laid(ws, 4)|);
            && (AllRead(ws, 0, 0x100, vs) ==> ReadValue(buf, pos, 26, |ws|) == r)
            && (AllRead(ws, -0x80, 0x80, vs) ==> ReadValue(buf, pos, 25, |ws|) == r)
            && (AllRead(ws, -0x8000, 0x8000, vs) ==> ReadValue(buf, pos, 11, |ws|) == r)
            && (AllRead(ws, 0, 0x1_0000_0000, vs) ==>
                  ReadValue(buf, pos, 12, |ws|) == ReadValue(buf, pos, 14, |ws|) == r)
            && (AllRead(ws, -0x8000_0000, 0x8000_0000, vs) ==>
                  ReadValue(buf, pos, 13, |ws|) == ReadValue(buf, pos, 24, |ws|) == r)
  {
    hide AllRead, ItemsKnown, ReadArray, Stands, BeBytes, Laid, ReadItem, ReadTexts, ParseBody, ParseBodies,
         Unsigned, Text, Opaque;
    NumbersKnown(buf, ws, vs);
    forall item | ItemsKnown(buf, item, ws, vs, 4)
      ensures ReadArray(buf, pos, item, |ws|) == Good(Numbers(vs), pos + 4 + |Laid(ws, 4)|)
    {
      ArrayRead(buf, pos, item, ws, vs, 4);
    }
  }

  /** An array of numbers of eight bytes: uint64 (16), int64 (15). */
  lemma {:induction false} LongArrayByCode(buf: seq<Byte>, pos: nat, ws: seq<nat>, vs: seq<int>)
    requires 0 < |ws| == |vs| < 0x1_0000_0000 && forall w :: w in ws ==> w < 0x1_0000_0000_0000_0000
    requires pos <= |buf| && Stands(buf, pos, BeBytes(|ws|, 4) + Laid(ws, 8))
    ensures ReadValue(buf, pos, 16, |ws|) == Good(Numbers(ws), pos + 4 + |Laid(ws, 8)|)
    ensures AllRead(ws, -0x8000_0000_0000_0000, 0x8000_0000_0000_0000, vs) ==>
              ReadValue(buf, pos, 15, |ws|) == Good(Numbers(vs), pos + 4 + |Laid(ws, 8)|)
  {
    hide AllRead, ItemsKnown, ReadArray, Stands, BeBytes, Laid;
    LongNumbersKnown(buf, ws, vs);
    ArrayRead(buf, pos, U64, ws, ws, 8);
    if ItemsKnown(buf, S64, ws, vs, 8) { ArrayRead(buf, pos, S64, ws, vs, 8); }
  }

  /** The counter of an array must be the number of elements of its pair. */
  lemma {:induction false} CounterMustAgree(buf: seq<Byte>, pos: nat, dtype: int, nelem: int, count: nat)
    requires dtype in {11, 12, 13, 14, 15, 16, 24, 25, 26} && nelem != 0 && count < 0x1_0000_0000
    requires pos <= |buf| && Stands(buf, pos, BeBytes(count, 4)) && count != nelem
    ensures ReadValue(buf, pos, dtype, nelem) == Error
  {
    hide Unsigned, Stands, ReadItem, ReadItems, Text, Opaque, ReadTexts, ParseBody, ParseBodies, BeBytes;
    assert Base256(4) == TWO_32;
    ReadUnsigned(buf, pos, count, 4);
  }

  lemma {:induction false} LaidSize(ws: seq<nat>, width: nat)
    ensures |Laid(ws, width)| == |ws| * width
  {
    if ws != [] {
      LaidSize(ws[1..], width);
      Distribute(1, |ws| - 1, width);
    }
  }

  // ----- the other types -----

  /** A string (9), and bytes without a counter (10). */
  lemma {:induction false} TextByCode(buf: seq<Byte>, pos: nat, nelem: int, text: seq<Byte>)
    requires pos <= |buf| && |text| < 0x1_0000_0000
    ensures nelem != 0 && Stands(buf, pos, EncText(text)) ==>
              ReadValue(buf, pos, 9, nelem) == Good(Str(text), pos + 4 + RoundUp4(|text|))
    ensures text != [] && Stands(buf, pos, EncOpaque(text)) ==>
              ReadValue(buf, pos, 10, |text|) == Good(Raw(text), pos + RoundUp4(|text|))
  {
    hide Stands, EncText, EncOpaque, Text, Opaque, ReadItem, ReadArray, ReadTexts, ParseBody, ParseBodies;
    if Stands(buf, pos, EncText(text)) { ReadText(buf, pos, text); }
    if Stands(buf, pos, EncOpaque(text)) { ReadOpaque(buf, pos, text); }
  }

  /** Strings one after the other, without a counter (17). */
  lemma {:induction false} TextsByCode(buf: seq<Byte>, pos: nat, texts: seq<seq<Byte>>)
    requires pos <= |buf| && texts != [] && forall s :: s in texts ==> |s| < 0x1_0000_0000
    requires Stands(buf, pos, EncTexts(texts))
    ensures ReadValue(buf, pos, 17, |texts|) == Good(Strs(texts), pos + |EncTexts(texts)|)
  {
    hide Stands, EncTexts, Text, Opaque, ReadItem, ReadArray, ReadTexts, ParseBody, ParseBodies;
    ReadsTexts(buf, pos, texts);
  }

  /** A flag has no data whatever its count (1), any other pair of no elements has no value, and a type
      that the program does not know is an error. */
  lemma {:induction false} NothingToRead(buf: seq<Byte>, pos: nat, nelem: int, dtype: int)
    requires pos <= |buf|
    ensures ReadValue(buf, pos, 1, nelem) == Good(Flag, pos)
    ensures dtype != 1 ==> ReadValue(buf, pos, dtype, 0) == Good(Absent, pos)
    ensures nelem != 0 && !(1 <= dtype <= 27) ==> ReadValue(buf, pos, dtype, nelem) == Error
  {
    hide Text, Opaque, ReadItem, ReadArray, ReadTexts, ParseBody, ParseBodies, Unsigned;
  }

  /** One nested list (19), and an array of them (20). */
  lemma {:induction false} NestedByCode(buf: seq<Byte>, pos: nat, nelem: int, l: Nv, ls: seq<Nv>, d: DecodedSize)
    requires pos <= |buf| && Sizes(d) && ListFits(l) && (forall i :: 0 <= i < |ls| ==> ListFits(ls[i]))
    requires |EncList(l, d)| < 0x8000_0000 && |EncLists(ls, d)| < 0x8000_0000
    ensures nelem != 0 && Stands(buf, pos, EncList(l, d)) ==>
              ReadValue(buf, pos, 19, nelem) == Good(List(l), pos + |EncList(l, d)|)
    ensures ls != [] && Stands(buf, pos, EncLists(ls, d)) ==>
              ReadValue(buf, pos, 20, |ls|) == Good(Lists(ls), pos + |EncLists(ls, d)|)
  {
    hide Stands, EncList, EncLists, ParseBody, ParseBodies, ListFits;
    if Stands(buf, pos, EncList(l, d)) { ReadsList(buf, pos, l, d); }
    if Stands(buf, pos, EncLists(ls, d)) { ReadsLists(buf, pos, ls, d); }
  }

  // ----- pairs and the buffer -----

  /** The parser trusts the encoded size of a pair: it goes on where that says the pair ends, and notes an
      anomaly, with the place it had come to, exactly when that is somewhere else. */
  lemma {:induction false} Resyncs(buf: seq<Byte>, start: nat, size: nat, p: Pair, d: DecodedSize, acc: Nv)
    requires PairFits(p) && Sizes(d) && 0 < size < 0x8000_0000 && start + size <= |buf|
    requires |EncValue(p.dtype, p.nelem, p.value, d)| < 0x8000_0000
    requires var tail := EncHead(p) + EncValue(p.dtype, p.nelem, p.value, d);
             Stands(buf, start, BeBytes(size, 4) + Enc32(d(p)) + tail)
    ensures var at := start + 8 + |EncHead(p)| + |EncValue(p.dtype, p.nelem, p.value, d)|;
            ParsePairs(buf, start, acc)
            == ParsePairs(buf, start + size,
                          acc.(pairs := acc.pairs + [p],
                               anomalies := acc.anomalies
                                            + (if at == start + size then [] else [Anomaly(p.name, at, start + size)])))
  {
    hide EncText, Text, EncValue, ValueFits, Stands, EncHead, OnePair, Int32, Enc32, ReadValue;
    var head, value := EncHead(p), EncValue(p.dtype, p.nelem, p.value, d);
    assert BeBytes(size, 4) == Enc32(size) by { Be32(size); }
    StandsSplit(buf, start, Enc32(size) + Enc32(d(p)), head + value);
    StandsSplit(buf, start, Enc32(size), Enc32(d(p)));
    Read32(buf, start, size);
    Read32(buf, start + 4, d(p));
    StandsSplit(buf, start + 8, head, value);
    ReadsRest(buf, start, size, d(p), p);
    PairParts(p);
    ReadsValue(buf, start + 8 + |head|, p, d);
  }

  /** Only a buffer that says XDR is read. */
  lemma OnlyXdr(buf: seq<Byte>)
    ensures ParsePacked(buf) != Error ==> |buf| >= 4 && buf[0] == 1
  {
    hide ParseBody;
  }
}
