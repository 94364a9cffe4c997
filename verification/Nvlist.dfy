/** nvlists in XDR: the parser, the encoding it inverts, and the round trip. */
module Nvlist {
  import opened Bytes
  import opened Codec
  import opened Xdr

  // ----- values -----

  /** How one number travels: width and sign. */
  datatype Item = U8 | I8 | I16 | S32 | U32 | S64 | U64

  datatype Value =
    | Flag
    | Absent
    | Number(v: int)
    | Real(bits: nat)
    | Str(text: seq<Byte>)
    | Raw(bytes: seq<Byte>)
    | Numbers(vs: seq<int>)
    | Strs(texts: seq<seq<Byte>>)
    | List(list: Nv)
    | Lists(lists: seq<Nv>)

  datatype Pair = Pair(name: seq<Byte>, dtype: int, nelem: int, value: Value)

  /** The parser had to move from `at` to where the encoded size said the pair ends. */
  datatype Anomaly = Anomaly(name: seq<Byte>, at: int, expected: int)

  datatype Nv = Nv(version: int, nvflag: int, pairs: seq<Pair>, anomalies: seq<Anomaly>)

  // ----- data types -----

  const BOOLEAN := 1
  const DOUBLE := 27
  const STRING := 9
  const BYTE_ARRAY := 10
  const STRING_ARRAY := 17
  const NVLIST := 19
  const NVLIST_ARRAY := 20

  /** Byte, uint8, int8, int16, uint16, int32, boolean value, uint32, int64, hrtime, uint64. */
  function ScalarItem(dtype: int): Option<Item>
  {
    if dtype in {2, 23} then Some(U8)
    else if dtype == 22 then Some(I8)
    else if dtype == 3 then Some(I16)
    else if dtype in {5, 21} then Some(S32)
    else if dtype in {4, 6} then Some(U32)
    else if dtype in {7, 18} then Some(S64)
    else if dtype == 8 then Some(U64)
    else None
  }

  function ArrayItem(dtype: int): Option<Item>
  {
    if dtype == 26 then Some(U8)
    else if dtype == 25 then Some(I8)
    else if dtype == 11 then Some(I16)
    else if dtype in {13, 24} then Some(S32)
    else if dtype in {12, 14} then Some(U32)
    else if dtype == 15 then Some(S64)
    else if dtype == 16 then Some(U64)
    else None
  }

  // ----- the parser as functions of the position -----

  function ReadItem(buf: seq<Byte>, pos: nat, item: Item): (r: Parsed<int>)
    ensures r.Good? ==> pos + 4 <= r.pos <= |buf|
    ensures !r.Endless?
  {
    if item == S64 then Int64(buf, pos)
    else if item == U64 then Unsigned(buf, pos, 8)
    else if item == U32 then Unsigned(buf, pos, 4)
    else
      match Int32(buf, pos)
      case Good(v, p) => Good(Narrow(item, v), p)
      case _ => Error
  }

  /** The low bits of a four-byte item, with the sign of its type. */
  function Narrow(item: Item, v: int): int
  {
    if item == U8 then v % 0x100
    else if item == I8 then AsSigned(v % 0x100, 0x80)
    else if item == I16 then AsSigned(v % 0x1_0000, 0x8000)
    else v
  }

  function ReadItems(buf: seq<Byte>, pos: nat, item: Item, n: nat): (r: Parsed<seq<int>>)
    ensures r.Good? ==> pos <= r.pos && (pos <= |buf| ==> r.pos <= |buf|)
    ensures !r.Endless?
    decreases n
  {
    if n == 0 then Good([], pos)
    else
      match ReadItem(buf, pos, item)
      case Good(v, p) =>
        (match ReadItems(buf, p, item, n - 1)
         case Good(vs, p') => Good([v] + vs, p')
         case _ => Error)
      case _ => Error
  }

  function ReadTexts(buf: seq<Byte>, pos: nat, n: int): (r: Parsed<seq<seq<Byte>>>)
    ensures r.Good? ==> pos <= r.pos && (pos <= |buf| ==> r.pos <= |buf|)
    ensures !r.Endless?
    decreases n
  {
    if n <= 0 then Good([], pos)
    else
      match Text(buf, pos)
      case Good(s, p) =>
        (match ReadTexts(buf, p, n - 1)
         case Good(ss, p') => Good([s] + ss, p')
         case _ => Error)
      case _ => Error
  }

  /** A typed array: its counter must repeat the number of elements. */
  function ReadArray(buf: seq<Byte>, pos: nat, item: Item, nelem: int): (r: Parsed<Value>)
    ensures !r.Endless?
  {
    match Unsigned(buf, pos, 4)
    case Good(count, p) =>
      if count != nelem then Error
      else
        (match ReadItems(buf, p, item, count)
         case Good(vs, p') => Good(Numbers(vs), p')
         case _ => Error)
    case _ => Error
  }

  /** Everything but nested lists. */
  function ReadLeaf(buf: seq<Byte>, pos: nat, dtype: int, nelem: int): (r: Parsed<Value>)
    ensures !r.Endless?
  {
    if ScalarItem(dtype).Some? then
      (match ReadItem(buf, pos, ScalarItem(dtype).value) case Good(v, p) => Good(Number(v), p) case _ => Error)
    else if dtype == DOUBLE then
      (match Unsigned(buf, pos, 8) case Good(v, p) => Good(Real(v), p) case _ => Error)
    else if dtype == STRING then
      (match Text(buf, pos) case Good(s, p) => Good(Str(s), p) case _ => Error)
    else if dtype == BYTE_ARRAY then
      (match Opaque(buf, pos, nelem) case Good(s, p) => Good(Raw(s), p) case _ => Error)
    else if ArrayItem(dtype).Some? then ReadArray(buf, pos, ArrayItem(dtype).value, nelem)
    else if dtype == STRING_ARRAY then
      (match ReadTexts(buf, pos, nelem) case Good(ss, p) => Good(Strs(ss), p) case _ => Error)
    else Error
  }

  function ReadValue(buf: seq<Byte>, pos: nat, dtype: int, nelem: int): Parsed<Value>
    requires pos <= |buf|
    decreases |buf| - pos, 2, 0
  {
    if dtype == BOOLEAN then Good(Flag, pos)
    else if nelem == 0 then Good(Absent, pos)
    else if dtype == NVLIST then
      (match ParseBody(buf, pos) case Good(l, p) => Good(List(l), p) case Error => Error case Endless => Endless)
    else if dtype == NVLIST_ARRAY then
      (match ParseBodies(buf, pos, nelem)
       case Good(ls, p) => Good(Lists(ls), p)
       case Error => Error
       case Endless => Endless)
    else ReadLeaf(buf, pos, dtype, nelem)
  }

  function ParseBodies(buf: seq<Byte>, pos: nat, n: int): (r: Parsed<seq<Nv>>)
    requires pos <= |buf|
    ensures r.Good? ==> pos <= r.pos <= |buf|
    decreases |buf| - pos, 1, 1
  {
    if n <= 0 then Good([], pos)
    else
      match ParseBody(buf, pos)
      case Good(l, p) =>
        (match ParseBodies(buf, p, n - 1)
         case Good(ls, p') => Good([l] + ls, p')
         case Error => Error
         case Endless => Endless)
      case Error => Error
      case Endless => Endless
  }

  function ParseBody(buf: seq<Byte>, pos: nat): (r: Parsed<Nv>)
    requires pos <= |buf|
    ensures r.Good? ==> pos + 16 <= r.pos <= |buf|
    decreases |buf| - pos, 1, 0
  {
    match Int32(buf, pos)
    case Good(version, p) =>
      (match Unsigned(buf, p, 4)
       case Good(nvflag, p') => ParsePairs(buf, p', Nv(version, nvflag, [], []))
       case _ => Error)
    case _ => Error
  }

  /** The pairs from `start` on, added to what has been read; an encoded size of zero with a
      decoded size leaves the position where it was, for ever. */
  function ParsePairs(buf: seq<Byte>, start: nat, acc: Nv): (r: Parsed<Nv>)
    requires start <= |buf|
    ensures r.Good? ==> start + 8 <= r.pos <= |buf|
    decreases |buf| - start, 3, 0
  {
    match OnePair(buf, start)
    case Failed => Error
    case Done => Good(acc, start + 8)
    case Item(size, name, dtype, nelem, p) =>
      match ReadValue(buf, p, dtype, nelem)
      case Error => Error
      case Endless => Endless
      case Good(value, at) =>
        var end := start + size;
        if size == 0 then Endless
        else
          ParsePairs(buf, end, Appended(acc, name, dtype, nelem, value, at, end))
  }

  /** A pair is appended, and an anomaly with it when it was not read up to its end. */
  function Appended(acc: Nv, name: seq<Byte>, dtype: int, nelem: int, value: Value, at: int, end: int): Nv
  {
    acc.(pairs := acc.pairs + [Pair(name, dtype, nelem, value)],
         anomalies := acc.anomalies + (if at == end then [] else [Anomaly(name, at, end)]))
  }

  /** The head of a pair, up to its value. */
  datatype Head = Failed | Done | Item(size: nat, name: seq<Byte>, dtype: int, nelem: int, pos: nat)

  function OnePair(buf: seq<Byte>, start: nat): (h: Head)
    requires start <= |buf|
    ensures h.Item? ==> start < h.pos <= |buf| && start + h.size <= |buf|
    ensures h.Done? ==> start + 8 <= |buf|
  {
    match Int32(buf, start)
    case Good(size, p1) =>
      (match Int32(buf, p1)
       case Good(decoded, p2) =>
         if size == 0 && decoded == 0 then Done
         else if size < 0 || start + size > |buf| then Failed
         else
           (match Text(buf, p2)
            case Good(name, p3) =>
              (match Int32(buf, p3)
               case Good(dtype, p4) =>
                 (match Int32(buf, p4)
                  case Good(nelem, p5) => Item(size, name, dtype, nelem, p5)
                  case _ => Failed)
               case _ => Failed)
            case _ => Failed)
       case _ => Failed)
    case _ => Failed
  }

  /** A whole packed nvlist: header, list, bytes consumed. */
  function ParsePacked(buf: seq<Byte>): Parsed<Nv>
  {
    if |buf| < 4 || buf[0] != 1 then Error else ParseBody(buf, 4)
  }

  // ----- the encoding -----

  function InRange(item: Item, v: int): bool
  {
    match item
    case U8 => 0 <= v < 0x100
    case I8 => -0x80 <= v < 0x80
    case I16 => -0x8000 <= v < 0x8000
    case S32 => -TWO_31 <= v < TWO_31
    case U32 => 0 <= v < TWO_32
    case S64 => -TWO_63 <= v < TWO_63
    case U64 => 0 <= v < TWO_64
  }

  /** Bytes and shorts are sign-extended to four bytes. */
  function EncItem(item: Item, v: int): (e: seq<Byte>)
    requires InRange(item, v)
    ensures |e| >= 4
  {
    if item in {S64, U64} then Enc64(v) else Enc32(if item == U8 then Signed(v, 0x80) else v)
  }

  function EncItems(item: Item, vs: seq<int>): seq<Byte>
    requires forall v :: v in vs ==> InRange(item, v)
  {
    if vs == [] then [] else EncItem(item, vs[0]) + EncItems(item, vs[1..])
  }

  function EncTexts(ss: seq<seq<Byte>>): seq<Byte>
    requires forall s :: s in ss ==> |s| < TWO_32
  {
    if ss == [] then [] else EncText(ss[0]) + EncTexts(ss[1..])
  }

  /** What a value of a type may be, nested lists aside. */
  predicate LeafFits(dtype: int, nelem: int, v: Value)
  {
    if ScalarItem(dtype).Some? then v.Number? && InRange(ScalarItem(dtype).value, v.v)
    else if dtype == DOUBLE then v.Real? && v.bits < TWO_64
    else if dtype == STRING then v.Str? && |v.text| < TWO_32
    else if dtype == BYTE_ARRAY then v.Raw? && |v.bytes| == nelem
    else if ArrayItem(dtype).Some? then
      v.Numbers? && |v.vs| == nelem && forall x :: x in v.vs ==> InRange(ArrayItem(dtype).value, x)
    else dtype == STRING_ARRAY && v.Strs? && |v.texts| == nelem && forall s :: s in v.texts ==> |s| < TWO_32
  }

  function EncLeaf(dtype: int, nelem: int, v: Value): seq<Byte>
    requires LeafFits(dtype, nelem, v) && -TWO_31 <= nelem < TWO_31
  {
    if ScalarItem(dtype).Some? then EncItem(ScalarItem(dtype).value, v.v)
    else if dtype == DOUBLE then Enc64(v.bits)
    else if dtype == STRING then EncText(v.text)
    else if dtype == BYTE_ARRAY then EncOpaque(v.bytes)
    else if ArrayItem(dtype).Some? then Enc32(nelem) + EncItems(ArrayItem(dtype).value, v.vs)
    else EncTexts(v.texts)
  }

  /** A value that its type and number of elements allow: no elements, no data. */
  predicate ValueFits(dtype: int, nelem: int, v: Value)
    decreases v
  {
    if dtype == BOOLEAN then v.Flag?
    else if nelem == 0 then v.Absent?
    else if dtype == NVLIST then v.List? && ListFits(v.list)
    else if dtype == NVLIST_ARRAY then
      v.Lists? && |v.lists| == nelem && forall i :: 0 <= i < |v.lists| ==> ListFits(v.lists[i])
    else LeafFits(dtype, nelem, v)
  }

  predicate PairFits(p: Pair)
    decreases p
  {
    && |p.name| < TWO_32 && -TWO_31 <= p.dtype < TWO_31 && -TWO_31 <= p.nelem < TWO_31
    && ValueFits(p.dtype, p.nelem, p.value)
  }

  predicate ListFits(l: Nv)
    decreases l
  {
    && -TWO_31 <= l.version < TWO_31 && 0 <= l.nvflag < TWO_32 && l.anomalies == []
    && forall i :: 0 <= i < |l.pairs| ==> PairFits(l.pairs[i])
  }

  /** The decoded size that is written in each pair: its size in memory, which the parser reads
      only to recognise the end. */
  type DecodedSize = Pair -> int

  ghost predicate Sizes(d: DecodedSize)
  {
    forall p :: -TWO_31 <= d(p) < TWO_31
  }

  ghost function EncValue(dtype: int, nelem: int, v: Value, d: DecodedSize): seq<Byte>
    requires -TWO_31 <= nelem < TWO_31 && Sizes(d) && ValueFits(dtype, nelem, v)
    decreases v
  {
    if dtype == BOOLEAN || nelem == 0 then []
    else if dtype == NVLIST then EncList(v.list, d)
    else if dtype == NVLIST_ARRAY then EncLists(v.lists, d)
    else EncLeaf(dtype, nelem, v)
  }

  ghost function EncLists(ls: seq<Nv>, d: DecodedSize): seq<Byte>
    requires Sizes(d) && forall i :: 0 <= i < |ls| ==> ListFits(ls[i])
    decreases ls
  {
    if ls == [] then [] else EncList(ls[0], d) + EncLists(ls[1..], d)
  }

  function EncHead(p: Pair): (e: seq<Byte>)
    requires PairFits(p)
    ensures |e| >= 12
  {
    EncText(p.name) + Enc32(p.dtype) + Enc32(p.nelem)
  }

  /** A pair: its encoded size, its decoded size, name, type, count, value. */
  ghost function EncPair(p: Pair, d: DecodedSize): (e: seq<Byte>)
    requires PairFits(p) && Sizes(d)
    decreases p
  {
    var tail := EncHead(p) + EncValue(p.dtype, p.nelem, p.value, d);
    BeBytes(8 + |tail|, 4) + Enc32(d(p)) + tail
  }

  ghost function EncPairs(ps: seq<Pair>, d: DecodedSize): seq<Byte>
    requires Sizes(d) && forall i :: 0 <= i < |ps| ==> PairFits(ps[i])
    decreases ps
  {
    if ps == [] then Enc32(0) + Enc32(0) else EncPair(ps[0], d) + EncPairs(ps[1..], d)
  }

  ghost function EncList(l: Nv, d: DecodedSize): seq<Byte>
    requires ListFits(l) && Sizes(d)
    decreases l
  {
    Enc32(l.version) + Enc32(l.nvflag) + EncPairs(l.pairs, d)
  }

  // ----- the round trip -----

  lemma ReadsItem(buf: seq<Byte>, pos: nat, item: Item, v: int)
    requires InRange(item, v) && Stands(buf, pos, EncItem(item, v))
    ensures ReadItem(buf, pos, item) == Good(v, pos + |EncItem(item, v)|)
  {
    if item in {S64, U64} {
      Read64(buf, pos, v);
    } else {
      Read32(buf, pos, if item == U8 then Signed(v, 0x80) else v);
      if item == U8 || item == I8 { LowBits(v, 0x80); }
      if item == I16 { LowBits(v, 0x8000); }
    }
  }

  lemma {:induction false} ReadsItems(buf: seq<Byte>, pos: nat, item: Item, vs: seq<int>)
    requires (forall v :: v in vs ==> InRange(item, v)) && Stands(buf, pos, EncItems(item, vs))
    ensures ReadItems(buf, pos, item, |vs|) == Good(vs, pos + |EncItems(item, vs)|)
    decreases |vs|
  {
    hide EncItem, ReadItem;
    if vs != [] {
      assert vs == [vs[0]] + vs[1..];
      StandsSplit(buf, pos, EncItem(item, vs[0]), EncItems(item, vs[1..]));
      ReadsItem(buf, pos, item, vs[0]);
      ReadsItems(buf, pos + |EncItem(item, vs[0])|, item, vs[1..]);
    }
  }

  lemma {:induction false} ReadsTexts(buf: seq<Byte>, pos: nat, ss: seq<seq<Byte>>)
    requires (forall s :: s in ss ==> |s| < TWO_32) && Stands(buf, pos, EncTexts(ss))
    ensures ReadTexts(buf, pos, |ss|) == Good(ss, pos + |EncTexts(ss)|)
    decreases |ss|
  {
    hide EncText, Text, Stands;
    if ss != [] {
      assert ss == [ss[0]] + ss[1..];
      StandsSplit(buf, pos, EncText(ss[0]), EncTexts(ss[1..]));
      ReadText(buf, pos, ss[0]);
      ReadsTexts(buf, pos + |EncText(ss[0])|, ss[1..]);
    }
  }

  lemma ReadsLeaf(buf: seq<Byte>, pos: nat, dtype: int, nelem: int, v: Value)
    requires LeafFits(dtype, nelem, v) && -TWO_31 <= nelem < TWO_31
    requires Stands(buf, pos, EncLeaf(dtype, nelem, v))
    ensures ReadLeaf(buf, pos, dtype, nelem) == Good(v, pos + |EncLeaf(dtype, nelem, v)|)
  {
    hide EncItem, EncItems, EncText, EncTexts, EncOpaque, ReadItem, ReadItems, Text, ReadTexts, Opaque;
    if ScalarItem(dtype).Some? {
      ReadsItem(buf, pos, ScalarItem(dtype).value, v.v);
    } else if dtype == DOUBLE {
      Read64(buf, pos, v.bits);
    } else if dtype == STRING {
      ReadText(buf, pos, v.text);
    } else if dtype == BYTE_ARRAY {
      ReadOpaque(buf, pos, v.bytes);
    } else if ArrayItem(dtype).Some? {
      var item := ArrayItem(dtype).value;
      StandsSplit(buf, pos, Enc32(nelem), EncItems(item, v.vs));
      Read32(buf, pos, nelem);
      ReadsItems(buf, pos + 4, item, v.vs);
    } else {
      ReadsTexts(buf, pos, v.texts);
    }
  }

  /** The head of an encoded pair is read as its name, type and count. */
  lemma {:induction false} ReadsHead(buf: seq<Byte>, start: nat, p: Pair, d: DecodedSize)
    requires PairFits(p) && Sizes(d)
    requires |EncPair(p, d)| < TWO_31 && Stands(buf, start, EncPair(p, d))
    ensures var at := start + 8 + |EncHead(p)|;
            && OnePair(buf, start) == Item(|EncPair(p, d)|, p.name, p.dtype, p.nelem, at)
            && Stands(buf, at, EncValue(p.dtype, p.nelem, p.value, d))
            && at + |EncValue(p.dtype, p.nelem, p.value, d)| == start + |EncPair(p, d)|
  {
    hide EncText, Text, EncValue, ValueFits, Stands, EncHead, OnePair, Int32, Enc32;
    var value := EncValue(p.dtype, p.nelem, p.value, d);
    var tail := EncHead(p) + value;
    var size := 8 + |tail|;
    assert EncPair(p, d) == Enc32(size) + Enc32(d(p)) + tail by { Be32(size); }
    StandsSplit(buf, start, Enc32(size) + Enc32(d(p)), tail);
    StandsSplit(buf, start, Enc32(size), Enc32(d(p)));
    Read32(buf, start, size);
    Read32(buf, start + 4, d(p));
    StandsSplit(buf, start + 8, EncHead(p), value);
    StandsInside(buf, start, EncPair(p, d));
    ReadsRest(buf, start, size, d(p), p);
  }

  lemma {:induction false} Be32(v: nat)
    requires v < TWO_31
    ensures BeBytes(v, 4) == Enc32(v)
  {
  }

  /** Past the two sizes: the name, the type and the count. */
  lemma {:induction false} ReadsRest(buf: seq<Byte>, start: nat, size: nat, d: int, p: Pair)
    requires PairFits(p) && Stands(buf, start + 8, EncHead(p))
    requires size > 0 && start + size <= |buf|
    requires Int32(buf, start) == Good(size, start + 4) && Int32(buf, start + 4) == Good(d, start + 8)
    ensures OnePair(buf, start) == Item(size, p.name, p.dtype, p.nelem, start + 8 + |EncHead(p)|)
  {
    hide EncText, Text, ValueFits, Stands, Int32, Enc32;
    StandsSplit(buf, start + 8, EncText(p.name) + Enc32(p.dtype), Enc32(p.nelem));
    StandsSplit(buf, start + 8, EncText(p.name), Enc32(p.dtype));
    ReadText(buf, start + 8, p.name);
    var q := start + 8 + |EncText(p.name)|;
    Read32(buf, q, p.dtype);
    Read32(buf, q + 4, p.nelem);
  }

  lemma ReadsEnd(buf: seq<Byte>, start: nat)
    requires Stands(buf, start, Enc32(0) + Enc32(0))
    ensures OnePair(buf, start) == Done
  {
    StandsSplit(buf, start, Enc32(0), Enc32(0));
    Read32(buf, start, 0);
    Read32(buf, start + 4, 0);
  }

  lemma {:induction false} ReadsPairs(buf: seq<Byte>, start: nat, ps: seq<Pair>, acc: Nv, d: DecodedSize)
    requires Sizes(d) && (forall i :: 0 <= i < |ps| ==> PairFits(ps[i]))
    requires |EncPairs(ps, d)| < TWO_31 && Stands(buf, start, EncPairs(ps, d))
    ensures ParsePairs(buf, start, acc) == Good(acc.(pairs := acc.pairs + ps), start + |EncPairs(ps, d)|)
    decreases ps
  {
    hide OnePair, EncPair, EncHead, EncValue, PairFits, ReadValue, Stands;
    if ps == [] {
      ReadsEnd(buf, start);
      assert acc.pairs + ps == acc.pairs;
    } else {
      var p, rest := ps[0], ps[1..];
      StandsSplit(buf, start, EncPair(p, d), EncPairs(rest, d));
      ReadsHead(buf, start, p, d);
      PairParts(p);
      ReadsValue(buf, start + 8 + |EncHead(p)|, p, d);
      ReadsPairs(buf, start + |EncPair(p, d)|, rest, acc.(pairs := acc.pairs + [p]), d);
      assert acc.pairs + [p] + rest == acc.pairs + ps;
      assert acc.anomalies + [] == acc.anomalies;
    }
  }

  lemma {:induction false} PairParts(p: Pair)
    requires PairFits(p)
    ensures p == Pair(p.name, p.dtype, p.nelem, p.value)
    ensures -TWO_31 <= p.nelem < TWO_31 && ValueFits(p.dtype, p.nelem, p.value)
  {
  }

  lemma {:induction false} ReadsValue(buf: seq<Byte>, pos: nat, p: Pair, d: DecodedSize)
    requires Sizes(d) && -TWO_31 <= p.nelem < TWO_31 && ValueFits(p.dtype, p.nelem, p.value)
    requires pos <= |buf| && |EncValue(p.dtype, p.nelem, p.value, d)| < TWO_31
    requires Stands(buf, pos, EncValue(p.dtype, p.nelem, p.value, d))
    ensures ReadValue(buf, pos, p.dtype, p.nelem)
         == Good(p.value, pos + |EncValue(p.dtype, p.nelem, p.value, d)|)
    decreases p
  {
    hide ReadLeaf, EncLeaf, ParseBody, ParseBodies, EncList, EncLists, ListFits;
    var v := p.value;
    if p.dtype == BOOLEAN || p.nelem == 0 {
    } else if p.dtype == NVLIST {
      ReadsList(buf, pos, v.list, d);
    } else if p.dtype == NVLIST_ARRAY {
      ReadsLists(buf, pos, v.lists, d);
    } else {
      ReadsLeaf(buf, pos, p.dtype, p.nelem, v);
    }
  }

  lemma {:induction false} ReadsLists(buf: seq<Byte>, pos: nat, ls: seq<Nv>, d: DecodedSize)
    requires Sizes(d) && (forall i :: 0 <= i < |ls| ==> ListFits(ls[i]))
    requires pos <= |buf| && |EncLists(ls, d)| < TWO_31 && Stands(buf, pos, EncLists(ls, d))
    ensures ParseBodies(buf, pos, |ls|) == Good(ls, pos + |EncLists(ls, d)|)
    decreases ls
  {
    hide ParseBody, EncList, ListFits;
    if ls != [] {
      assert ls == [ls[0]] + ls[1..];
      StandsSplit(buf, pos, EncList(ls[0], d), EncLists(ls[1..], d));
      ReadsList(buf, pos, ls[0], d);
      ReadsLists(buf, pos + |EncList(ls[0], d)|, ls[1..], d);
    }
  }

  /** Parsing an encoded list, wherever it stands, gives the list back with no anomaly, and
      stops exactly at its end. */
  lemma {:induction false} ReadsList(buf: seq<Byte>, pos: nat, l: Nv, d: DecodedSize)
    requires ListFits(l) && Sizes(d)
    requires pos <= |buf| && |EncList(l, d)| < TWO_31 && Stands(buf, pos, EncList(l, d))
    ensures ParseBody(buf, pos) == Good(l, pos + |EncList(l, d)|)
    decreases l
  {
    hide EncPairs, ParsePairs, PairFits, Enc32;
    StandsSplit(buf, pos, Enc32(l.version) + Enc32(l.nvflag), EncPairs(l.pairs, d));
    StandsSplit(buf, pos, Enc32(l.version), Enc32(l.nvflag));
    Read32(buf, pos, l.version);
    Read32(buf, pos + 4, l.nvflag);
    ReadsPairs(buf, pos + 8, l.pairs, Nv(l.version, l.nvflag, [], []), d);
    assert [] + l.pairs == l.pairs;
    assert l == Nv(l.version, l.nvflag, l.pairs, []);
  }

  /** The round trip of a packed nvlist, whatever follows it in the buffer. */
  lemma {:induction false} PackedRoundTrip(l: Nv, endian: Byte, reserved: seq<Byte>, trailer: seq<Byte>, d: DecodedSize)
    requires ListFits(l) && Sizes(d) && |EncList(l, d)| < TWO_31 && |reserved| == 2
    ensures ParsePacked([1, endian] + reserved + EncList(l, d) + trailer) == Good(l, 4 + |EncList(l, d)|)
  {
    hide EncList, ParseBody, ListFits;
    var e := EncList(l, d);
    var buf := [1, endian] + reserved + e + trailer;
    assert buf[4..4 + |e|] == e;
    ReadsList(buf, 4, l, d);
  }
}
