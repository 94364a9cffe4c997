/** The parser as the program runs it: a reader that moves its position through a buffer. */
module NvReader {
  import opened Bytes
  import opened Xdr
  import opened Nvlist

  /** What a call returns: a value, an `NvlistError`, or never. */
  datatype Outcome<+T> = Got(value: T) | Raised | Loops

  /** The call did what the parsing function says: same value, same new position. */
  predicate Did<T(==)>(spec: Parsed<T>, r: Outcome<T>, pos: int)
  {
    match spec
    case Good(v, p) => r == Got(v) && pos == p
    case Error => r.Raised?
    case Endless => r.Loops?
  }

  /** A list whose first elements `xs` are already there. */
  function Prepend<T>(xs: seq<T>, r: Parsed<seq<T>>): Parsed<seq<T>>
  {
    match r
    case Good(rest, p) => Good(xs + rest, p)
    case Error => Error
    case Endless => Endless
  }

  lemma PrependLaws<T>(xs: seq<T>, x: T, r: Parsed<seq<T>>)
    ensures Prepend([], r) == r
    ensures Prepend(xs, Prepend([x], r)) == Prepend(xs + [x], r)
  {
    if r.Good? {
      assert [] + r.value == r.value;
      assert xs + ([x] + r.value) == xs + [x] + r.value;
    }
  }

  lemma PrependNothing<T>(xs: seq<T>, p: int)
    ensures Prepend(xs, Good([], p)) == Good(xs, p)
  {
    assert xs + [] == xs;
  }

  class XdrReader {
    const buf: seq<Byte>
    var pos: int

    constructor (buf: seq<Byte>, pos: int)
      ensures this.buf == buf && this.pos == pos
    {
      this.buf := buf;
      this.pos := pos;
    }

    method TakeBytes(n: int) returns (r: Outcome<seq<Byte>>)
      modifies this
      ensures Did(Take(buf, old(pos), n), r, pos)
    {
      if pos + n > |buf| { return Raised; }
      r := Got(PySlice(buf, pos, pos + n));
      pos := pos + n;
    }

    method ReadUnsigned(n: nat) returns (r: Outcome<nat>)
      requires pos >= 0
      modifies this
      ensures Did(Unsigned(buf, old(pos), n), r, pos)
    {
      var s := TakeBytes(n);
      r := if s.Got? then Got(Be(s.value)) else Raised;
    }

    method ReadInt32() returns (r: Outcome<int>)
      requires pos >= 0
      modifies this
      ensures Did(Int32(buf, old(pos)), r, pos)
    {
      var v := ReadUnsigned(4);
      r := if v.Got? then Got(Signed(v.value, TWO_31)) else Raised;
    }

    method ReadInt64() returns (r: Outcome<int>)
      requires pos >= 0
      modifies this
      ensures Did(Int64(buf, old(pos)), r, pos)
    {
      var v := ReadUnsigned(8);
      r := if v.Got? then Got(Signed(v.value, TWO_63)) else Raised;
    }

    method ReadBytes(n: int) returns (r: Outcome<seq<Byte>>)
      requires pos >= 0
      modifies this
      ensures Did(Opaque(buf, old(pos), n), r, pos)
    {
      var s := TakeBytes(RoundUp4(n));
      r := if s.Got? then Got(PySlice(s.value, 0, n)) else Raised;
    }

    method ReadString() returns (r: Outcome<seq<Byte>>)
      requires pos >= 0
      modifies this
      ensures Did(Text(buf, old(pos)), r, pos)
    {
      var n := ReadUnsigned(4);
      if !n.Got? { return Raised; }
      r := ReadBytes(n.value);
    }

    method ReadNumber(item: Item) returns (r: Outcome<int>)
      requires pos >= 0
      modifies this
      ensures Did(ReadItem(buf, old(pos), item), r, pos)
    {
      if item == S64 {
        r := ReadInt64();
      } else if item == U64 {
        r := ReadUnsigned(8);
      } else if item == U32 {
        r := ReadUnsigned(4);
      } else {
        var v := ReadInt32();
        r := if v.Got? then Got(Narrow(item, v.value)) else Raised;
      }
    }

    method ReadNumbers(item: Item, n: nat) returns (r: Outcome<seq<int>>)
      requires pos >= 0
      modifies this
      ensures Did(ReadItems(buf, old(pos), item, n), r, pos)
    {
      hide ReadItem;
      var vs: seq<int> := [];
      var i := 0;
      PrependLaws(vs, 0, ReadItems(buf, pos, item, n));
      while i < n
        invariant 0 <= i <= n && pos >= 0
        invariant ReadItems(buf, old(pos), item, n) == Prepend(vs, ReadItems(buf, pos, item, n - i))
      {
        var v := ReadNumber(item);
        if !v.Got? { return Raised; }
        PrependLaws(vs, v.value, ReadItems(buf, pos, item, n - i - 1));
        vs := vs + [v.value];
        i := i + 1;
      }
      PrependNothing(vs, pos);
      r := Got(vs);
    }

    method ReadStrings(n: int) returns (r: Outcome<seq<seq<Byte>>>)
      requires pos >= 0
      modifies this
      ensures Did(ReadTexts(buf, old(pos), n), r, pos)
    {
      hide Text;
      var ss: seq<seq<Byte>> := [];
      var i := 0;
      PrependLaws(ss, [], ReadTexts(buf, pos, n));
      while i < n
        invariant 0 <= i && (n >= 0 ==> i <= n) && pos >= 0
        invariant ReadTexts(buf, old(pos), n) == Prepend(ss, ReadTexts(buf, pos, n - i))
      {
        var s := ReadString();
        if !s.Got? { return Raised; }
        PrependLaws(ss, s.value, ReadTexts(buf, pos, n - i - 1));
        ss := ss + [s.value];
        i := i + 1;
      }
      PrependNothing(ss, pos);
      r := Got(ss);
    }

    method ReadPlain(dtype: int, nelem: int) returns (r: Outcome<Value>)
      requires pos >= 0
      modifies this
      ensures Did(ReadLeaf(buf, old(pos), dtype, nelem), r, pos)
    {
      hide ReadItem, ReadItems, ReadTexts, Text, Opaque;
      if ScalarItem(dtype).Some? {
        var v := ReadNumber(ScalarItem(dtype).value);
        r := if v.Got? then Got(Number(v.value)) else Raised;
      } else if dtype == DOUBLE {
        var v := ReadUnsigned(8);
        r := if v.Got? then Got(Real(v.value)) else Raised;
      } else if dtype == STRING {
        var s := ReadString();
        r := if s.Got? then Got(Str(s.value)) else Raised;
      } else if dtype == BYTE_ARRAY {
        var s := ReadBytes(nelem);
        r := if s.Got? then Got(Raw(s.value)) else Raised;
      } else if ArrayItem(dtype).Some? {
        var count := ReadUnsigned(4);
        if !count.Got? || count.value != nelem { return Raised; }
        var vs := ReadNumbers(ArrayItem(dtype).value, count.value);
        r := if vs.Got? then Got(Numbers(vs.value)) else Raised;
      } else if dtype == STRING_ARRAY {
        var ss := ReadStrings(nelem);
        r := if ss.Got? then Got(Strs(ss.value)) else Raised;
      } else {
        r := Raised;
      }
    }

    /** `_read_value` */
    method ReadAny(dtype: int, nelem: int) returns (r: Outcome<Value>)
      requires 0 <= pos <= |buf|
      modifies this
      ensures Did(ReadValue(buf, old(pos), dtype, nelem), r, pos)
      decreases |buf| - pos, 2, 0
    {
      hide ReadLeaf;
      if dtype == BOOLEAN { return Got(Flag); }
      if nelem == 0 { return Got(Absent); }
      if dtype == NVLIST {
        var l := ReadNvlist();
        match l {
          case Got(v) => r := Got(List(v));
          case Raised => r := Raised;
          case Loops => r := Loops;
        }
      } else if dtype == NVLIST_ARRAY {
        var ls := ReadNvlists(nelem);
        match ls {
          case Got(v) => r := Got(Lists(v));
          case Raised => r := Raised;
          case Loops => r := Loops;
        }
      } else {
        r := ReadPlain(dtype, nelem);
      }
    }

    method ReadNvlists(n: int) returns (r: Outcome<seq<Nv>>)
      requires 0 <= pos <= |buf|
      modifies this
      ensures Did(ParseBodies(buf, old(pos), n), r, pos)
      decreases |buf| - pos, 1, 1
    {
      hide ParseBody;
      var ls: seq<Nv> := [];
      var i := 0;
      PrependLaws(ls, Nv(0, 0, [], []), ParseBodies(buf, pos, n));
      while i < n
        invariant 0 <= i && (n >= 0 ==> i <= n) && old(pos) <= pos <= |buf|
        invariant ParseBodies(buf, old(pos), n) == Prepend(ls, ParseBodies(buf, pos, n - i))
      {
        var l := ReadNvlist();
        if l.Raised? { return Raised; }
        if l.Loops? { return Loops; }
        PrependLaws(ls, l.value, ParseBodies(buf, pos, n - i - 1));
        ls := ls + [l.value];
        i := i + 1;
      }
      PrependNothing(ls, pos);
      r := Got(ls);
    }

    /** The head of a pair, as far as its value. */
    method ReadHead() returns (h: Head)
      requires 0 <= pos <= |buf|
      modifies this
      ensures h == OnePair(buf, old(pos))
      ensures h.Item? ==> pos == h.pos
      ensures h.Done? ==> pos == old(pos) + 8
    {
      hide Text;
      var start := pos;
      var size := ReadInt32();
      if !size.Got? { return Failed; }
      var decoded := ReadInt32();
      if !decoded.Got? { return Failed; }
      if size.value == 0 && decoded.value == 0 { return Done; }
      if size.value < 0 || start + size.value > |buf| { return Failed; }
      var name := ReadString();
      if !name.Got? { return Failed; }
      var dtype := ReadInt32();
      if !dtype.Got? { return Failed; }
      var nelem := ReadInt32();
      if !nelem.Got? { return Failed; }
      h := Item(size.value, name.value, dtype.value, nelem.value, pos);
    }

    /** `_parse_body`: pairs until the end marker, trusting the encoded size of each. A pair of size 0
        that was read leaves the position at its start, and every turn from there does the same
        (`NvLoops.StallsForEver`): the method says so instead of going round. */
    method ReadNvlist() returns (r: Outcome<Nv>)
      requires 0 <= pos <= |buf|
      modifies this
      ensures Did(ParseBody(buf, old(pos)), r, pos)
      decreases |buf| - pos, 1, 0
    {
      hide OnePair, ReadValue;
      var version := ReadInt32();
      if !version.Got? { return Raised; }
      var nvflag := ReadUnsigned(4);
      if !nvflag.Got? { return Raised; }
      var nvl := Nv(version.value, nvflag.value, [], []);
      while true
        invariant old(pos) + 8 <= pos <= |buf|
        invariant ParsePairs(buf, pos, nvl) == ParseBody(buf, old(pos))
        decreases |buf| - pos
      {
        var start := pos;
        var h := ReadHead();
        match h {
          case Failed => return Raised;
          case Done => return Got(nvl);
          case Item(size, name, dtype, nelem, _) =>
            var value := ReadAny(dtype, nelem);
            if value.Raised? { return Raised; }
            if value.Loops? || size == 0 { return Loops; }
            var end := start + size;
            nvl := nvl.(pairs := nvl.pairs + [Pair(name, dtype, nelem, value.value)]);
            if pos != end {
              nvl := nvl.(anomalies := nvl.anomalies + [Anomaly(name, pos, end)]);
              pos := end;
            } else {
              assert nvl.anomalies + [] == nvl.anomalies;
            }
        }
      }
    }
  }

  /** `parse_packed_nvlist`: the list and the number of bytes consumed. */
  method ParsePackedNvlist(buf: seq<Byte>) returns (r: Outcome<Nv>, consumed: int)
    ensures Did(ParsePacked(buf), r, consumed)
  {
    consumed := 0;
    if |buf| < 4 { return Raised, 0; }
    if buf[0] != 1 { return Raised, 0; }
    var reader := new XdrReader(buf, 4);
    r := reader.ReadNvlist();
    consumed := reader.pos;
  }
}
