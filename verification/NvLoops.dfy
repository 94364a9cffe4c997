/** When the parser of nvlists never ends: its loop as it runs, turn by turn. */
module NvLoops {
  import opened Bytes
  import opened Xdr
  import opened Nvlist

  // ----- the loop, with a bound on the turns and calls it may nest -----

  /** Ended within the bound, with a result or an error; or still running. */
  datatype Run<+T> = Ended(outcome: Parsed<T>) | Running

  function RunValue(buf: seq<Byte>, pos: nat, dtype: int, nelem: int, fuel: nat): Run<Value>
    requires pos <= |buf|
    decreases fuel, 1
  {
    if dtype == BOOLEAN then Ended(Good(Flag, pos))
    else if nelem == 0 then Ended(Good(Absent, pos))
    else if fuel == 0 then Running
    else if dtype == NVLIST then
      (match RunBody(buf, pos, fuel - 1)
       case Ended(Good(l, p)) => Ended(Good(List(l), p))
       case Ended(_) => Ended(Error)
       case Running => Running)
    else if dtype == NVLIST_ARRAY then
      (match RunBodies(buf, pos, nelem, fuel - 1)
       case Ended(Good(ls, p)) => Ended(Good(Lists(ls), p))
       case Ended(_) => Ended(Error)
       case Running => Running)
    else Ended(ReadLeaf(buf, pos, dtype, nelem))
  }

  function RunBodies(buf: seq<Byte>, pos: nat, n: int, fuel: nat): (r: Run<seq<Nv>>)
    requires pos <= |buf|
    ensures r.Ended? && r.outcome.Good? ==> pos <= r.outcome.pos <= |buf|
    decreases fuel, 0
  {
    if n <= 0 then Ended(Good([], pos))
    else if fuel == 0 then Running
    else
      match RunBody(buf, pos, fuel - 1)
      case Ended(Good(l, p)) =>
        (match RunBodies(buf, p, n - 1, fuel - 1)
         case Ended(Good(ls, p')) => Ended(Good([l] + ls, p'))
         case Ended(_) => Ended(Error)
         case Running => Running)
      case Ended(_) => Ended(Error)
      case Running => Running
  }

  function RunBody(buf: seq<Byte>, pos: nat, fuel: nat): (r: Run<Nv>)
    requires pos <= |buf|
    ensures r.Ended? && r.outcome.Good? ==> pos <= r.outcome.pos <= |buf|
    decreases fuel, 0
  {
    if fuel == 0 then Running
    else
      match Int32(buf, pos)
      case Good(version, p) =>
        (match Unsigned(buf, p, 4)
         case Good(nvflag, p') => RunPairs(buf, p', Nv(version, nvflag, [], []), fuel - 1)
         case _ => Ended(Error))
      case _ => Ended(Error)
  }

  /** The turns of the loop, with no exception for any size: a pair is read and appended, and the
      position goes to where its encoded size says. */
  function RunPairs(buf: seq<Byte>, start: nat, acc: Nv, fuel: nat): (r: Run<Nv>)
    requires start <= |buf|
    ensures r.Ended? && r.outcome.Good? ==> start <= r.outcome.pos <= |buf|
    decreases fuel, 0
  {
    if fuel == 0 then Running
    else
      match OnePair(buf, start)
      case Failed => Ended(Error)
      case Done => Ended(Good(acc, start + 8))
      case Item(size, name, dtype, nelem, p) =>
        match RunValue(buf, p, dtype, nelem, fuel - 1)
        case Running => Running
        case Ended(Good(value, at)) =>
          RunPairs(buf, start + size, Appended(acc, name, dtype, nelem, value, at, start + size), fuel - 1)
        case Ended(_) => Ended(Error)
  }

  // ----- the parsing functions are the loop -----

  /** A run within the bound is what the parsing function says; `Endless` is never reached. */
  ghost predicate Agrees<T(!new)>(r: Run<T>, spec: Parsed<T>)
  {
    r.Running? || (r.outcome == spec && !spec.Endless?)
  }

  lemma {:induction false} ValueAgrees(buf: seq<Byte>, pos: nat, dtype: int, nelem: int, fuel: nat)
    requires pos <= |buf|
    ensures Agrees(RunValue(buf, pos, dtype, nelem, fuel), ReadValue(buf, pos, dtype, nelem))
    decreases fuel, 1
  {
    hide ReadLeaf, ParseBody, ParseBodies, RunBody, RunBodies;
    if fuel > 0 && dtype == NVLIST { BodyAgrees(buf, pos, fuel - 1); }
    if fuel > 0 && dtype == NVLIST_ARRAY { BodiesAgree(buf, pos, nelem, fuel - 1); }
  }

  lemma {:induction false} BodiesAgree(buf: seq<Byte>, pos: nat, n: int, fuel: nat)
    requires pos <= |buf|
    ensures Agrees(RunBodies(buf, pos, n, fuel), ParseBodies(buf, pos, n))
    decreases fuel, 0
  {
    hide ParseBody, RunBody;
    if n > 0 && fuel > 0 {
      BodyAgrees(buf, pos, fuel - 1);
      var first := ParseBody(buf, pos);
      if first.Good? { BodiesAgree(buf, first.pos, n - 1, fuel - 1); }
    }
  }

  lemma {:induction false} BodyAgrees(buf: seq<Byte>, pos: nat, fuel: nat)
    requires pos <= |buf|
    ensures Agrees(RunBody(buf, pos, fuel), ParseBody(buf, pos))
    decreases fuel, 0
  {
    hide ParsePairs, RunPairs, Int32, Unsigned;
    if fuel > 0 {
      var version := Int32(buf, pos);
      if version.Good? {
        var nvflag := Unsigned(buf, version.pos, 4);
        if nvflag.Good? {
          PairsAgree(buf, nvflag.pos, Nv(version.value, nvflag.value, [], []), fuel - 1);
        }
      }
    }
  }

  lemma {:induction false} PairsAgree(buf: seq<Byte>, start: nat, acc: Nv, fuel: nat)
    requires start <= |buf|
    ensures Agrees(RunPairs(buf, start, acc, fuel), ParsePairs(buf, start, acc))
    decreases fuel, 0
  {
    hide OnePair, ReadValue, RunValue;
    if fuel > 0 {
      var h := OnePair(buf, start);
      if h.Item? {
        ValueAgrees(buf, h.pos, h.dtype, h.nelem, fuel - 1);
        var v := ReadValue(buf, h.pos, h.dtype, h.nelem);
        if v.Good? {
          var more := Appended(acc, h.name, h.dtype, h.nelem, v.value, v.pos, start + h.size);
          PairsAgree(buf, start + h.size, more, fuel - 1);
        }
      }
    }
  }

  // ----- a parse that ends, ends soon -----

  lemma {:induction false} ValueEnds(buf: seq<Byte>, pos: nat, dtype: int, nelem: int, fuel: nat)
    requires pos <= |buf| && fuel >= 4 * (|buf| - pos) + 4 && !ReadValue(buf, pos, dtype, nelem).Endless?
    ensures RunValue(buf, pos, dtype, nelem, fuel).Ended?
    decreases fuel, 1
  {
    hide ReadLeaf, ParseBody, ParseBodies, RunBody, RunBodies;
    if nelem != 0 && dtype == NVLIST { BodyEnds(buf, pos, fuel - 1); }
    if nelem != 0 && dtype == NVLIST_ARRAY { BodiesEnd(buf, pos, nelem, fuel - 1); }
  }

  lemma {:induction false} BodiesEnd(buf: seq<Byte>, pos: nat, n: int, fuel: nat)
    requires pos <= |buf| && fuel >= 4 * (|buf| - pos) + 3 && !ParseBodies(buf, pos, n).Endless?
    ensures RunBodies(buf, pos, n, fuel).Ended?
    decreases fuel, 0
  {
    hide ParseBody, RunBody;
    if n > 0 {
      BodyEnds(buf, pos, fuel - 1);
      BodyAgrees(buf, pos, fuel - 1);
      var first := ParseBody(buf, pos);
      if first.Good? { BodiesEnd(buf, first.pos, n - 1, fuel - 1); }
    }
  }

  lemma {:induction false} BodyEnds(buf: seq<Byte>, pos: nat, fuel: nat)
    requires pos <= |buf| && fuel >= 4 * (|buf| - pos) + 2 && !ParseBody(buf, pos).Endless?
    ensures RunBody(buf, pos, fuel).Ended?
    decreases fuel, 0
  {
    hide ParsePairs, RunPairs, Int32, Unsigned;
    var version := Int32(buf, pos);
    if version.Good? {
      var nvflag := Unsigned(buf, version.pos, 4);
      if nvflag.Good? {
        PairsEnd(buf, nvflag.pos, Nv(version.value, nvflag.value, [], []), fuel - 1);
      }
    }
  }

  lemma {:induction false} PairsEnd(buf: seq<Byte>, start: nat, acc: Nv, fuel: nat)
    requires start <= |buf| && fuel >= 4 * (|buf| - start) + 1 && !ParsePairs(buf, start, acc).Endless?
    ensures RunPairs(buf, start, acc, fuel).Ended?
    decreases fuel, 0
  {
    hide OnePair, ReadValue, RunValue;
    var h := OnePair(buf, start);
    if h.Item? {
      ValueEnds(buf, h.pos, h.dtype, h.nelem, fuel - 1);
      ValueAgrees(buf, h.pos, h.dtype, h.nelem, fuel - 1);
      var v := ReadValue(buf, h.pos, h.dtype, h.nelem);
      if v.Good? {
        var more := Appended(acc, h.name, h.dtype, h.nelem, v.value, v.pos, start + h.size);
        PairsEnd(buf, start + h.size, more, fuel - 1);
      }
    }
  }

  /** `Endless` means that the loop, as it runs, does not end within any bound; and a parse that
      ends needs at most four nested turns and calls for each byte of the buffer. */
  lemma {:induction false} EndlessNeverEnds(buf: seq<Byte>, pos: nat)
    requires pos <= |buf|
    ensures ParseBody(buf, pos).Endless? <==> forall fuel: nat :: RunBody(buf, pos, fuel).Running?
    ensures !ParseBody(buf, pos).Endless? ==>
              RunBody(buf, pos, 4 * (|buf| - pos) + 2) == Ended(ParseBody(buf, pos))
  {
    hide ParseBody, RunBody;
    forall fuel: nat
      ensures Agrees(RunBody(buf, pos, fuel), ParseBody(buf, pos))
    {
      BodyAgrees(buf, pos, fuel);
    }
    var bound := 4 * (|buf| - pos) + 2;
    if !ParseBody(buf, pos).Endless? { BodyEnds(buf, pos, bound); }
    assert Agrees(RunBody(buf, pos, bound), ParseBody(buf, pos));
  }

  // ----- where it stalls -----

  /** At `at` stands a pair of encoded size 0 and another decoded size whose value can be read. */
  predicate Stalls(buf: seq<Byte>, at: nat)
    requires at <= |buf|
  {
    var h := OnePair(buf, at);
    h.Item? && h.size == 0 && ReadValue(buf, h.pos, h.dtype, h.nelem).Good?
  }

  lemma StallSizes(buf: seq<Byte>, at: nat)
    requires at <= |buf| && Stalls(buf, at)
    ensures Int32(buf, at) == Good(0, at + 4)
    ensures Int32(buf, at + 4).Good? && Int32(buf, at + 4).value != 0
  {
    hide Int32, Text, ReadValue;
  }

  /** The loop at `start` comes to `at`: itself, past a pair that was read, or inside a list that
      is the value of a pair. */
  ghost predicate PairsReach(buf: seq<Byte>, start: nat, at: nat)
    requires start <= |buf|
    decreases |buf| - start, 3, 0
  {
    || at == start
    || (var h := OnePair(buf, start);
        && h.Item?
        && (|| ValueReach(buf, h.pos, h.dtype, h.nelem, at)
            || (h.size > 0 && ReadValue(buf, h.pos, h.dtype, h.nelem).Good? && PairsReach(buf, start + h.size, at))))
  }

  ghost predicate ValueReach(buf: seq<Byte>, pos: nat, dtype: int, nelem: int, at: nat)
    requires pos <= |buf|
    decreases |buf| - pos, 2, 0
  {
    && dtype != BOOLEAN && nelem != 0
    && ((dtype == NVLIST && BodyReach(buf, pos, at)) || (dtype == NVLIST_ARRAY && BodiesReach(buf, pos, nelem, at)))
  }

  ghost predicate BodiesReach(buf: seq<Byte>, pos: nat, n: int, at: nat)
    requires pos <= |buf|
    decreases |buf| - pos, 1, 1
  {
    && n > 0
    && (|| BodyReach(buf, pos, at)
        || (ParseBody(buf, pos).Good? && BodiesReach(buf, ParseBody(buf, pos).pos, n - 1, at)))
  }

  /** The loop of a list starts past its version and its flags. */
  ghost predicate BodyReach(buf: seq<Byte>, pos: nat, at: nat)
    requires pos <= |buf|
    decreases |buf| - pos, 1, 0
  {
    pos + 8 <= |buf| && PairsReach(buf, pos + 8, at)
  }

  lemma {:induction false} PairsStall(buf: seq<Byte>, start: nat, acc: Nv)
    requires start <= |buf|
    ensures ParsePairs(buf, start, acc).Endless? <==>
            exists at: nat :: at <= |buf| && PairsReach(buf, start, at) && Stalls(buf, at)
    decreases |buf| - start, 3, 0
  {
    hide OnePair, ReadValue, ValueReach;
    var h := OnePair(buf, start);
    if h.Item? {
      ValueStalls(buf, h.pos, h.dtype, h.nelem);
      var v := ReadValue(buf, h.pos, h.dtype, h.nelem);
      if v.Good? {
        if h.size == 0 {
          assert PairsReach(buf, start, start) && Stalls(buf, start);
        } else {
          PairsStall(buf, start + h.size, Appended(acc, h.name, h.dtype, h.nelem, v.value, v.pos, start + h.size));
        }
      }
      if at: nat :| at <= |buf| && ValueReach(buf, h.pos, h.dtype, h.nelem, at) && Stalls(buf, at) {
        assert PairsReach(buf, start, at);
      }
    }
  }

  lemma {:induction false} ValueStalls(buf: seq<Byte>, pos: nat, dtype: int, nelem: int)
    requires pos <= |buf|
    ensures ReadValue(buf, pos, dtype, nelem).Endless? <==>
            exists at: nat :: at <= |buf| && ValueReach(buf, pos, dtype, nelem, at) && Stalls(buf, at)
    decreases |buf| - pos, 2, 0
  {
    hide ReadLeaf, ParseBody, ParseBodies, BodyReach, BodiesReach, Stalls;
    if dtype == NVLIST { BodyStalls(buf, pos); }
    if dtype == NVLIST_ARRAY { BodiesStall(buf, pos, nelem); }
  }

  lemma {:induction false} BodiesStall(buf: seq<Byte>, pos: nat, n: int)
    requires pos <= |buf|
    ensures ParseBodies(buf, pos, n).Endless? <==>
            exists at: nat :: at <= |buf| && BodiesReach(buf, pos, n, at) && Stalls(buf, at)
    decreases |buf| - pos, 1, 1
  {
    hide ParseBody, BodyReach, Stalls;
    if n > 0 {
      BodyStalls(buf, pos);
      var first := ParseBody(buf, pos);
      if first.Good? { BodiesStall(buf, first.pos, n - 1); }
    }
  }

  /** The parse never ends exactly when, at any depth, it comes to a pair that stalls it. */
  lemma {:induction false} BodyStalls(buf: seq<Byte>, pos: nat)
    requires pos <= |buf|
    ensures ParseBody(buf, pos).Endless? <==>
            exists at: nat :: at <= |buf| && BodyReach(buf, pos, at) && Stalls(buf, at)
    decreases |buf| - pos, 1, 0
  {
    hide ParsePairs, PairsReach, Stalls;
    var version := Int32(buf, pos);
    if version.Good? {
      var nvflag := Unsigned(buf, version.pos, 4);
      if nvflag.Good? {
        PairsStall(buf, pos + 8, Nv(version.value, nvflag.value, [], []));
      }
    }
  }

  /** The position after `n` turns of the loop; None when it has ended. */
  function After(buf: seq<Byte>, start: nat, n: nat): (at: Option<nat>)
    requires start <= |buf|
    ensures at.Some? ==> at.value <= |buf|
    decreases n
  {
    if n == 0 then Some(start)
    else
      var h := OnePair(buf, start);
      if h.Item? && ReadValue(buf, h.pos, h.dtype, h.nelem).Good? then After(buf, start + h.size, n - 1) else None
  }

  /** From a pair that stalls the loop, every turn leads back to it. */
  lemma {:induction false} StallsForEver(buf: seq<Byte>, at: nat, n: nat)
    requires at <= |buf| && Stalls(buf, at)
    ensures Int32(buf, at) == Good(0, at + 4)
    ensures Int32(buf, at + 4).Good? && Int32(buf, at + 4).value != 0
    ensures After(buf, at, n) == Some(at)
    decreases n
  {
    hide OnePair, ReadValue, Int32;
    StallSizes(buf, at);
    if n > 0 { StallsForEver(buf, at, n - 1); }
  }

  // ----- a buffer on which it never ends -----

  /** Header, version and flags, then the pair. */
  const ENDLESS: seq<Byte> :=
    [1, 1, 0, 0, 0, 0, 0, 0, 0, 0, 0, 0,
     0, 0, 0, 0, 0, 0, 0, 1, 0, 0, 0, 0, 0, 0, 0, 1, 0, 0, 0, 0]

  lemma {:induction false} OneStall(buf: seq<Byte>)
    requires |buf| == 32 && buf[19] == buf[27] == 1
    requires forall i :: 4 <= i < 32 && i != 19 && i != 27 ==> buf[i] == 0
    ensures ParseBody(buf, 4).Endless?
  {
    hide Int32, Unsigned, Be, OnePair, Text, ParseBody;
    Int32Of(buf, 12, 0);
    Int32Of(buf, 16, 1);
    Int32Of(buf, 20, 0);
    Int32Of(buf, 24, 1);
    Int32Of(buf, 28, 0);
    NoText(buf, 20);
    Stall(buf, 12, 1);
    assert BodyReach(buf, 4, 12);
    BodyStalls(buf, 4);
  }

  /** A boolean without a name or a value, of encoded size 0. */
  lemma {:induction false} Stall(buf: seq<Byte>, at: nat, decoded: int)
    requires at + 20 <= |buf| && decoded != 0
    requires Int32(buf, at) == Good(0, at + 4) && Int32(buf, at + 4) == Good(decoded, at + 8)
    requires Text(buf, at + 8) == Good([], at + 12)
    requires Int32(buf, at + 12) == Good(BOOLEAN, at + 16) && Int32(buf, at + 16) == Good(0, at + 20)
    ensures Stalls(buf, at)
  {
    hide Int32, Text;
    assert OnePair(buf, at) == Item(0, [], BOOLEAN, 0, at + 20);
  }

  lemma Int32Of(buf: seq<Byte>, pos: nat, v: Byte)
    requires pos + 4 <= |buf| && buf[pos] == buf[pos + 1] == buf[pos + 2] == 0 && buf[pos + 3] == v
    ensures Unsigned(buf, pos, 4) == Good(v as nat, pos + 4)
    ensures Int32(buf, pos) == Good(v as int, pos + 4)
  {
    var s: seq<Byte> := [0, 0, 0, v];
    BeZeros(3);
    assert s[..3] == Zeros(3) && Be(s) == 256 * Be(s[..3]) + v as nat;
    assert buf[pos..pos + 4] == s;
    assert Take(buf, pos, 4) == Good(s, pos + 4);
  }

  lemma {:induction false} BeZeros(n: nat)
    ensures Be(Zeros(n)) == 0
  {
    if n > 0 {
      BeZeros(n - 1);
      assert Zeros(n)[..n - 1] == Zeros(n - 1);
    }
  }

  lemma NoText(buf: seq<Byte>, pos: nat)
    requires Unsigned(buf, pos, 4) == Good(0, pos + 4)
    ensures Text(buf, pos) == Good([], pos + 4)
  {
    hide Unsigned;
  }

  /** One pair: encoded size 0, decoded size 1, an empty name, a boolean without a value. */
  lemma EndlessBuffer()
    ensures ParsePacked(ENDLESS) == Endless
    ensures forall fuel: nat :: RunBody(ENDLESS, 4, fuel).Running?
  {
    hide ParsePairs, OnePair, ReadValue;
    OneStall(ENDLESS);
    assert ParsePacked(ENDLESS) == ParseBody(ENDLESS, 4);
    EndlessNeverEnds(ENDLESS, 4);
  }
}
