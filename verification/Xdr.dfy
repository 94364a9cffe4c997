/** XDR: big-endian items of four-byte multiples, read from a buffer (RFC 4506). */
module Xdr {
  import opened Bytes
  import opened Codec

  /** A reading: a value and the position after it, an `NvlistError`, or no end: the position
      stops moving and the program loops for ever. */
  datatype Parsed<+T> = Good(value: T, pos: int) | Error | Endless

  function RoundUp4(n: int): (r: int)
    ensures n <= r < n + 4 && r % 4 == 0
  {
    ((n + 3) / 4) * 4
  }

  /** Two's complement. */
  function Signed(v: int, half: int): int { if v < half then v else v - 2 * half }

  /** `_as_signed`: the low bits of `v` as a signed number; `half` is 1 << (bits - 1). */
  function AsSigned(v: int, half: int): int
    requires half > 0
  {
    v % half - (if (v / half) % 2 == 1 then half else 0)
  }

  /** A bound of a Python slice, counted from the end when negative. */
  function Bound(n: nat, i: int): (b: nat)
    ensures b <= n
  {
    if i < 0 then Max(0, n + i) else Min(i, n)
  }

  /** buf[a:b] as Python takes it. */
  function PySlice(buf: seq<Byte>, a: int, b: int): seq<Byte>
  {
    var i, j := Bound(|buf|, a), Bound(|buf|, b);
    if i < j then buf[i..j] else []
  }

  function Take(buf: seq<Byte>, pos: int, n: int): (r: Parsed<seq<Byte>>)
    ensures r.Good? ==> r.pos == pos + n <= |buf|
    ensures r.Good? && pos >= 0 && n >= 0 ==> r.value == buf[pos..pos + n]
    ensures !r.Endless?
  {
    if pos + n > |buf| then Error else Good(PySlice(buf, pos, pos + n), pos + n)
  }

  /** An unsigned item of `n` bytes. */
  function Unsigned(buf: seq<Byte>, pos: nat, n: nat): (r: Parsed<nat>)
    ensures r.Good? ==> r.pos == pos + n <= |buf| && r.value < Base256(n)
    ensures !r.Endless?
  {
    match Take(buf, pos, n)
    case Good(s, p) => Good(Be(s), p)
    case _ => Error
  }

  function Int32(buf: seq<Byte>, pos: nat): (r: Parsed<int>)
    ensures r.Good? ==> r.pos == pos + 4 <= |buf| && -TWO_31 <= r.value < TWO_31
    ensures !r.Endless?
  {
    assert Base256(4) == TWO_32;
    match Unsigned(buf, pos, 4)
    case Good(v, p) => Good(Signed(v, TWO_31), p)
    case _ => Error
  }

  function Int64(buf: seq<Byte>, pos: nat): (r: Parsed<int>)
    ensures r.Good? ==> r.pos == pos + 8 <= |buf|
    ensures !r.Endless?
  {
    match Unsigned(buf, pos, 8)
    case Good(v, p) => Good(Signed(v, TWO_63), p)
    case _ => Error
  }

  function Opaque(buf: seq<Byte>, pos: nat, n: int): (r: Parsed<seq<Byte>>)
    ensures r.Good? ==> r.pos == pos + RoundUp4(n) <= |buf|
    ensures !r.Endless?
  {
    match Take(buf, pos, RoundUp4(n))
    case Good(s, p) => Good(PySlice(s, 0, n), p)
    case _ => Error
  }

  function Text(buf: seq<Byte>, pos: nat): (r: Parsed<seq<Byte>>)
    ensures r.Good? ==> pos + 4 <= r.pos <= |buf|
    ensures !r.Endless?
  {
    match Unsigned(buf, pos, 4)
    case Good(n, p) => Opaque(buf, p, n)
    case _ => Error
  }

  // ----- the encodings -----

  function Enc32(v: int): (e: seq<Byte>)
    requires -TWO_31 <= v < TWO_32
    ensures |e| == 4
  {
    BeBytes(if v < 0 then v + TWO_32 else v, 4)
  }

  function Enc64(v: int): (e: seq<Byte>)
    requires -TWO_63 <= v < TWO_64
    ensures |e| == 8
  {
    BeBytes(if v < 0 then v + TWO_64 else v, 8)
  }

  function EncOpaque(s: seq<Byte>): (e: seq<Byte>)
    ensures |e| == RoundUp4(|s|)
  {
    s + Zeros(RoundUp4(|s|) - |s|)
  }

  function EncText(s: seq<Byte>): (e: seq<Byte>)
    requires |s| < TWO_32
    ensures |e| == 4 + RoundUp4(|s|)
  {
    Enc32(|s|) + EncOpaque(s)
  }

  // ----- each reading undoes its encoding -----

  lemma {:induction false} ReadUnsigned(buf: seq<Byte>, pos: nat, v: nat, n: nat)
    requires v < Base256(n) && Stands(buf, pos, BeBytes(v, n))
    ensures Unsigned(buf, pos, n) == Good(v, pos + n)
  {
    BeRoundTrip(v, n);
  }

  lemma Read32(buf: seq<Byte>, pos: nat, v: int)
    requires -TWO_31 <= v < TWO_32 && Stands(buf, pos, Enc32(v))
    ensures v >= 0 ==> Unsigned(buf, pos, 4) == Good(v, pos + 4)
    ensures v < TWO_31 ==> Int32(buf, pos) == Good(v, pos + 4)
  {
    assert Base256(4) == TWO_32;
    ReadUnsigned(buf, pos, if v < 0 then v + TWO_32 else v, 4);
  }

  lemma Read64(buf: seq<Byte>, pos: nat, v: int)
    requires -TWO_63 <= v < TWO_64 && Stands(buf, pos, Enc64(v))
    ensures v >= 0 ==> Unsigned(buf, pos, 8) == Good(v, pos + 8)
    ensures v < TWO_63 ==> Int64(buf, pos) == Good(v, pos + 8)
  {
    assert Base256(8) == TWO_64;
    ReadUnsigned(buf, pos, if v < 0 then v + TWO_64 else v, 8);
  }

  lemma ReadOpaque(buf: seq<Byte>, pos: nat, s: seq<Byte>)
    requires Stands(buf, pos, EncOpaque(s))
    ensures Opaque(buf, pos, |s|) == Good(s, pos + |EncOpaque(s)|)
  {
    var e := EncOpaque(s);
    assert e[..|s|] == s;
    assert buf[pos..pos + |e|] == e;
  }

  lemma ReadText(buf: seq<Byte>, pos: nat, s: seq<Byte>)
    requires |s| < TWO_32 && Stands(buf, pos, EncText(s))
    ensures Text(buf, pos) == Good(s, pos + |EncText(s)|)
  {
    StandsSplit(buf, pos, Enc32(|s|), EncOpaque(s));
    Read32(buf, pos, |s|);
    ReadOpaque(buf, pos + 4, s);
  }

  /** A byte or a short is written sign-extended to four bytes, and its low bits come back. */
  lemma LowBits(v: int, half: int)
    requires half in {0x80, 0x8000}
    ensures 0 <= v < 2 * half ==> Signed(v, half) % (2 * half) == v
    ensures -half <= v < half ==> AsSigned(v % (2 * half), half) == v
  {
  }
}
