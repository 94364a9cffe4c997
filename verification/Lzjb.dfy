/** LZJB: the decoder, an encoder for its format, and their round trip. */
module Lzjb {
  import opened Bytes
  import opened Codec

  // ----- the decoder -----

  /** The control bit in use: the byte it comes from and its weight. */
  datatype Bits = Bits(copymap: nat, copymask: nat, pos: nat) | NoBits

  /** The next control bit, from a new control byte when the last one is used up. */
  function Load(src: seq<Byte>, pos: nat, copymap: nat, copymask: nat): (b: Bits)
  {
    if 2 * copymask == 256 then
      if pos >= |src| then NoBits else Bits(src[pos], 1, pos + 1)
    else Bits(copymap, 2 * copymask, pos)
  }

  datatype Turn = Stop(outcome: Decoded) | Next(pos: nat, out: seq<Byte>)

  /** One item: a match when the control bit is set, else a literal. */
  function Item(src: seq<Byte>, pos: nat, match_: bool, out: seq<Byte>, dLen: nat): (t: Turn)
    requires |out| < dLen
    ensures t.Next? ==> |out| < |t.out| <= dLen
    ensures t.Stop? ==> t.outcome.Corrupt? || t.outcome.Escaped?
  {
    if match_ then
      if pos + 2 > |src| then Stop(Corrupt)
      else
        var mlen := src[pos] as int / 4 + 3;
        var offset := Be(src[pos..pos + 2]) % 1024;
        if offset > |out| then Stop(Corrupt)
        else if offset == 0 then Stop(Escaped)
        else Next(pos + 2, Copy(out, offset, Min(mlen, dLen - |out|)))
    else if pos >= |src| then Stop(Corrupt)
    else Next(pos + 1, out + [src[pos]])
  }

  function Decode(src: seq<Byte>, pos: nat, copymap: nat, copymask: nat, out: seq<Byte>, dLen: nat): (r: Decoded)
    requires copymask > 0 && |out| <= dLen
    ensures r.Corrupt? || r.Escaped? || (r.Ok? && |r.data| == dLen)
    decreases dLen - |out|
  {
    if |out| == dLen then Ok(out)
    else
      match Load(src, pos, copymap, copymask)
      case NoBits => Corrupt
      case Bits(map', mask', pos') =>
        match Item(src, pos', (map' / mask') % 2 == 1, out, dLen)
        case Stop(r) => r
        case Next(pos'', out') => Decode(src, pos'', map', mask', out', dLen)
  }

  /** Any bytes at all give exactly `dLen` bytes, a decompression error, or the escape of the
      index error that a match at distance 0 raises. */
  function Decompress(src: seq<Byte>, dLen: nat): (r: Decoded)
    ensures r.Corrupt? || r.Escaped? || (r.Ok? && |r.data| == dLen)
  {
    Decode(src, 0, 0, 128, [], dLen)
  }

  // ----- the program -----

  /** The copying loop of a match, stopped when the output is full. */
  method CopyMatch(before: seq<Byte>, offset: nat, mlen: nat, dLen: nat) returns (out: seq<Byte>)
    requires 1 <= offset <= |before| <= dLen
    ensures out == Copy(before, offset, Min(mlen, dLen - |before|))
  {
    out := before;
    var depart := |out| - offset;
    var i := 0;
    while i < mlen
      invariant 0 <= i <= mlen && i <= dLen - |before|
      invariant out == Copy(before, offset, i) && depart == |out| - offset
    {
      if |out| >= dLen { break; }
      out := out + [out[depart]];
      depart := depart + 1;
      i := i + 1;
    }
  }

  method DecompressBlock(src: seq<Byte>, dLen: nat) returns (r: Decoded)
    ensures r == Decompress(src, dLen)
  {
    hide Copy, Be, Decode;
    var out: seq<Byte> := [];
    var s, copymap: nat, copymask: nat := 0, 0, 128;
    while |out| < dLen
      invariant |out| <= dLen && copymask > 0
      invariant Decode(src, s, copymap, copymask, out, dLen) == Decompress(src, dLen)
      decreases dLen - |out|
    {
      DecodeTurn(src, s, copymap, copymask, out, dLen);
      copymask := copymask * 2;
      if copymask == 256 {
        copymask := 1;
        if s >= |src| { return Corrupt; }
        copymap := src[s];
        s := s + 1;
      }
      if (copymap / copymask) % 2 == 1 {
        if s + 2 > |src| { return Corrupt; }
        var mlen := src[s] as int / 4 + 3;
        var offset := Be(src[s..s + 2]) % 1024;
        s := s + 2;
        if offset > |out| { return Corrupt; }
        if offset == 0 { return Escaped; }
        out := CopyMatch(out, offset, mlen, dLen);
      } else {
        if s >= |src| { return Corrupt; }
        out := out + [src[s]];
        s := s + 1;
      }
    }
    DecodeTurn(src, s, copymap, copymask, out, dLen);
    r := Ok(out);
  }

  /** One turn of the decoder. */
  lemma {:induction false} DecodeTurn(src: seq<Byte>, pos: nat, copymap: nat, copymask: nat, out: seq<Byte>, dLen: nat)
    requires copymask > 0 && |out| <= dLen
    ensures |out| == dLen ==> Decode(src, pos, copymap, copymask, out, dLen) == Ok(out)
    ensures |out| < dLen ==>
              var b := Load(src, pos, copymap, copymask);
              if b.NoBits? then Decode(src, pos, copymap, copymask, out, dLen) == Corrupt
              else
                match Item(src, b.pos, (b.copymap / b.copymask) % 2 == 1, out, dLen)
                case Stop(r) => Decode(src, pos, copymap, copymask, out, dLen) == r
                case Next(pos', out') =>
                  Decode(src, pos, copymap, copymask, out, dLen)
                  == Decode(src, pos', b.copymap, b.copymask, out', dLen)
  {
    hide Item, Load;
  }

  // ----- an encoder for the format, and what it says -----

  datatype Token = Literal(byte: Byte) | Match(offset: nat, len: nat)

  predicate Fits(t: Token, out: nat)
  {
    t.Match? ==> 3 <= t.len <= 66 && 1 <= t.offset < 1024 && t.offset <= out
  }

  function Length(t: Token): nat { if t.Literal? then 1 else t.len }

  predicate Valid(ts: seq<Token>, out: nat)
  {
    ts == [] || (Fits(ts[0], out) && Valid(ts[1..], out + Length(ts[0])))
  }

  predicate Coded(t: Token)
  {
    t.Match? ==> 3 <= t.len <= 66 && 1 <= t.offset < 1024
  }

  function Body(t: Token): (e: seq<Byte>)
    requires Coded(t)
  {
    match t
    case Literal(b) => [b]
    case Match(offset, len) => BeBytes((len - 3) * 1024 + offset, 2)
  }

  function Bodies(g: seq<Token>): seq<Byte>
    requires forall t :: t in g ==> Coded(t)
  {
    if g == [] then [] else Body(g[0]) + Bodies(g[1..])
  }

  /** The control bits of a group, the first token in the lowest bit. */
  function Control(g: seq<Token>): (c: nat)
    ensures c < Pow2(|g|)
  {
    if g == [] then 0 else (if g[0].Match? then 1 else 0) + 2 * Control(g[1..])
  }

  /** Groups of eight tokens, each behind its control byte. */
  function Encode(ts: seq<Token>): seq<Byte>
    requires forall t :: t in ts ==> Coded(t)
  {
    if ts == [] then []
    else
      var n := Min(8, |ts|);
      ControlIsByte(ts[..n]);
      [Control(ts[..n])] + Bodies(ts[..n]) + Encode(ts[n..])
  }

  lemma {:induction false} ControlIsByte(g: seq<Token>)
    requires |g| <= 8
    ensures Control(g) < 256
  {
    assert Pow2(8) == 256;
    Pow2Add(|g|, 8 - |g|);
    MulMono(1, Pow2(8 - |g|), Pow2(|g|));
  }

  function Apply(out: seq<Byte>, t: Token): (r: seq<Byte>)
    requires Fits(t, |out|)
    ensures |r| == |out| + Length(t) && r[..|out|] == out
  {
    match t
    case Literal(b) => out + [b]
    case Match(offset, len) => Copy(out, offset, len)
  }

  /** The meaning of a list of tokens. */
  function Expand(ts: seq<Token>, out: seq<Byte>): (r: seq<Byte>)
    requires Valid(ts, |out|)
    ensures |out| <= |r| && r[..|out|] == out
    decreases |ts|
  {
    if ts == [] then out
    else
      var next := Apply(out, ts[0]);
      assert next[..|out|] == out;
      Expand(ts[1..], next)
  }

  // ----- the round trip -----

  lemma HalfDiv(n: nat, m: nat)
    requires m > 0
    ensures n / (2 * m) == (n / m) / 2
  {
    var q, r := n / m, n % m;
    assert n == q * m + r;
    MulAssoc(q / 2, 2, m);
    Distribute(q / 2 * 2, q % 2, m);
    MulMono(0, q % 2, m);
    MulMono(q % 2, 1, m);
    DivModUnique(n, 2 * m, q / 2, (q % 2) * m + r);
  }

  lemma MatchWord(offset: nat, len: nat)
    requires 3 <= len <= 66 && 1 <= offset < 1024
    ensures var w := BeBytes((len - 3) * 1024 + offset, 2);
            w[0] as int / 4 + 3 == len && Be(w) % 1024 == offset
  {
    var v := (len - 3) * 1024 + offset;
    BeTwo(v);
    DivModUnique(v, 1024, len - 3, offset);
    DivModUnique(v / 256, 4, len - 3, offset / 256);
  }

  /** A 16-bit word, high byte first. */
  lemma {:induction false} BeTwo(v: nat)
    requires v < 65536
    ensures Be(BeBytes(v, 2)) == v && BeBytes(v, 2)[0] as int == v / 256
  {
    assert Base256(2) == 65536;
    BeRoundTrip(v, 2);
    assert BeBytes(v, 2) == BeBytes(v / 256, 1) + [v % 256];
    assert BeBytes(v / 256, 1)[0] == (v / 256) % 256;
  }

  /** One item undoes the encoding of one token, up to the requested length. */
  lemma ItemOnToken(src: seq<Byte>, pos: nat, out: seq<Byte>, dLen: nat, t: Token)
    requires |out| < dLen && Fits(t, |out|) && Stands(src, pos, Body(t))
    ensures var all := Apply(out, t);
            Item(src, pos, t.Match?, out, dLen) == Next(pos + |Body(t)|, all[..Min(|all|, dLen)])
  {
    hide Be, BeBytes;
    var piece := src[pos..pos + |Body(t)|];
    assert src[pos] == piece[0];
    if t.Match? {
      MatchWord(t.offset, t.len);
      CopyPrefix(out, t.offset, t.len, Min(t.len, dLen - |out|));
    }
  }

  /** The bytes of what remains: `group` of the current group, then whole groups, then `tail`
      bytes of padding. */
  ghost predicate Remains(src: seq<Byte>, pos: nat, group: seq<Token>, later: seq<Token>, tail: nat)
  {
    && (forall t :: t in group ==> Coded(t)) && (forall t :: t in later ==> Coded(t))
    && Stands(src, pos, Bodies(group) + Encode(later))
    && pos + |Bodies(group) + Encode(later)| + tail == |src|
  }

  /** The control bits from weight `copymask` up are those of `group`, and a group that is not
      the last one uses all of them. */
  predicate Controls(copymap: nat, copymask: nat, group: seq<Token>, later: seq<Token>)
  {
    && 0 < copymask <= 256
    && copymap / copymask == Control(group)
    && Pow2(|group|) * copymask <= 256
    && (later != [] ==> Pow2(|group|) * copymask == 256)
  }

  lemma {:induction false} GroupIsOpen(copymask: nat, n: nat)
    requires copymask > 0 && Pow2(n) * copymask <= 256
    ensures copymask == 256 ==> n == 0
    ensures copymask < 256 && Pow2(n) * copymask == 256 ==> n > 0
  {
    if n > 0 {
      assert Pow2(n) == 2 * Pow2(n - 1);
      MulMono(2, Pow2(n), copymask);
    }
  }

  /** At a control byte: the next group, at most eight tokens, and the groups after it. */
  lemma NextGroup(src: seq<Byte>, pos: nat, later: seq<Token>, tail: nat, n: nat)
    requires later != [] && n == Min(8, |later|) && Remains(src, pos, [], later, tail)
    ensures Control(later[..n]) < 256
    ensures pos < |src| && src[pos] == Control(later[..n])
    ensures Remains(src, pos + 1, later[..n], later[n..], tail)
  {
    hide Body, Control, Pow2;
    var g, l := later[..n], later[n..];
    assert later == g + l;
    ControlIsByte(g);
    assert Bodies([]) + Encode(later) == [Control(g)] + (Bodies(g) + Encode(l));
    StandsSplit(src, pos, [Control(g)], Bodies(g) + Encode(l));
    assert src[pos..pos + 1][0] == Control(g);
  }

  lemma {:induction false} GroupWeight(n: nat, more: bool)
    requires n <= 8 && (more ==> n == 8)
    ensures Pow2(n) * 1 <= 256 && (more ==> Pow2(n) * 1 == 256)
  {
    assert Pow2(8) == 256;
    Pow2Add(n, 8 - n);
    MulMono(1, Pow2(8 - n), Pow2(n));
  }

  /** Loading a control bit opens the next group when the current one is finished. */
  lemma LoadOpens(src: seq<Byte>, pos: nat, copymap: nat, copymask: nat, group: seq<Token>, later: seq<Token>,
                  tail: nat)
    returns (g: seq<Token>, l: seq<Token>)
    requires copymask > 0 && Controls(copymap, 2 * copymask, group, later) && Remains(src, pos, group, later, tail)
    requires group + later != []
    ensures g != [] && g + l == group + later
    ensures var b := Load(src, pos, copymap, copymask);
            b.Bits? && Controls(b.copymap, b.copymask, g, l) && Remains(src, b.pos, g, l, tail)
  {
    hide Bodies, Encode, Remains, Control, Pow2;
    GroupIsOpen(2 * copymask, |group|);
    if group == [] {
      assert 2 * copymask == 256 by { EmptyGroup(copymap, copymask, later); }
      var n := Min(8, |later|);
      g, l := later[..n], later[n..];
      assert later == g + l;
      NextGroup(src, pos, later, tail, n);
      GroupWeight(n, l != []);
    } else {
      g, l := group, later;
    }
  }

  lemma EmptyGroup(copymap: nat, copymask: nat, later: seq<Token>)
    requires Controls(copymap, 2 * copymask, [], later) && later != []
    ensures 2 * copymask == 256
  {
  }

  /** Past a token, what remains of its group keeps its control bits. */
  lemma AfterToken(src: seq<Byte>, pos: nat, copymap: nat, copymask: nat, g: seq<Token>, l: seq<Token>, tail: nat)
    requires g != [] && Controls(copymap, copymask, g, l) && Remains(src, pos, g, l, tail)
    ensures (copymap / copymask) % 2 == (if g[0].Match? then 1 else 0)
    ensures Coded(g[0]) && Stands(src, pos, Body(g[0]))
    ensures 0 < copymask <= 128
    ensures Controls(copymap, 2 * copymask, g[1..], l) && Remains(src, pos + |Body(g[0])|, g[1..], l, tail)
  {
    hide Controls, Remains, Body, Bodies, Encode, Control;
    ControlsMove(copymap, copymask, g, l);
    RemainsMove(src, pos, g, l, tail);
  }

  lemma ControlsMove(copymap: nat, copymask: nat, g: seq<Token>, l: seq<Token>)
    requires g != [] && Controls(copymap, copymask, g, l)
    ensures (copymap / copymask) % 2 == (if g[0].Match? then 1 else 0)
    ensures 0 < copymask <= 128 && Controls(copymap, 2 * copymask, g[1..], l)
  {
    hide Pow2, Control;
    HalfDiv(copymap, copymask);
    ControlBits(g);
    HalfMask(|g|, copymask);
  }

  lemma {:induction false} ControlBits(g: seq<Token>)
    requires g != []
    ensures Control(g) % 2 == (if g[0].Match? then 1 else 0) && Control(g) / 2 == Control(g[1..])
  {
  }

  lemma HalfMask(n: nat, copymask: nat)
    requires n > 0
    ensures Pow2(n - 1) * (2 * copymask) == Pow2(n) * copymask >= 2 * copymask
  {
    MulAssoc(Pow2(n - 1), 2, copymask);
    MulMono(1, Pow2(n - 1), 2 * copymask);
  }

  lemma RemainsMove(src: seq<Byte>, pos: nat, g: seq<Token>, l: seq<Token>, tail: nat)
    requires g != [] && Remains(src, pos, g, l, tail)
    ensures Coded(g[0]) && Stands(src, pos, Body(g[0]))
    ensures Remains(src, pos + |Body(g[0])|, g[1..], l, tail)
  {
    hide Body, Encode;
    assert g == [g[0]] + g[1..];
    assert Bodies(g) + Encode(l) == Body(g[0]) + (Bodies(g[1..]) + Encode(l));
    StandsSplit(src, pos, Body(g[0]), Bodies(g[1..]) + Encode(l));
  }

  lemma {:induction false} DecodeStream(src: seq<Byte>, pos: nat, copymap: nat, copymask: nat,
                                        group: seq<Token>, later: seq<Token>, tail: nat, out: seq<Byte>, dLen: nat)
    requires copymask > 0 && Controls(copymap, 2 * copymask, group, later) && Remains(src, pos, group, later, tail)
    requires Valid(group + later, |out|) && |out| <= dLen
    ensures var all := Expand(group + later, out);
            && (|all| >= dLen ==> Decode(src, pos, copymap, copymask, out, dLen) == Ok(all[..dLen]))
            && (|all| < dLen && tail == 0 ==> Decode(src, pos, copymap, copymask, out, dLen) == Corrupt)
    decreases |group + later|
  {
    hide Item, Load, Apply, Body, Bodies, Encode, Remains, Control, Controls, Pow2;
    var ts := group + later;
    var all := Expand(ts, out);
    if |out| == dLen {
      assert all[..dLen] == out;
    } else if ts == [] {
      if tail == 0 { AtTheEnd(src, pos, copymap, copymask, out, dLen); }
    } else {
      var g, l := LoadOpens(src, pos, copymap, copymask, group, later, tail);
      var b := Load(src, pos, copymap, copymask);
      AfterToken(src, b.pos, b.copymap, b.copymask, g, l, tail);
      var t := ts[0];
      assert t == g[0] && ts[1..] == g[1..] + l;
      ItemOnToken(src, b.pos, out, dLen, t);
      var next := Apply(out, t);
      var kept := next[..Min(|next|, dLen)];
      OneTurn(src, pos, copymap, copymask, out, dLen, b, b.pos + |Body(t)|, kept);
      assert all == Expand(g[1..] + l, next);
      if |next| <= dLen {
        assert kept == next;
        DecodeStream(src, b.pos + |Body(t)|, b.copymap, b.copymask, g[1..], l, tail, next, dLen);
      } else {
        assert all[..|next|] == next;
        assert all[..dLen] == next[..dLen];
      }
    }
  }

  lemma {:induction false} OneTurn(src: seq<Byte>, pos: nat, copymap: nat, copymask: nat, out: seq<Byte>, dLen: nat,
                b: Bits, pos': nat, out': seq<Byte>)
    requires copymask > 0 && |out| < dLen
    requires b.Bits? && b == Load(src, pos, copymap, copymask)
    requires Item(src, b.pos, (b.copymap / b.copymask) % 2 == 1, out, dLen) == Next(pos', out')
    ensures Decode(src, pos, copymap, copymask, out, dLen) == Decode(src, pos', b.copymap, b.copymask, out', dLen)
    ensures |out'| == dLen ==> Decode(src, pos, copymap, copymask, out, dLen) == Ok(out')
  {
    hide Item, Load;
  }

  lemma {:induction false} AtTheEnd(src: seq<Byte>, pos: nat, copymap: nat, copymask: nat, out: seq<Byte>, dLen: nat)
    requires copymask > 0 && Controls(copymap, 2 * copymask, [], []) && Remains(src, pos, [], [], 0)
    requires |out| < dLen
    ensures Decode(src, pos, copymap, copymask, out, dLen) == Corrupt
  {
  }

  /** The round trip, whatever pads the stream up to the end of its sectors: the first `dLen` bytes
      of what the tokens mean. Without padding, a length beyond their meaning is an error. */
  lemma {:induction false} RoundTrip(ts: seq<Token>, padding: seq<Byte>, dLen: nat)
    requires Valid(ts, 0)
    ensures forall t :: t in ts ==> Coded(t)
    ensures var meaning := Expand(ts, []);
            && (dLen <= |meaning| ==> Decompress(Encode(ts) + padding, dLen) == Ok(meaning[..dLen]))
            && (dLen > |meaning| && padding == [] ==> Decompress(Encode(ts) + padding, dLen) == Corrupt)
  {
    ValidIsCoded(ts, 0);
    assert [] + ts == ts;
    assert Bodies([]) + Encode(ts) == Encode(ts);
    var src := Encode(ts) + padding;
    assert src[0..|Encode(ts)|] == Encode(ts);
    DecodeStream(src, 0, 0, 128, [], ts, |padding|, [], dLen);
  }

  lemma {:induction false} ValidIsCoded(ts: seq<Token>, out: nat)
    requires Valid(ts, out)
    ensures forall t :: t in ts ==> Coded(t)
  {
    if ts != [] {
      ValidIsCoded(ts[1..], out + Length(ts[0]));
      assert ts == [ts[0]] + ts[1..];
    }
  }
}
