/** LZ4 blocks: the decoder, an encoder for its format, and their round trip. */
module Lz4 {
  import opened Bytes
  import opened Codec

  // ----- the decoder -----

  datatype Length = Length(value: nat, pos: nat) | Truncated

  /** Bytes of an extended length: added up until one is not 255. */
  function ReadLength(src: seq<Byte>, pos: nat, acc: nat): (r: Length)
    ensures r.Length? ==> pos < r.pos <= |src|
    decreases |src| - pos
  {
    if pos >= |src| then Truncated
    else if src[pos] != 255 then Length(acc + src[pos], pos + 1)
    else ReadLength(src, pos + 1, acc + 255)
  }

  /** A nibble of the token, extended when it is 15. */
  function NibbleLength(src: seq<Byte>, pos: nat, nibble: nat): (r: Length)
    requires pos <= |src|
    ensures r.Length? ==> pos <= r.pos <= |src|
  {
    if nibble == 15 then ReadLength(src, pos, 15) else Length(nibble, pos)
  }

  function Finish(out: seq<Byte>, dLen: nat): (r: Decoded)
    ensures r.Ok? ==> |r.data| == dLen
  {
    if |out| < dLen then Corrupt else Ok(out[..dLen])
  }

  /** What one turn of the loop does: stop with an outcome, or go on. */
  datatype Turn = Stop(outcome: Decoded) | Next(pos: nat, out: seq<Byte>)

  function OneTurn(src: seq<Byte>, pos: nat, out: seq<Byte>, dLen: nat): (t: Turn)
    requires pos < |src|
    ensures t.Next? ==> pos < t.pos <= |src|
    ensures t.Stop? ==> t.outcome.Corrupt? || (t.outcome.Ok? && |t.outcome.data| == dLen)
  {
    var token := src[pos];
    var lit := NibbleLength(src, pos + 1, token / 16);
    if lit.Truncated? || lit.pos + lit.value > |src| then Stop(Corrupt)
    else
      var out1 := out + src[lit.pos..lit.pos + lit.value];
      var pos1 := lit.pos + lit.value;
      if pos1 == |src| then Stop(Finish(out1, dLen))
      else if pos1 + 2 > |src| then Stop(Corrupt)
      else
        var offset := Le(src[pos1..pos1 + 2]);
        if offset == 0 || offset > |out1| then Stop(Corrupt)
        else
          var m := NibbleLength(src, pos1 + 2, token % 16);
          if m.Truncated? then Stop(Corrupt)
          else
            var out2 := Copy(out1, offset, m.value + 4);
            if |out2| > dLen then Stop(Finish(out2, dLen)) else Next(m.pos, out2)
  }

  function Block(src: seq<Byte>, pos: nat, out: seq<Byte>, dLen: nat): (r: Decoded)
    requires pos <= |src|
    ensures r.Corrupt? || (r.Ok? && |r.data| == dLen)
    decreases |src| - pos
  {
    if pos == |src| then Finish(out, dLen)
    else
      match OneTurn(src, pos, out, dLen)
      case Stop(r) => r
      case Next(pos', out') => Block(src, pos', out', dLen)
  }

  /** The length prefix of ZFS and the block: any bytes at all give exactly `dLen` bytes or a
      decompression error. */
  function Decompress(src: seq<Byte>, dLen: nat): (r: Decoded)
    ensures r.Corrupt? || (r.Ok? && |r.data| == dLen)
  {
    if |src| < 4 then Corrupt
    else
      var size := Be(src[..4]);
      if size + 4 > |src| then Corrupt
      else Block(src[4..4 + size], 0, [], dLen)
  }

  // ----- the program -----

  method ReadExtension(src: seq<Byte>, start: nat, acc: nat) returns (ok: bool, pos: nat, total: nat)
    requires start <= |src|
    ensures ReadLength(src, start, acc) == if ok then Length(total, pos) else Truncated
    ensures start <= pos <= |src|
  {
    pos, total := start, acc;
    while true
      invariant start <= pos <= |src|
      invariant ReadLength(src, start, acc) == ReadLength(src, pos, total)
      decreases |src| - pos
    {
      if pos >= |src| {
        return false, pos, total;
      }
      var b := src[pos];
      pos := pos + 1;
      total := total + b;
      if b != 255 {
        return true, pos, total;
      }
    }
  }

  method CopyMatch(out: seq<Byte>, offset: nat, mlen: nat) returns (r: seq<Byte>)
    requires 1 <= offset <= |out|
    ensures r == Copy(out, offset, mlen)
  {
    r := out;
    var start := |out| - offset;
    var i := 0;
    while i < mlen
      invariant 0 <= i <= mlen && r == Copy(out, offset, i)
    {
      r := r + [r[start + i]];
      i := i + 1;
    }
  }

  /** The body of the decoder's loop. */
  method TakeTurn(src: seq<Byte>, start: nat, before: seq<Byte>, dLen: nat) returns (t: Turn)
    requires start < |src|
    ensures t == OneTurn(src, start, before, dLen)
  {
    hide Copy, ReadLength, Le, Finish;
    var n, pos, out := |src|, start, before;
    var token := src[pos];
    pos := pos + 1;
    var lit: nat := token / 16;
    if lit == 15 {
      var ok;
      ok, pos, lit := ReadExtension(src, pos, lit);
      if !ok { return Stop(Corrupt); }
    }
    if pos + lit > n { return Stop(Corrupt); }
    out := out + src[pos..pos + lit];
    pos := pos + lit;
    if pos == n { return Stop(Finish(out, dLen)); }
    if pos + 2 > n { return Stop(Corrupt); }
    var offset := Le(src[pos..pos + 2]);
    pos := pos + 2;
    if offset == 0 || offset > |out| { return Stop(Corrupt); }
    var mlen: nat := token % 16;
    if mlen == 15 {
      var ok;
      ok, pos, mlen := ReadExtension(src, pos, mlen);
      if !ok { return Stop(Corrupt); }
    }
    mlen := mlen + 4;
    out := CopyMatch(out, offset, mlen);
    if |out| > dLen { return Stop(Finish(out, dLen)); }
    t := Next(pos, out);
  }

  method BlockDecompress(src: seq<Byte>, dLen: nat) returns (r: Decoded)
    ensures r == Block(src, 0, [], dLen)
  {
    hide OneTurn;
    var out: seq<Byte> := [];
    var pos := 0;
    while pos < |src|
      invariant 0 <= pos <= |src|
      invariant Block(src, pos, out, dLen) == Block(src, 0, [], dLen)
    {
      var t := TakeTurn(src, pos, out, dLen);
      if t.Stop? {
        return t.outcome;
      }
      pos, out := t.pos, t.out;
    }
    r := Finish(out, dLen);
  }

  method DecompressBlock(src: seq<Byte>, dLen: nat) returns (r: Decoded)
    ensures r == Decompress(src, dLen)
  {
    if |src| < 4 { return Corrupt; }
    var bufsiz := Be(src[..4]);
    if bufsiz + 4 > |src| { return Corrupt; }
    r := BlockDecompress(src[4..4 + bufsiz], dLen);
  }

  // ----- an encoder for the format, and what it says -----

  /** Literals, then a match. */
  datatype Sequence = Sequence(literals: seq<Byte>, offset: nat, mlen: nat)

  /** A block: sequences, then perhaps a last run of literals. */
  datatype Stream = Stream(sequences: seq<Sequence>, last: Option<seq<Byte>>)

  /** What a length beyond 14 adds after its nibble. */
  function Extension(v: nat): (e: seq<Byte>)
    ensures |e| >= 1
  {
    if v < 255 then [v] else [255] + Extension(v - 255)
  }

  function Nibble(v: nat): nat { Min(15, v) }

  function Rest(v: nat): seq<Byte> { if v < 15 then [] else Extension(v - 15) }

  predicate Fits(s: Sequence, out: nat)
  {
    1 <= s.offset <= out + |s.literals| && s.offset < 65536 && s.mlen >= 4
  }

  function EncodeSequence(s: Sequence): (e: seq<Byte>)
    requires s.mlen >= 4
    ensures |e| >= 3
  {
    [Token(s)] + Rest(|s.literals|) + s.literals
    + LeBytes(s.offset, 2) + Rest(s.mlen - 4)
  }

  function EncodeLast(last: Option<seq<Byte>>): seq<Byte>
  {
    match last
    case None => []
    case Some(lits) => [Nibble(|lits|) * 16] + Rest(|lits|) + lits
  }

  predicate Valid(ss: seq<Sequence>, out: nat)
  {
    ss == [] || (Fits(ss[0], out) && Valid(ss[1..], out + |ss[0].literals| + ss[0].mlen))
  }

  function Encode(ss: seq<Sequence>, last: Option<seq<Byte>>, out: nat): seq<Byte>
    requires Valid(ss, out)
  {
    if ss == [] then EncodeLast(last)
    else EncodeSequence(ss[0]) + Encode(ss[1..], last, out + |ss[0].literals| + ss[0].mlen)
  }

  /** The meaning of a stream. */
  function Expand(ss: seq<Sequence>, last: Option<seq<Byte>>, out: seq<Byte>): (r: seq<Byte>)
    requires Valid(ss, |out|)
    ensures |out| <= |r| && r[..|out|] == out
    decreases |ss|
  {
    if ss == [] then out + (if last.Some? then last.value else [])
    else
      var out1 := out + ss[0].literals;
      var out2 := Copy(out1, ss[0].offset, ss[0].mlen);
      assert out2[..|out1|] == out1 && out1[..|out|] == out;
      Expand(ss[1..], last, out2)
  }

  // ----- the round trip -----

  lemma {:induction false} ReadsExtension(src: seq<Byte>, pos: nat, acc: nat, v: nat)
    requires Stands(src, pos, Extension(v))
    ensures ReadLength(src, pos, acc) == Length(acc + v, pos + |Extension(v)|)
    decreases v
  {
    if v < 255 {
      assert src[pos..pos + 1][0] == v;
    } else {
      StandsSplit(src, pos, [255], Extension(v - 255));
      assert src[pos..pos + 1][0] == 255;
      ReadsExtension(src, pos + 1, acc + 255, v - 255);
    }
  }

  lemma ReadsNibble(src: seq<Byte>, pos: nat, v: nat)
    requires Stands(src, pos, Rest(v))
    ensures NibbleLength(src, pos, Nibble(v)) == Length(v, pos + |Rest(v)|)
  {
    if v >= 15 {
      ReadsExtension(src, pos, 15, v - 15);
    }
  }

  lemma TokenNibbles(a: nat, b: nat)
    requires a < 16 && b < 16
    ensures (a * 16 + b) / 16 == a && (a * 16 + b) % 16 == b
  {
  }

  function Token(s: Sequence): Byte
    requires s.mlen >= 4
  {
    Nibble(|s.literals|) * 16 + Nibble(s.mlen - 4)
  }

  /** The five parts of an encoded sequence and where they stand. */
  lemma SequenceParts(src: seq<Byte>, pos: nat, s: Sequence)
    requires s.mlen >= 4 && Stands(src, pos, EncodeSequence(s))
    ensures var pos1 := pos + 1 + |Rest(|s.literals|)|;
            var pos2 := pos1 + |s.literals|;
            && Stands(src, pos, [Token(s)]) && Stands(src, pos + 1, Rest(|s.literals|))
            && Stands(src, pos1, s.literals) && Stands(src, pos2, LeBytes(s.offset, 2))
            && Stands(src, pos2 + 2, Rest(s.mlen - 4))
            && pos + |EncodeSequence(s)| == pos2 + 2 + |Rest(s.mlen - 4)|
  {
    hide LeBytes, Rest, Stands, Nibble;
    var token, r, lits, off := [Token(s)], Rest(|s.literals|), s.literals, LeBytes(s.offset, 2);
    StandsSplit(src, pos, token + r + lits + off, Rest(s.mlen - 4));
    StandsSplit(src, pos, token + r + lits, off);
    StandsSplit(src, pos, token + r, lits);
    StandsSplit(src, pos, token, r);
  }

  /** One turn undoes the encoding of one sequence. */
  lemma {:induction false} TurnOnSequence(src: seq<Byte>, pos: nat, out: seq<Byte>, dLen: nat, s: Sequence)
    requires Fits(s, |out|) && Stands(src, pos, EncodeSequence(s))
    ensures var out2 := Copy(out + s.literals, s.offset, s.mlen);
            OneTurn(src, pos, out, dLen)
            == if |out2| > dLen then Stop(Finish(out2, dLen)) else Next(pos + |EncodeSequence(s)|, out2)
  {
    hide Copy, ReadLength, Le, LeBytes, Rest, NibbleLength, EncodeSequence, Finish;
    var l, m := |s.literals|, s.mlen - 4;
    SequenceParts(src, pos, s);
    assert src[pos..pos + 1][0] == Token(s);
    TokenNibbles(Nibble(l), Nibble(m));
    ReadsNibble(src, pos + 1, l);
    TwoBytes(s.offset);
    ReadsNibble(src, pos + 1 + |Rest(l)| + l + 2, m);
  }

  lemma {:induction false} TwoBytes(v: nat)
    requires v < 65536
    ensures Le(LeBytes(v, 2)) == v
  {
    assert Base256(2) == 65536;
    LeRoundTrip(v, 2);
  }

  lemma TurnOnLast(src: seq<Byte>, pos: nat, out: seq<Byte>, dLen: nat, lits: seq<Byte>)
    requires Stands(src, pos, EncodeLast(Some(lits))) && pos + |EncodeLast(Some(lits))| == |src|
    ensures OneTurn(src, pos, out, dLen) == Stop(Finish(out + lits, dLen))
  {
    var token := [Nibble(|lits|) * 16];
    StandsSplit(src, pos, token + Rest(|lits|), lits);
    StandsSplit(src, pos, token, Rest(|lits|));
    assert src[pos..pos + 1][0] == token[0];
    TokenNibbles(Nibble(|lits|), 0);
    ReadsNibble(src, pos + 1, |lits|);
  }

  /** Decoding an encoded stream gives the first `dLen` bytes of its meaning, or an error when
      it means fewer. */
  lemma {:induction false} BlockRoundTrip(src: seq<Byte>, pos: nat, ss: seq<Sequence>, last: Option<seq<Byte>>,
                                          out: seq<Byte>, dLen: nat)
    requires Valid(ss, |out|) && Stands(src, pos, Encode(ss, last, |out|))
    requires pos + |Encode(ss, last, |out|)| == |src|
    ensures Block(src, pos, out, dLen) == Finish(Expand(ss, last, out), dLen)
    decreases |ss|
  {
    hide OneTurn, Copy, EncodeSequence;
    if ss == [] {
      match last {
        case None =>
        case Some(lits) => TurnOnLast(src, pos, out, dLen, lits);
      }
    } else {
      var s := ss[0];
      var rest := ss[1..];
      var out2 := Copy(out + s.literals, s.offset, s.mlen);
      StandsSplit(src, pos, EncodeSequence(s), Encode(rest, last, |out2|));
      TurnOnSequence(src, pos, out, dLen, s);
      if |out2| <= dLen {
        BlockRoundTrip(src, pos + |EncodeSequence(s)|, rest, last, out2, dLen);
      } else {
        assert Expand(rest, last, out2)[..|out2|] == out2;
        assert Expand(ss, last, out)[..dLen] == out2[..dLen];
      }
    }
  }

  /** The round trip of whole blocks, the length prefix included, for any requested length. */
  lemma RoundTrip(stream: Stream, padding: seq<Byte>, dLen: nat)
    requires Valid(stream.sequences, 0)
    requires |Encode(stream.sequences, stream.last, 0)| < Base256(4)
    ensures var body := Encode(stream.sequences, stream.last, 0);
            var meaning := Expand(stream.sequences, stream.last, []);
            Decompress(BeBytes(|body|, 4) + body + padding, dLen)
            == if |meaning| < dLen then Corrupt else Ok(meaning[..dLen])
  {
    hide Encode, Expand, Block, BeBytes, Be;
    var body := Encode(stream.sequences, stream.last, 0);
    var src := BeBytes(|body|, 4) + body + padding;
    BeRoundTrip(|body|, 4);
    assert src[..4] == BeBytes(|body|, 4);
    assert src[4..4 + |body|] == body;
    BlockRoundTrip(body, 0, stream.sequences, stream.last, [], dLen);
  }
}
