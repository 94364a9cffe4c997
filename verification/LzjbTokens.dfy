/** What the LZJB decoder does with any bytes at all: the tokens they spell, and what these mean. */
module LzjbTokens {
  import opened Bytes
  import opened Codec
  import opened Lzjb

  /** A place in a stream, between two tokens. */
  datatype Cursor = Cursor(pos: nat, copymap: nat, copymask: nat)

  const START := Cursor(0, 0, 128)

  /** The token at a place, read without any regard to what has been put out. */
  function NextToken(src: seq<Byte>, c: Cursor): (r: Option<(Token, Cursor)>)
    requires c.copymask > 0
    ensures r.Some? ==> r.value.1.copymask > 0
  {
    match Load(src, c.pos, c.copymap, c.copymask)
    case NoBits => None
    case Bits(copymap, copymask, pos) =>
      if (copymap / copymask) % 2 == 1 then
        if pos + 2 > |src| then None
        else
          Some((Match(Be(src[pos..pos + 2]) % 1024, src[pos] as int / 4 + 3), Cursor(pos + 2, copymap, copymask)))
      else if pos >= |src| then None
      else Some((Literal(src[pos]), Cursor(pos + 1, copymap, copymask)))
  }

  /** The first `n` tokens, and the place after them. */
  function Tokens(src: seq<Byte>, c: Cursor, n: nat): (r: Option<(seq<Token>, Cursor)>)
    requires c.copymask > 0
    ensures r.Some? ==> |r.value.0| == n && r.value.1.copymask > 0
    decreases n
  {
    if n == 0 then Some(([], c))
    else
      match NextToken(src, c)
      case None => None
      case Some((t, c')) =>
        match Tokens(src, c', n - 1)
        case None => None
        case Some((ts, end)) => Some(([t] + ts, end))
  }

  /** The first `n` tokens are there, all their matches lie in the output, and they mean `all`. */
  predicate Means(src: seq<Byte>, c: Cursor, out: seq<Byte>, n: nat, all: seq<Byte>)
    requires c.copymask > 0
  {
    var r := Tokens(src, c, n);
    r.Some? && Valid(r.value.0, |out|) && all == Expand(r.value.0, out)
  }

  /** After `n` tokens the output is still short, and the next token is a match at distance 0. */
  predicate ComesToZero(src: seq<Byte>, c: Cursor, out: seq<Byte>, dLen: nat, n: nat)
    requires c.copymask > 0
  {
    var r := Tokens(src, c, n);
    && r.Some? && Valid(r.value.0, |out|) && |Expand(r.value.0, out)| < dLen
    && var next := NextToken(src, r.value.1);
       next.Some? && next.value.0.Match? && next.value.0.offset == 0
  }

  // ----- one token -----

  /** Past a token that fits, everything is as it was for the longer output. */
  lemma PastToken(src: seq<Byte>, c: Cursor, out: seq<Byte>, dLen: nat, n: nat, all: seq<Byte>)
    requires c.copymask > 0 && NextToken(src, c).Some? && Fits(NextToken(src, c).value.0, |out|)
    ensures var (t, c') := NextToken(src, c).value;
            && (Means(src, c, out, n + 1, all) <==> Means(src, c', Apply(out, t), n, all))
            && (ComesToZero(src, c, out, dLen, n + 1) <==> ComesToZero(src, c', Apply(out, t), dLen, n))
  {
    hide NextToken, Apply, Fits;
    var (t, c') := NextToken(src, c).value;
    var r := Tokens(src, c', n);
    if r.Some? {
      var ts := [t] + r.value.0;
      assert Tokens(src, c, n + 1) == Some((ts, r.value.1));
      assert ts[0] == t && ts[1..] == r.value.0;
    }
  }

  /** A token that does not fit is never passed. */
  lemma StopsAtToken(src: seq<Byte>, c: Cursor, out: seq<Byte>, dLen: nat, n: nat, all: seq<Byte>)
    requires c.copymask > 0 && n > 0
    requires NextToken(src, c).None? || !Fits(NextToken(src, c).value.0, |out|)
    ensures !Means(src, c, out, n, all) && !ComesToZero(src, c, out, dLen, n)
  {
    hide NextToken, Fits;
    var r := Tokens(src, c, n);
    if r.Some? {
      assert r.value.0[0] == NextToken(src, c).value.0;
    }
  }

  /** One turn of the decoder is one token. */
  lemma {:induction false} TurnOnToken(src: seq<Byte>, c: Cursor, out: seq<Byte>, dLen: nat)
    requires c.copymask > 0 && |out| < dLen
    ensures var r := Decode(src, c.pos, c.copymap, c.copymask, out, dLen);
            match NextToken(src, c)
            case None => r == Corrupt
            case Some((t, c')) =>
              if t.Match? && t.offset == 0 then r == Escaped
              else if !Fits(t, |out|) then r == Corrupt
              else
                var all := Apply(out, t);
                r == if |all| >= dLen then Ok(all[..dLen])
                     else Decode(src, c'.pos, c'.copymap, c'.copymask, all, dLen)
  {
    hide Be, Copy;
    var b := Load(src, c.pos, c.copymap, c.copymask);
    if b.Bits? && NextToken(src, c).Some? {
      var (t, c') := NextToken(src, c).value;
      if Fits(t, |out|) && t.Match? {
        CopyPrefix(out, t.offset, t.len, Min(t.len, dLen - |out|));
        assert Apply(out, t)[..|Apply(out, t)|] == Apply(out, t);
      }
    }
  }

  // ----- any stream -----

  /** The outcome is what the tokens say: a success is what some of them mean, cut at the requested
      length, and the index error escapes exactly when a match at distance 0 is reached while the
      output is short. */
  ghost predicate Explains(src: seq<Byte>, c: Cursor, out: seq<Byte>, dLen: nat, r: Decoded)
    requires c.copymask > 0
  {
    && (r.Escaped? <==> exists n: nat :: ComesToZero(src, c, out, dLen, n))
    && (r.Ok? <==> exists n: nat, all: seq<Byte> :: Means(src, c, out, n, all) && |all| >= dLen)
    && (forall n: nat, all: seq<Byte> :: Means(src, c, out, n, all) && |all| >= dLen ==> r == Ok(all[..dLen]))
  }

  lemma {:induction false} DecodeMeans(src: seq<Byte>, c: Cursor, out: seq<Byte>, dLen: nat)
    requires c.copymask > 0 && |out| <= dLen
    ensures Explains(src, c, out, dLen, Decode(src, c.pos, c.copymap, c.copymask, out, dLen))
    decreases dLen - |out|
  {
    hide NextToken, Apply, Fits, Explains;
    if |out| == dLen {
      assert out[..dLen] == out;
      LongEnough(src, c, out, dLen);
    } else {
      TurnOnToken(src, c, out, dLen);
      var next := NextToken(src, c);
      if next.Some? { FitFacts(next.value.0, |out|); }
      if next.None? || !Fits(next.value.0, |out|) {
        Stops(src, c, out, dLen);
      } else {
        var (t, c') := next.value;
        var more := Apply(out, t);
        if |more| >= dLen {
          LongEnough(src, c', more, dLen);
          GoesOn(src, c, out, dLen, Ok(more[..dLen]));
        } else {
          DecodeMeans(src, c', more, dLen);
          GoesOn(src, c, out, dLen, Decode(src, c'.pos, c'.copymap, c'.copymask, more, dLen));
        }
      }
    }
  }

  lemma FitFacts(t: Token, out: nat)
    ensures Fits(t, out) ==> Length(t) > 0 && !(t.Match? && t.offset == 0)
  {
  }

  /** No token at all means the output as it is. */
  lemma NoTokens(src: seq<Byte>, c: Cursor, out: seq<Byte>, dLen: nat)
    requires c.copymask > 0
    ensures forall all: seq<Byte> :: Means(src, c, out, 0, all) <==> all == out
    ensures var next := NextToken(src, c);
            ComesToZero(src, c, out, dLen, 0) <==>
            |out| < dLen && next.Some? && next.value.0.Match? && next.value.0.offset == 0
  {
    hide NextToken;
  }

  /** With an output that is long enough, whatever follows only adds to it. */
  lemma LongEnough(src: seq<Byte>, c: Cursor, out: seq<Byte>, dLen: nat)
    requires c.copymask > 0 && |out| >= dLen
    ensures Explains(src, c, out, dLen, Ok(out[..dLen]))
  {
    hide NextToken, Tokens;
    NoTokens(src, c, out, dLen);
    assert Means(src, c, out, 0, out);
    forall n: nat, all: seq<Byte> | Means(src, c, out, n, all)
      ensures |all| >= dLen && all[..dLen] == out[..dLen]
    {
      assert all[..|out|][..dLen] == out[..dLen];
    }
  }

  /** At the end of the stream, or at a token that does not fit. */
  lemma Stops(src: seq<Byte>, c: Cursor, out: seq<Byte>, dLen: nat)
    requires c.copymask > 0 && |out| < dLen
    requires NextToken(src, c).None? || !Fits(NextToken(src, c).value.0, |out|)
    ensures var next := NextToken(src, c);
            var zero := next.Some? && next.value.0.Match? && next.value.0.offset == 0;
            Explains(src, c, out, dLen, if zero then Escaped else Corrupt)
  {
    hide NextToken, Means, ComesToZero, Fits;
    NoTokens(src, c, out, dLen);
    forall n: nat, all: seq<Byte> | n > 0
      ensures !Means(src, c, out, n, all) && !ComesToZero(src, c, out, dLen, n)
    {
      StopsAtToken(src, c, out, dLen, n, all);
    }
    forall n: nat | ComesToZero(src, c, out, dLen, n)
      ensures n == 0
    {
      if n > 0 { StopsAtToken(src, c, out, dLen, n, []); }
    }
  }

  /** Past a token that fits, the same outcome is explained by the tokens after it. */
  lemma GoesOn(src: seq<Byte>, c: Cursor, out: seq<Byte>, dLen: nat, r: Decoded)
    requires c.copymask > 0 && |out| < dLen
    requires NextToken(src, c).Some? && Fits(NextToken(src, c).value.0, |out|)
    requires var (t, c') := NextToken(src, c).value;
             Explains(src, c', Apply(out, t), dLen, r)
    ensures Explains(src, c, out, dLen, r)
  {
    hide NextToken, Means, ComesToZero, Fits, Apply;
    var (t, c') := NextToken(src, c).value;
    var more := Apply(out, t);
    NoTokens(src, c, out, dLen);
    FitFacts(t, |out|);
    forall n: nat, all: seq<Byte> | Means(src, c, out, n, all) && |all| >= dLen
      ensures r == Ok(all[..dLen])
    {
      PastToken(src, c, out, dLen, n - 1, all);
    }
    if n: nat, all: seq<Byte> :| Means(src, c', more, n, all) && |all| >= dLen {
      PastToken(src, c, out, dLen, n, all);
      assert Means(src, c, out, n + 1, all);
    }
    if n: nat :| ComesToZero(src, c, out, dLen, n) {
      PastToken(src, c, out, dLen, n - 1, []);
      assert ComesToZero(src, c', more, dLen, n - 1);
    }
    if n: nat :| ComesToZero(src, c', more, dLen, n) {
      PastToken(src, c, out, dLen, n, []);
      assert ComesToZero(src, c, out, dLen, n + 1);
    }
  }

  /** The whole of `lzjb_decompress`, on any bytes. */
  lemma {:induction false} DecompressMeans(src: seq<Byte>, dLen: nat)
    ensures Explains(src, START, [], dLen, Decompress(src, dLen))
  {
    hide Explains, Decode;
    DecodeMeans(src, START, [], dLen);
  }

  /** Three bytes on which it escapes: a control byte that announces a match, and offset 0. */
  lemma EscapingStream()
    ensures Decompress([1, 0, 0], 1) == Escaped
  {
  }
}
