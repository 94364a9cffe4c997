/** The compression kinds by number: what a block of each kind is decoded to. */
module Compressions {
  import opened Bytes
  import opened Codec
  import opened Compress
  import Lz4
  import Lzjb

  /** LZ4 (15): the first `lsize` bytes of what the sequences mean, if they mean as many. */
  lemma {:induction false} Lz4ByCode(f: Foreign, stream: Lz4.Stream, padding: seq<Byte>, lsize: nat)
    requires Lz4.Valid(stream.sequences, 0)
    requires |Lz4.Encode(stream.sequences, stream.last, 0)| < 0x1_0000_0000
    ensures var body := Lz4.Encode(stream.sequences, stream.last, 0);
            var meaning := Lz4.Expand(stream.sequences, stream.last, []);
            Decompress(f, 15, BeBytes(|body|, 4) + body + padding, lsize)
            == if |meaning| < lsize then Corrupt else Ok(meaning[..lsize])
  {
    hide Lz4.Decompress, Lz4.Encode, Lz4.Expand, BeBytes, Zle;
    assert Base256(4) == TWO_32;
    Lz4.RoundTrip(stream, padding, lsize);
  }

  /** LZJB (3): the first `lsize` bytes of what the tokens mean, an error beyond a stream that ends there. */
  lemma {:induction false} LzjbByCode(f: Foreign, ts: seq<Lzjb.Token>, padding: seq<Byte>, lsize: nat)
    requires Lzjb.Valid(ts, 0)
    ensures forall t :: t in ts ==> Lzjb.Coded(t)
    ensures var meaning, r := Lzjb.Expand(ts, []), Decompress(f, 3, Lzjb.Encode(ts) + padding, lsize);
            && (lsize <= |meaning| ==> r == Ok(meaning[..lsize]))
            && (lsize > |meaning| && padding == [] ==> r == Corrupt)
  {
    hide Lzjb.Decompress, Lzjb.Encode, Lzjb.Expand, Lzjb.Coded;
    Lzjb.RoundTrip(ts, padding, lsize);
  }

  /** ZLE (14): everything up to the end of a run, and nothing between two ends. */
  lemma {:induction false} ZleByCode(f: Foreign, rs: seq<Run>, padding: seq<Byte>, lsize: nat)
    requires Valid(rs)
    ensures var r := Decompress(f, 14, Encode(rs) + padding, lsize);
            && (lsize <= |Expand(rs)| || padding == [] ==>
                  (r.Ok? <==> exists k :: 0 <= k <= |rs| && |Expand(rs[..k])| == lsize))
            && (forall k :: 0 <= k <= |rs| && |Expand(rs[..k])| == lsize ==> r == Ok(Expand(rs[..k])))
  {
    hide Zle, Expand, Encode;
    ZleRoundTrip(rs, padding, lsize);
  }

  /** A block that is stored as it is (0, 1, 2), whatever pads it, and a block of zeros (4). */
  lemma StoredByCode(f: Foreign, kind: nat, data: seq<Byte>, padding: seq<Byte>, lsize: nat)
    ensures kind <= 2 ==> Decompress(f, kind, data + padding, |data|) == Ok(data)
    ensures kind <= 2 && |data| < lsize ==> Decompress(f, kind, data, lsize) == Corrupt
    ensures Decompress(f, 4, data, lsize) == Ok(Zeros(lsize))
  {
    assert (data + padding)[..|data|] == data;
  }

  /** Gzip at any level (5 to 13) is what the foreign inflater says, if it has the right length. */
  lemma GzipByCode(f: Foreign, kind: nat, src: seq<Byte>, out: seq<Byte>, lsize: nat)
    requires 5 <= kind <= 13
    ensures f.gunzip(src) == None ==> Decompress(f, kind, src, lsize) == Corrupt
    ensures f.gunzip(src) == Some(out) ==>
              Decompress(f, kind, src, lsize) == if |out| == lsize then Ok(out) else Corrupt
  {
  }

  /** Zstd (16): a frame behind its length and four more bytes, given to the foreign decoder if there
      is one; its failure escapes. Any other kind is unknown. */
  lemma {:induction false} ZstdByCode(f: Foreign, frame: seq<Byte>, info: seq<Byte>, padding: seq<Byte>, lsize: nat)
    requires |frame| < 0x1_0000_0000 && |info| == 4
    ensures var r := Decompress(f, 16, BeBytes(|frame|, 4) + info + frame + padding, lsize);
            match f.zstd
            case None => r == Unsupported
            case Some(decode) =>
              match decode(frame, lsize)
              case None => r == Escaped
              case Some(out) => r == if |out| == lsize then Ok(out) else Corrupt
  {
    hide Be, BeBytes;
    assert Base256(4) == TWO_32;
    BeRoundTrip(|frame|, 4);
    var src := BeBytes(|frame|, 4) + info + frame + padding;
    assert src[..4] == BeBytes(|frame|, 4) && src[8..8 + |frame|] == frame;
  }

  lemma UnknownCode(f: Foreign, kind: nat, src: seq<Byte>, lsize: nat)
    requires kind > 16
    ensures Decompress(f, kind, src, lsize) == Unsupported
  {
  }
}
