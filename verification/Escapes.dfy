/** When a reading raises: the copies that come after are never tried. */
module Escapes {
  import opened Bytes
  import opened Blkptr
  import opened PoolRead
  import opened Erasure
  import opened BlockIo
  import opened BlockProofs
  import opened Writing
  import opened Small
  import Lzjb
  import LzjbTokens
  import Compress

  const LZJB := 3
  const ZSTD := 16

  /** The stream of a LZJB block comes to a match at distance 0 while the output is short. */
  ghost predicate ZeroInStream(raw: seq<Byte>, lsize: nat)
  {
    exists n: nat :: LzjbTokens.ComesToZero(raw, LzjbTokens.START, [], lsize, n)
  }

  /** The zstd library is there, is called, and raises. */
  predicate ZstdRaises(f: Compress.Foreign, raw: seq<Byte>, lsize: nat)
  {
    && f.zstd.Some? && |raw| >= 8 && Be(raw[..4]) + 8 <= |raw|
    && f.zstd.value(raw[8..8 + Be(raw[..4])], lsize).None?
  }

  /** What makes a decoder raise something else than a decompression error. */
  ghost predicate DecoderRaises(env: Env, bp: BlockPointer, raw: seq<Byte>)
  {
    || (bp.Compress() == LZJB && ZeroInStream(raw, bp.Lsize()))
    || (bp.Compress() == ZSTD && ZstdRaises(env.foreign, raw, bp.Lsize()))
  }

  lemma DecodingRaises(env: Env, bp: BlockPointer, raw: seq<Byte>)
    ensures Decoding(env, bp, raw).Escaped? <==> DecoderRaises(env, bp, raw)
  {
    hide BlockPointer.Lsize, BlockPointer.Compress, Lzjb.Decompress, Lzjb.Decode, LzjbTokens.ComesToZero,
         LzjbTokens.Means;
    LzjbTokens.DecompressMeans(raw, bp.Lsize());
  }

  /** A copy makes the reading raise exactly when it can be read, has the right checksum, and is
      a LZJB stream that comes to distance 0, or a frame on which the zstd library raises. */
  lemma RaisesIff(env: Env, bp: BlockPointer, i: nat)
    requires Readied(env, bp) && bp.Psize() > 0 && i < |bp.dvas|
    ensures Raises(env, bp, i) <==>
            && CopyBytes(env, bp, i).Some?
            && Matches(env, bp, CopyBytes(env, bp, i).value)
            && DecoderRaises(env, bp, CopyBytes(env, bp, i).value)
  {
    hide CopyBytes, Matches, BlockPointer.Psize, Readied, Decoding, DecoderRaises;
    var copy := CopyBytes(env, bp, i);
    if copy.Some? { DecodingRaises(env, bp, copy.value); }
  }

  /** Exactly when `read_block` raises, for every pointer: an embedded payload on which the decoder
      raises, or a copy on which it does before any copy is usable. */
  lemma {:induction false} ReadingRaisesIff(env: Env, bp: BlockPointer)
    requires Readied(env, bp)
    ensures ReadBlock(env, bp).Raised? <==>
            || (bp.Embedded() && DecoderRaises(env, bp, bp.EmbeddedPayload()))
            || (Plain(bp) && CopyRaises(env, bp))
  {
    hide ReadBlock, DecoderRaises, CopyRaises, BlockPointer.EmbeddedPayload;
    if bp.Embedded() {
      EmbeddedOutcome(env, bp);
    } else if Plain(bp) {
      PlainRaises(env, bp);
    } else {
      OthersReturn(env, bp);
    }
  }

  lemma {:induction false} EmbeddedOutcome(env: Env, bp: BlockPointer)
    requires Readied(env, bp) && bp.Embedded()
    ensures ReadBlock(env, bp).Raised? <==> DecoderRaises(env, bp, bp.EmbeddedPayload())
  {
    hide DecoderRaises, BlockPointer.UsesCrypt, BlockPointer.IsGang, BlockPointer.Psize, BlockPointer.Compress,
         BlockPointer.Lsize, ReadCopies, BlockPointer.EmbeddedPayload, Compress.Decompress;
    DecodingRaises(env, bp, bp.EmbeddedPayload());
  }

  lemma OthersReturn(env: Env, bp: BlockPointer)
    requires Readied(env, bp) && !Plain(bp) && !bp.Embedded()
    ensures !ReadBlock(env, bp).Raised?
  {
    hide BlockPointer.Embedded, BlockPointer.UsesCrypt, BlockPointer.IsGang, BlockPointer.IsHole, ReadCopies;
  }

  /** A copy raises before any copy is usable. */
  ghost predicate CopyRaises(env: Env, bp: BlockPointer)
    requires Readied(env, bp)
  {
    bp.Psize() > 0 && exists i :: 0 <= i < |bp.dvas| && RaisesFirst(env, bp, i)
  }

  lemma {:induction false} PlainRaises(env: Env, bp: BlockPointer)
    requires Readied(env, bp) && Plain(bp)
    ensures ReadBlock(env, bp).Raised? <==> CopyRaises(env, bp)
  {
    hide ReadBlock, Plain, Usable, Raises, BlockPointer.Psize, Readied, First;
    ReadBlockOutcome(env, bp);
    FirstDecides(env, bp, 0);
    var k := First(env, bp, 0);
    if k < |bp.dvas| && Raises(env, bp, k) { assert RaisesFirst(env, bp, k); }
    if i :| 0 <= i < |bp.dvas| && RaisesFirst(env, bp, i) {
      NotBoth(env, bp, i);
      assert k == i;
    }
  }

  /** Copy `i` raises, and no copy before it is usable or raises. */
  ghost predicate RaisesFirst(env: Env, bp: BlockPointer, i: nat)
    requires Readied(env, bp) && bp.Psize() > 0 && i < |bp.dvas|
  {
    Raises(env, bp, i) && forall j :: 0 <= j < i ==> !Usable(env, bp, j) && !Raises(env, bp, j)
  }

  // ----- an embedded payload -----

  /** Three bytes of payload, LZJB, one byte when decompressed. */
  const EMBEDDED: seq<Word> :=
    [1, 0, 0, 0, 0, 0, 3 * TWO_32 + 0x80_0000_0000 + 2 * 0x200_0000, 0, 0, 0, 0, 0, 0, 0, 0, 0]

  lemma {:induction false} LowBytes(s: seq<Byte>)
    requires |s| == 8 && Le(s) == 1
    ensures s[0] == 1 && s[1] == s[2] == 0
  {
    var t := s[1..];
    assert Le(s) == s[0] as int + 256 * Le(t) && Le(t) == t[0] as int + 256 * Le(t[1..]);
    assert Le(t[1..]) == t[1..][0] as int + 256 * Le(t[1..][1..]);
  }

  /** A pointer with an embedded payload on which the reading raises. */
  lemma {:induction false} EmbeddedRaises(env: Env)
    requires env.pool.Valid() && env.pool.Aligned(Dva(1, 0))
    ensures var bp := FromWords(EMBEDDED);
            && Genuine(bp) && Readied(env, bp) && bp.Embedded() && bp.EmbeddedPayload() == [1, 0, 0]
            && ReadBlock(env, bp).Raised?
  {
    hide EncWords, WordAt, Le, FromWords, Genuine;
    var bp := FromWords(EMBEDDED);
    FirstBytes(EMBEDDED);
    EmbeddedFields(bp);
    hide BlockPointer.Embedded, BlockPointer.Compress, BlockPointer.Lsize, BlockPointer.EmbeddedPsize,
         BlockPointer.IsHole, ReadBlock, DecoderRaises;
    assert bp.EmbeddedPayload() == [1, 0, 0];
    LzjbTokens.EscapingStream();
    assert Decoding(env, bp, [1, 0, 0]).Escaped?;
    DecodingRaises(env, bp, [1, 0, 0]);
    EmbeddedOutcome(env, bp);
  }

  lemma EmbeddedFields(bp: BlockPointer)
    requires bp.prop == 3 * TWO_32 + 0x80_0000_0000 + 2 * 0x200_0000
    ensures bp.Embedded() && bp.Compress() == LZJB && bp.Lsize() == 1 && bp.EmbeddedPsize() == 3
  {
  }

  lemma {:induction false} FirstBytes(ws: seq<Word>)
    requires |ws| == 16 && ws[0] == 1
    ensures var bp := FromWords(ws);
            && Genuine(bp) && bp.prop == ws[6]
            && bp.dvas == [Dva(ws[0], ws[1]), Dva(ws[2], ws[3]), Dva(ws[4], ws[5])]
            && bp.raw[0] == 1 && bp.raw[1] == bp.raw[2] == 0
  {
    hide EncWords, Le;
    PointerReadsBack(ws);
    ParsedIsGenuine(EncWords(ws), 0);
    hide ParseBlkptr, Genuine;
    WordReadsBack(ws, [], 0);
    var raw := EncWords(ws);
    assert raw + [] == raw && raw[0..128] == raw;
    LowBytes(raw[0..8]);
  }

  // ----- a pointer of two copies -----

  /** 512 bytes, LZJB, no checksum, two copies. */
  const WORDS: seq<Word> :=
    [1, 0, 1, 8, 0, 0, 3 * TWO_32 + 2 * 0x100_0000_0000, 0, 0, 0, 0, 0, 0, 0, 0, 0]

  /** A stream that starts with a match at distance 0, up to the end of its sector. */
  function Escaping(): (b: seq<Byte>)
    ensures |b| == 512
  {
    [1, 0, 0] + Zeros(509)
  }

  /** A zero byte and `n` long copies of it. */
  function Copies(n: nat): (ts: seq<Lzjb.Token>)
    ensures |ts| == n && forall t :: t in ts ==> t == Lzjb.Match(1, 66)
  {
    seq(n, _ => Lzjb.Match(1, 66))
  }

  function Tokens(): seq<Lzjb.Token> { [Lzjb.Literal(0)] + Copies(8) }

  lemma {:induction false} CopiesMean(n: nat, out: seq<Byte>)
    requires out != []
    ensures Lzjb.Valid(Copies(n), |out|) && |Lzjb.Expand(Copies(n), out)| == |out| + 66 * n
    decreases n
  {
    if n > 0 {
      assert Copies(n)[1..] == Copies(n - 1);
      CopiesMean(n - 1, Lzjb.Apply(out, Copies(n)[0]));
    }
  }

  lemma {:induction false} BodiesAtMost(g: seq<Lzjb.Token>)
    requires forall t :: t in g ==> Lzjb.Coded(t)
    ensures |Lzjb.Bodies(g)| <= 2 * |g|
  {
    if g != [] { BodiesAtMost(g[1..]); }
  }

  lemma {:induction false} EncodeAtMost(ts: seq<Lzjb.Token>)
    requires forall t :: t in ts ==> Lzjb.Coded(t)
    ensures |Lzjb.Encode(ts)| <= 3 * |ts|
    decreases |ts|
  {
    hide Lzjb.Coded, Lzjb.Control;
    if ts != [] {
      var n := Min(8, |ts|);
      BodiesAtMost(ts[..n]);
      EncodeAtMost(ts[n..]);
    }
  }

  /** The good copy: the tokens, up to the end of the sector. */
  lemma {:induction false} GoodCopy() returns (good: seq<Byte>)
    ensures |good| == 512 && Lzjb.Decompress(good, 512).Ok?
  {
    hide Lzjb.Decompress, Lzjb.Encode;
    var ts := Tokens();
    assert ts[0] == Lzjb.Literal(0) && ts[1..] == Copies(8);
    CopiesMean(8, [0]);
    assert Lzjb.Apply([], ts[0]) == [0];
    assert Lzjb.Valid(ts, 0) && |Lzjb.Expand(ts, [])| == 1 + 66 * 8;
    Lzjb.ValidIsCoded(ts, 0);
    EncodeAtMost(ts);
    var padding := Zeros(512 - |Lzjb.Encode(ts)|);
    Lzjb.RoundTrip(ts, padding, 512);
    good := Lzjb.Encode(ts) + padding;
  }

  lemma {:induction false} BadCopy()
    ensures Lzjb.Decompress(Escaping(), 512).Escaped?
  {
    hide Lzjb.Decode;
    var b := Escaping();
    assert b[0] == 1 && b[1..3] == [0, 0];
    assert Be(b[1..3]) == 0 by { assert b[1..3] == Zeros(2); Zero2(); }
    LzjbTokens.TurnOnToken(b, LzjbTokens.START, [], 512);
  }

  lemma Zero2()
    ensures Be(Zeros(2)) == 0
  {
    assert Zeros(2)[..1] == [0] && Be([0]) == 0;
  }

  lemma {:induction false} PointerFields()
    ensures Genuine(FromWords(WORDS)) && Plain(FromWords(WORDS))
    ensures FromWords(WORDS).dvas == [FIRST, SECOND, Dva(0, 0)]
    ensures FromWords(WORDS).Psize() == 512 && FromWords(WORDS).Lsize() == 512 && FromWords(WORDS).Compress() == LZJB
    ensures FromWords(WORDS).Checksum() == 2
  {
    hide EncWords, WordAt;
    PointerReadsBack(WORDS);
    ParsedIsGenuine(EncWords(WORDS), 0);
    hide ParseBlkptr, Genuine;
    assert FromWords(WORDS).prop == 3 * TWO_32 + 2 * 0x100_0000_0000;
    assert FIRST in FromWords(WORDS).dvas;
  }

  /** Copy `i` reads as what was written on it. */
  lemma {:induction false} CopyIs(env: Env, pool: Pool, ws: seq<Placed>, i: nat)
    requires pool.Valid() && AllOn(pool, ws) && AllClear(pool, ws) && env.pool == WriteAll(pool, ws)
    requires i < |ws| && Unreadable(pool, ws[i].dva, ws[i].psize) == {}
    requires Readied(env, FromWords(WORDS)) && i < |FromWords(WORDS).dvas| && FromWords(WORDS).dvas[i] == ws[i].dva
    requires FromWords(WORDS).Psize() == ws[i].psize == |ws[i].block| && !ws[i].dva.Gang() && !ws[i].dva.IsEmpty()
    ensures CopyBytes(env, FromWords(WORDS), i) == Some(ws[i].block)
  {
    hide Stored, Unreadable, ReadDva, WriteAll, FromWords, AllClear, BlockPointer.Psize, Pool.LayoutOf;
    WriteAllStores(pool, ws, i);
    ErasureRecovery(env.pool, ws[i].dva, ws[i].psize, ws[i].block);
    NothingUnreadable(env.pool, ws[i].dva, ws[i].psize);
    assert ws[i].block[..ws[i].psize] == ws[i].block;
  }

  lemma NothingUnreadable(pool: Pool, dva: Dva, psize: nat)
    requires pool.Valid() && pool.Aligned(dva) && psize > 0 && Unreadable(pool, dva, psize) == {}
    ensures Readable(pool, dva, psize)
  {
    hide Unreadable;
  }

  /** A reading that raises although a copy is good: on two healthy children, the first copy comes
      to a match at distance 0, and the second, which is never tried, reads, verifies and
      decompresses. */
  lemma {:induction false} GoodCopyNotTried() returns (env: Env, bp: BlockPointer)
    ensures Readied(env, bp) && Plain(bp) && Genuine(bp) && bp.Psize() > 0 && |bp.dvas| == 3
    ensures Raises(env, bp, 0) && Usable(env, bp, 1)
    ensures ReadBlock(env, bp).Raised?
  {
    hide ReadBlock, WriteAll, Unreadable, Pool.LayoutOf, AllOn, AllClear, CopyBytes, Lzjb.Decompress, Genuine,
         BlockPointer.Psize, BlockPointer.Lsize, BlockPointer.Compress, BlockPointer.Checksum, FromWords, Plain;
    var good := GoodCopy();
    BadCopy();
    var ws := TwoBlocks(Escaping(), good);
    var pool := SmallPool(Escaping(), good);
    assert Pow2(9) == 512;
    WriteAllStores(pool, ws, 0);
    WriteAllStores(pool, ws, 1);
    env := Env(WriteAll(pool, ws), _ => (0, 0, 0, 0), Compress.Foreign(_ => None, None), 0);
    bp := FromWords(WORDS);
    PointerFields();
    CopyIs(env, pool, ws, 0);
    CopyIs(env, pool, ws, 1);
    ReadBlockOutcome(env, bp);
    assert First(env, bp, 0) == 0;
  }
}
