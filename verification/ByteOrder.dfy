/** Blocks and checksums as machines of either byte order write them, and their verification. */
module ByteOrder {
  import opened Bytes
  import opened Blkptr
  import opened Checksum
  import opened BlockIo
  import opened BlockProofs

  /** The bytes of one word on a machine that puts the highest byte first, or the lowest. */
  function Stored(w: nat, width: nat, bigEndian: bool): (s: seq<Byte>)
    ensures |s| == width
  {
    if bigEndian then BeBytes(w, width) else LeBytes(w, width)
  }

  /** A block of words, as such a machine writes it. */
  function Block(ws: seq<nat>, width: nat, bigEndian: bool): (e: seq<Byte>)
    ensures |e| == |ws| * width
  {
    if ws == [] then []
    else
      Distribute(|ws| - 1, 1, width);
      Block(ws[..|ws| - 1], width, bigEndian) + Stored(ws[|ws| - 1], width, bigEndian)
  }

  predicate Below(ws: seq<nat>, bound: nat) { forall w :: w in ws ==> w < bound }

  lemma {:induction false} StoredWord(w: nat, width: nat, bigEndian: bool)
    requires w < Base256(width)
    ensures WordOf(Stored(w, width, bigEndian), bigEndian) == w
  {
    BeRoundTrip(w, width);
    LeRoundTrip(w, width);
  }

  lemma {:induction false} WordStands(ws: seq<nat>, more: seq<Byte>, width: nat, bigEndian: bool, i: nat)
    requires width > 0 && Below(ws, Base256(width)) && i < |ws|
    ensures |Block(ws, width, bigEndian) + more| / width >= |ws|
    ensures WordIn(Block(ws, width, bigEndian) + more, width, bigEndian, i) == ws[i]
  {
    hide Stored, WordOf, Base256;
    var n := |ws| - 1;
    var data, last := Block(ws, width, bigEndian) + more, Stored(ws[n], width, bigEndian);
    Fits(|data|, |ws|, width);
    if i < n {
      assert forall w :: w in ws[..n] ==> w in ws;
      WordStands(ws[..n], last + more, width, bigEndian, i);
      assert data == Block(ws[..n], width, bigEndian) + (last + more);
    } else {
      assert ws[n] in ws;
      StoredWord(ws[n], width, bigEndian);
      assert data[n * width..n * width + width] == last;
    }
  }

  lemma Fits(n: nat, k: nat, width: nat)
    requires width > 0 && k * width <= n
    ensures n / width >= k
  {
    if n / width < k {
      MulMono(n / width + 1, k, width);
      Distribute(n / width, 1, width);
    }
  }

  /** The words of a written block are read back when it is read in the order it was written in; a
      tail of less than a word is ignored. */
  lemma {:induction false} WordsReadBack(ws: seq<nat>, tail: seq<Byte>, width: nat, bigEndian: bool)
    requires width > 0 && Below(ws, Base256(width)) && |tail| < width
    ensures Words(Block(ws, width, bigEndian) + tail, width, bigEndian) == ws
  {
    hide WordIn, Base256;
    var data := Block(ws, width, bigEndian) + tail;
    DivModUnique(|data|, width, |ws|, |tail|);
    forall i | 0 <= i < |ws|
      ensures Words(data, width, bigEndian)[i] == ws[i]
    {
      WordStands(ws, tail, width, bigEndian, i);
    }
  }

  // ----- checksums in pointers of the other order -----

  /** A word written by a machine of the other byte order, as this one reads it. */
  function Foreign(w: Word): Word
  {
    assert Base256(8) == TWO_64;
    Le(BeBytes(w, 8))
  }

  function AsRead(c: Cksum, foreign: bool): Cksum
  {
    if foreign then (Foreign(c.0), Foreign(c.1), Foreign(c.2), Foreign(c.3)) else c
  }

  lemma {:induction false} LeBytesOf(s: seq<Byte>)
    ensures LeBytes(Le(s), |s|) == s
  {
    if s != [] {
      var rest := Le(s[1..]);
      LeBytesOf(s[1..]);
      DivModUnique(s[0] + 256 * rest, 256, rest, s[0]);
      assert [s[0]] + s[1..] == s;
    }
  }

  lemma {:induction false} SwapsBack(w: Word)
    ensures ByteSwap64(Foreign(w)) == w
  {
    assert Base256(8) == TWO_64;
    LeBytesOf(BeBytes(w, 8));
    BeRoundTrip(w, 8);
  }

  lemma {:induction false} ExpectedIsStored(c: Cksum, foreign: bool)
    ensures Expected(AsRead(c, foreign), foreign) == c
  {
    hide ByteSwap64, Foreign;
    SwapsBack(c.0);
    SwapsBack(c.1);
    SwapsBack(c.2);
    SwapsBack(c.3);
  }

  /** A block of 32-bit words and a Fletcher-4 checksum, both written by a machine of the same byte order
      or both by one of the other, verify exactly when the checksum is that of the words. */
  lemma {:induction false} Fletcher4Verifies(sha256: seq<Byte> -> Cksum, ws: seq<nat>, tail: seq<Byte>, c: Cksum,
                                             foreign: bool)
    requires Below(ws, 0x1_0000_0000) && |tail| < 4
    ensures Verify(sha256, 7, Block(ws, 4, foreign) + tail, AsRead(c, foreign), foreign)
         == Checked(Fletcher4Of(ws) == c, Fletcher4Of(ws))
  {
    hide Words, Block, Fletcher4Of, AsRead, Expected;
    assert Base256(4) == TWO_32;
    WordsReadBack(ws, tail, 4, foreign);
    ExpectedIsStored(c, foreign);
  }

  /** The same for 64-bit words and Fletcher-2. */
  lemma {:induction false} Fletcher2Verifies(sha256: seq<Byte> -> Cksum, ws: seq<nat>, tail: seq<Byte>, c: Cksum,
                                             foreign: bool)
    requires Below(ws, 0x1_0000_0000_0000_0000) && |tail| < 8
    ensures Verify(sha256, 6, Block(ws, 8, foreign) + tail, AsRead(c, foreign), foreign)
         == Checked(Fletcher2Of(ws) == c, Fletcher2Of(ws))
  {
    hide Words, Block, Fletcher2Of, AsRead, Expected;
    assert Base256(8) == TWO_64;
    WordsReadBack(ws, tail, 8, foreign);
    ExpectedIsStored(c, foreign);
  }

  /** The other kinds: SHA-256 (8) over the bytes, four kinds that check nothing, and none else. */
  lemma OtherKinds(sha256: seq<Byte> -> Cksum, kind: nat, data: seq<Byte>, c: Cksum, foreign: bool)
    requires kind != 6 && kind != 7
    ensures Verify(sha256, kind, data, AsRead(c, foreign), foreign)
         == if kind == 8 then Checked(sha256(data) == c, sha256(data))
            else if kind <= 2 || kind == 10 then Checked(true, AsRead(c, foreign))
            else Unsupported
  {
    hide AsRead, Expected;
    ExpectedIsStored(c, foreign);
  }

  // ----- the host -----

  /** A block of 32-bit words and its pointer, written by a machine whose byte order is the one that the
      pointer names: 1 puts the lowest byte first, 0 the highest. */
  predicate WellWritten(bp: BlockPointer, ws: seq<nat>, raw: seq<Byte>)
  {
    var bigEndian := bp.Byteorder() == 0;
    && bp.Checksum() == 7 && Below(ws, 0x1_0000_0000)
    && raw == Block(ws, 4, bigEndian) && bp.cksum == AsRead(Fletcher4Of(ws), bigEndian)
  }

  lemma {:induction false} LittleEndianHost(env: Env, bp: BlockPointer, ws: seq<nat>, raw: seq<Byte>)
    requires env.hostOrder == 1 && WellWritten(bp, ws, raw)
    ensures Matches(env, bp, raw)
  {
    hide Block, AsRead, Fletcher4Of, Checksum.Verify, BlockPointer.Checksum;
    assert bp.Byteorder() == 0 || bp.Byteorder() == 1;
    assert raw + [] == raw;
    Fletcher4Verifies(env.sha256, ws, [], Fletcher4Of(ws), bp.Byteorder() == 0);
  }

  /** A pointer of a little-endian machine to the block of one word, 1. */
  function OneWord(): BlockPointer
  {
    BlockPointer([], [], TWO_63 + 7 * 0x100_0000_0000, (1, 1, 1, 1))
  }

  lemma {:induction false} OneFletcher4(w: nat)
    requires w < TWO_64
    ensures Fletcher4Of([w]) == (w, w, w, w)
  {
    hide Weight, Weighted;
    WeightClosed(1);
    WeightsLow(1);
    OneWeighted(0, w);
    OneWeighted(1, w);
    OneWeighted(2, w);
    OneWeighted(3, w);
  }

  lemma {:induction false} OneWeighted(k: nat, w: nat)
    ensures Weighted(k, [w]) == w * Weight(k, 1)
  {
    hide Weight;
    assert [w][1..] == [];
  }

  lemma {:induction false} OneBlock(w: nat, bigEndian: bool)
    ensures Block([w], 4, bigEndian) == Stored(w, 4, bigEndian)
  {
    hide Stored;
    assert [w][..0] == [];
  }

  lemma {:induction false} OneWordIsWritten()
    ensures WellWritten(OneWord(), [1], [1, 0, 0, 0])
  {
    hide Block, Fletcher4Of, Stored;
    Numbers();
    OneBlock(1, false);
    OneFletcher4(1);
  }

  /** The number 1 on `n` more bytes than one, in both orders. */
  lemma {:induction false} OneLow(n: nat)
    ensures LeBytes(1, n + 1) == [1] + Zeros(n) && BeBytes(Base256(n), n + 1) == [1] + Zeros(n)
  {
    NoBytes(n);
    if n > 0 {
      OneLow(n - 1);
      assert [1] + Zeros(n - 1) + [0] == [1] + Zeros(n);
    }
  }

  lemma {:induction false} OneHigh(n: nat)
    ensures Be([1] + Zeros(n)) == Base256(n)
  {
    if n > 0 {
      OneHigh(n - 1);
      assert ([1] + Zeros(n))[..n] == [1] + Zeros(n - 1);
    }
  }

  lemma {:induction false} NoBytes(n: nat)
    ensures LeBytes(0, n) == Zeros(n)
  {
    if n > 0 {
      NoBytes(n - 1);
      assert [0] + Zeros(n - 1) == Zeros(n);
    }
  }

  lemma {:induction false} BigEndianHost(env: Env)
    requires env.hostOrder == 0
    ensures !Matches(env, OneWord(), [1, 0, 0, 0])
  {
    hide Words, Fletcher4Of, Block, Stored, Be, LeBytes, BeBytes, Zeros, Base256;
    var raw: seq<Byte> := [1, 0, 0, 0];
    Numbers();
    assert raw == Block([0x100_0000], 4, true) by { OneBlock(0x100_0000, true); }
    assert raw + [] == raw;
    WordsReadBack([0x100_0000], [], 4, true);
    OneFletcher4(0x100_0000);
  }

  lemma {:induction false} Numbers()
    ensures Stored(0x100_0000, 4, true) == Stored(1, 4, false) == [1, 0, 0, 0]
    ensures ByteSwap64(1) == 0x100_0000_0000_0000
    ensures Below([0x100_0000], Base256(4))
  {
    hide BeBytes, LeBytes, Be, Zeros;
    assert Base256(3) == 0x100_0000 && Base256(4) == TWO_32 && Base256(7) == 0x100_0000_0000_0000;
    OneLow(3);
    OneLow(7);
    OneHigh(7);
    assert [1] + Zeros(3) == [1, 0, 0, 0];
  }

  /** The words of a block are always unpacked as little-endian first, so its own byte order is
      recognised exactly on little-endian hosts: there every well-written block verifies, and on a
      big-endian host a valid block of a little-endian pool is refused. */
  lemma {:induction false} HostMustBeLittleEndian(env: Env)
    requires env.hostOrder == 0 || env.hostOrder == 1
    ensures (forall bp, ws, raw :: WellWritten(bp, ws, raw) ==> Matches(env, bp, raw)) <==> env.hostOrder == 1
  {
    hide Matches, WellWritten, OneWord;
    if env.hostOrder == 1 {
      forall bp, ws, raw | WellWritten(bp, ws, raw)
        ensures Matches(env, bp, raw)
      {
        LittleEndianHost(env, bp, ws, raw);
      }
    } else {
      OneWordIsWritten();
      BigEndianHost(env);
    }
  }
}
