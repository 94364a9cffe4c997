/** What the decoders share: outcomes, overlapping copies, and pieces of a source buffer. */
module Codec {
  import opened Bytes

  /** The outcome of a decoder: bytes, `DecompressionError`, `CompressionNonSupportee`, or
      another exception that escapes from it. */
  datatype Decoded = Ok(data: seq<Byte>) | Corrupt | Unsupported | Escaped

  /** `out` extended by `len` bytes, each equal to the one `offset` places before it. */
  function Copy(out: seq<Byte>, offset: nat, len: nat): (r: seq<Byte>)
    requires 1 <= offset <= |out|
    ensures |r| == |out| + len && r[..|out|] == out
  {
    if len == 0 then out
    else
      var r := Copy(out, offset, len - 1);
      r + [r[|r| - offset]]
  }

  /** The copied bytes repeat the last `offset` bytes of the output periodically. */
  lemma {:induction false} CopyIsPeriodic(out: seq<Byte>, offset: nat, len: nat, i: nat)
    requires 1 <= offset <= |out| && i < len
    ensures Copy(out, offset, len)[|out| + i] == out[|out| - offset + i % offset]
    decreases len
  {
    hide Copy;
    var r, n := Copy(out, offset, len - 1), |out|;
    CopyLast(out, offset, len, i);
    if i < len - 1 {
      CopyIsPeriodic(out, offset, len - 1, i);
    } else if i < offset {
      SmallMod(i, offset);
      assert r[..n][n - offset + i] == r[n - offset + i];
    } else {
      CopyIsPeriodic(out, offset, len - 1, i - offset);
      ModShift(i, offset);
    }
  }

  /** The last byte of a copy is the one `offset` places before it; the others were there. */
  lemma CopyLast(out: seq<Byte>, offset: nat, len: nat, i: nat)
    requires 1 <= offset <= |out| && i < len
    ensures var r, n := Copy(out, offset, len - 1), |out|;
            Copy(out, offset, len)[n + i] == if i < len - 1 then r[n + i] else r[n + i - offset]
  {
  }

  lemma ModShift(i: nat, n: nat)
    requires 0 < n <= i
    ensures i % n == (i - n) % n
  {
    DivAddMul(i - n, 1, n);
  }

  lemma SmallMod(i: nat, n: nat)
    requires i < n
    ensures i % n == i
  {
    DivModUnique(i, n, 0, i);
  }

  lemma {:induction false} CopyPrefix(out: seq<Byte>, offset: nat, len: nat, less: nat)
    requires 1 <= offset <= |out| && less <= len
    ensures Copy(out, offset, len)[..|out| + less] == Copy(out, offset, less)
  {
    if less < len {
      CopyPrefix(out, offset, len - 1, less);
    }
  }

  /** `piece` stands in `src` at `pos`. */
  predicate Stands(src: seq<Byte>, pos: nat, piece: seq<Byte>)
  {
    pos + |piece| <= |src| && src[pos..pos + |piece|] == piece
  }

  lemma StandsInside(src: seq<Byte>, pos: nat, piece: seq<Byte>)
    requires Stands(src, pos, piece)
    ensures pos + |piece| <= |src| && src[pos..pos + |piece|] == piece
  {
  }

  lemma StandsSplit(src: seq<Byte>, pos: nat, a: seq<Byte>, b: seq<Byte>)
    requires Stands(src, pos, a + b)
    ensures Stands(src, pos, a) && Stands(src, pos + |a|, b)
  {
    var t := src[pos..pos + |a + b|];
    assert t[..|a|] == a && t[|a|..] == b;
  }
}
