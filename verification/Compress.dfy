/** ZLE, and the choice of a decoder by the compression field of a block pointer. */
module Compress {
  import opened Bytes
  import opened Codec
  import Lz4
  import Lzjb

  // ----- ZLE -----

  function Zle(src: seq<Byte>, pos: nat, out: seq<Byte>, dLen: nat): (r: Decoded)
    ensures r.Corrupt? || (r.Ok? && |r.data| == dLen)
    decreases |src| - pos
  {
    if pos < |src| && |out| < dLen then
      var length: nat := 1 + src[pos] as int;
      if length <= 64 then
        if pos + 1 + length > |src| || |out| + length > dLen then Corrupt
        else Zle(src, pos + 1 + length, out + src[pos + 1..pos + 1 + length], dLen)
      else if |out| + (length - 64) > dLen then Corrupt
      else Zle(src, pos + 1, out + Zeros(length - 64), dLen)
    else if |out| == dLen then Ok(out)
    else Corrupt
  }

  method ZleDecompress(src: seq<Byte>, dLen: nat) returns (r: Decoded)
    ensures r == Zle(src, 0, [], dLen)
  {
    var out: seq<Byte> := [];
    var s := 0;
    while s < |src| && |out| < dLen
      invariant Zle(src, s, out, dLen) == Zle(src, 0, [], dLen)
      decreases |src| - s
    {
      var length: nat := 1 + src[s] as int;
      s := s + 1;
      if length <= 64 {
        if s + length > |src| || |out| + length > dLen { return Corrupt; }
        out := out + src[s..s + length];
        s := s + length;
      } else {
        length := length - 64;
        if |out| + length > dLen { return Corrupt; }
        out := out + Zeros(length);
      }
    }
    if |out| != dLen { return Corrupt; }
    r := Ok(out);
  }

  datatype Run = Literals(bytes: seq<Byte>) | Blank(count: nat)

  predicate Coded(r: Run)
  {
    match r
    case Literals(bytes) => 1 <= |bytes| <= 64
    case Blank(count) => 1 <= count <= 192
  }

  predicate Valid(rs: seq<Run>) { forall r :: r in rs ==> Coded(r) }

  function EncodeRun(r: Run): (e: seq<Byte>)
    requires Coded(r)
    ensures |e| >= 1
  {
    match r
    case Literals(bytes) => [(|bytes| - 1) as Byte] + bytes
    case Blank(count) => [(count + 63) as Byte]
  }

  function Encode(rs: seq<Run>): seq<Byte>
    requires Valid(rs)
  {
    if rs == [] then [] else EncodeRun(rs[0]) + Encode(rs[1..])
  }

  function Meaning(r: Run): seq<Byte>
  {
    match r
    case Literals(bytes) => bytes
    case Blank(count) => Zeros(count)
  }

  function Expand(rs: seq<Run>): seq<Byte>
  {
    if rs == [] then [] else Meaning(rs[0]) + Expand(rs[1..])
  }

  /** One turn of the loop undoes the encoding of one run, when the run fits. */
  lemma TurnOnRun(src: seq<Byte>, pos: nat, out: seq<Byte>, dLen: nat, r: Run)
    requires Coded(r) && Stands(src, pos, EncodeRun(r)) && |out| < dLen
    ensures var out' := out + Meaning(r);
            Zle(src, pos, out, dLen)
            == if |out'| > dLen then Corrupt else Zle(src, pos + |EncodeRun(r)|, out', dLen)
  {
    var e := EncodeRun(r);
    assert src[pos..pos + |e|][0] == e[0];
    if r.Literals? {
      StandsSplit(src, pos, [e[0]], r.bytes);
    }
  }

  lemma MeansSomething(r: Run)
    requires Coded(r)
    ensures |Meaning(r)| >= 1
  {
  }

  lemma ExpandStep(rs: seq<Run>, k: nat)
    requires 0 < k <= |rs|
    ensures Expand(rs[..k]) == Meaning(rs[0]) + Expand(rs[1..][..k - 1])
  {
    assert rs[..k][1..] == rs[1..][..k - 1];
  }

  /** Where the requested length is the end of a run, decoding gives all runs up to it. */
  lemma {:induction false} ZleFits(src: seq<Byte>, pos: nat, rs: seq<Run>, out: seq<Byte>, dLen: nat, k: nat)
    requires Valid(rs) && Stands(src, pos, Encode(rs))
    requires k <= |rs| && |out| + |Expand(rs[..k])| == dLen
    ensures Zle(src, pos, out, dLen) == Ok(out + Expand(rs[..k]))
    decreases |rs|
  {
    hide EncodeRun, Meaning;
    if k == 0 {
      assert out + Expand(rs[..0]) == out;
    } else {
      var first, rest, more := rs[0], rs[1..], Expand(rs[1..][..k - 1]);
      ExpandStep(rs, k);
      StandsSplit(src, pos, EncodeRun(first), Encode(rest));
      MeansSomething(first);
      TurnOnRun(src, pos, out, dLen, first);
      ZleFits(src, pos + |EncodeRun(first)|, rest, out + Meaning(first), dLen, k - 1);
      assert (out + Meaning(first)) + more == out + (Meaning(first) + more);
    }
  }

  /** Any other requested length is an error, unless padding follows to make it up. */
  lemma {:induction false} ZleMisfits(src: seq<Byte>, pos: nat, rs: seq<Run>, out: seq<Byte>, dLen: nat)
    requires Valid(rs) && Stands(src, pos, Encode(rs))
    requires pos + |Encode(rs)| == |src| || dLen <= |out| + |Expand(rs)|
    requires forall k :: 0 <= k <= |rs| ==> |out| + |Expand(rs[..k])| != dLen
    ensures Zle(src, pos, out, dLen) == Corrupt
    decreases |rs|
  {
    hide EncodeRun;
    assert |out| + |Expand(rs[..0])| != dLen;
    if rs != [] && |out| < dLen {
      StandsSplit(src, pos, EncodeRun(rs[0]), Encode(rs[1..]));
      TurnOnRun(src, pos, out, dLen, rs[0]);
      var out' := out + Meaning(rs[0]);
      forall k | 0 <= k <= |rs[1..]|
        ensures |out'| + |Expand(rs[1..][..k])| != dLen
      {
        ExpandStep(rs, k + 1);
        assert |out| + |Expand(rs[..k + 1])| != dLen;
      }
      if |out'| <= dLen {
        ZleMisfits(src, pos + |EncodeRun(rs[0])|, rs[1..], out', dLen);
      }
    }
  }

  /** The round trip of ZLE, whatever pads the stream up to the end of its sectors: a length within
      the meaning is accepted exactly when it is the end of a run, and then gives the bytes up to
      there. Without padding every other length is an error. */
  lemma {:induction false} ZleRoundTrip(rs: seq<Run>, padding: seq<Byte>, dLen: nat)
    requires Valid(rs)
    ensures var r := Zle(Encode(rs) + padding, 0, [], dLen);
            && (dLen <= |Expand(rs)| || padding == [] ==>
                  (r.Ok? <==> exists k :: 0 <= k <= |rs| && |Expand(rs[..k])| == dLen))
            && (forall k :: 0 <= k <= |rs| && |Expand(rs[..k])| == dLen ==> r == Ok(Expand(rs[..k])))
            && (dLen == |Expand(rs)| ==> r == Ok(Expand(rs)))
  {
    var src := Encode(rs) + padding;
    assert src[0..|Encode(rs)|] == Encode(rs) && rs[..|rs|] == rs;
    forall k | 0 <= k <= |rs| && |Expand(rs[..k])| == dLen
      ensures Zle(src, 0, [], dLen) == Ok(Expand(rs[..k]))
    {
      ZleFits(src, 0, rs, [], dLen, k);
      assert [] + Expand(rs[..k]) == Expand(rs[..k]);
    }
    if forall k :: 0 <= k <= |rs| ==> |Expand(rs[..k])| != dLen {
      if dLen <= |Expand(rs)| || padding == [] { ZleMisfits(src, 0, rs, [], dLen); }
    }
  }

  // ----- the choice of a decoder -----

  /** Foreign code: zlib (None is `zlib.error`), and zstd when its module is installed (None is
      an exception of that library, which nothing catches here). */
  datatype Foreign = Foreign(
    gunzip: seq<Byte> -> Option<seq<Byte>>,
    zstd: Option<(seq<Byte>, nat) -> Option<seq<Byte>>>)

  function OfLength(out: seq<Byte>, dLen: nat): (r: Decoded)
    ensures r.Ok? ==> |r.data| == dLen
  {
    if |out| == dLen then Ok(out) else Corrupt
  }

  function Gunzip(f: Foreign, src: seq<Byte>, dLen: nat): (r: Decoded)
    ensures r.Ok? ==> |r.data| == dLen
  {
    match f.gunzip(src)
    case None => Corrupt
    case Some(out) => OfLength(out, dLen)
  }

  function Unzstd(f: Foreign, src: seq<Byte>, dLen: nat): (r: Decoded)
    ensures r.Ok? ==> |r.data| == dLen
  {
    if f.zstd.None? then Unsupported
    else if |src| < 8 then Corrupt
    else
      var size := Be(src[..4]);
      if size + 8 > |src| then Corrupt
      else
        match f.zstd.value(src[8..8 + size], dLen)
        case None => Escaped
        case Some(out) => OfLength(out, dLen)
  }

  /** Whatever the algorithm, a success has exactly the logical size of the block. */
  function Decompress(f: Foreign, kind: nat, src: seq<Byte>, lsize: nat): (r: Decoded)
    ensures r.Ok? ==> |r.data| == lsize
  {
    if kind in {0, 1, 2} then
      if |src| < lsize then Corrupt else Ok(src[..lsize])
    else if kind == 4 then Ok(Zeros(lsize))
    else if kind == 3 then Lzjb.Decompress(src, lsize)
    else if 5 <= kind <= 13 then Gunzip(f, src, lsize)
    else if kind == 14 then Zle(src, 0, [], lsize)
    else if kind == 15 then Lz4.Decompress(src, lsize)
    else if kind == 16 then Unzstd(f, src, lsize)
    else Unsupported
  }

  method DecompressBlock(f: Foreign, kind: nat, src: seq<Byte>, lsize: nat) returns (r: Decoded)
    ensures r == Decompress(f, kind, src, lsize)
  {
    if kind in {0, 1, 2} {
      if |src| < lsize { return Corrupt; }
      r := Ok(src[..lsize]);
    } else if kind == 4 {
      r := Ok(Zeros(lsize));
    } else if kind == 3 {
      r := Lzjb.DecompressBlock(src, lsize);
    } else if 5 <= kind <= 13 {
      r := Gunzip(f, src, lsize);
    } else if kind == 14 {
      r := ZleDecompress(src, lsize);
    } else if kind == 15 {
      r := Lz4.DecompressBlock(src, lsize);
    } else if kind == 16 {
      r := Unzstd(f, src, lsize);
    } else {
      r := Unsupported;
    }
  }
}
