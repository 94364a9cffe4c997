/** Leaves of a fat ZAP: geometry, chains of array chunks, entries, and duplicates. */
module Zap {
  import opened Bytes

  const CHUNK_SIZE := 24
  const ARRAY_BYTES := 21
  const HEADER_SIZE := 48
  const CHAIN_END := 0xFFFF
  const CHUNK_ENTRY := 252
  const CHUNK_ARRAY := 251
  const LEAF_MAGIC := 0x2AB1EAF

  // ----- geometry -----

  /** Position of the highest bit set. */
  function Log2(n: nat): (b: nat)
    requires n > 0
    ensures Pow2(b) <= n < 2 * Pow2(b)
  {
    if n == 1 then 0 else 1 + Log2(n / 2)
  }

  datatype Geometry = Geometry(nhash: nat, nchunks: int)
  {
    function Base(): nat { HEADER_SIZE + 2 * nhash }
  }

  function LeafGeometry(size: nat): Geometry
    requires size >= 32
  {
    BigEnough(size);
    var nhash := Pow2(Log2(size) - 5);
    Geometry(nhash, (size - 2 * nhash) / CHUNK_SIZE - 2)
  }

  lemma {:induction false} BigEnough(size: nat)
    requires size >= 32
    ensures Log2(size) >= 5 && 32 * Pow2(Log2(size) - 5) <= size
  {
    hide Log2, Pow2;
    SmallPower(Log2(size));
    FiveMore(Log2(size));
  }

  lemma {:induction false} SmallPower(b: nat)
    ensures b < 5 ==> Pow2(b) <= 16
  {
    Powers();
    hide Pow2;
    if b < 5 {
      Pow2Add(b, 4 - b);
      MulMono(1, Pow2(4 - b), Pow2(b));
    }
  }

  lemma {:induction false} FiveMore(b: nat)
    ensures b >= 5 ==> Pow2(b) == 32 * Pow2(b - 5)
  {
    Powers();
    hide Pow2;
    if b >= 5 { Pow2Add(5, b - 5); }
  }

  lemma {:induction false} Powers()
    ensures Pow2(4) == 16 && Pow2(5) == 32
  {
  }

  /** The chunk area always fits in the block. */
  lemma ChunksFit(size: nat, chunk: nat)
    requires size >= 32 && chunk < LeafGeometry(size).nchunks
    ensures var g := LeafGeometry(size);
            g.Base() + (chunk + 1) * CHUNK_SIZE <= size
  {
    BigEnough(size);
  }

  /** As many chunks as fit: the hash table has 2 bytes for every 32 of the block (fewer when its size is not
      a power of two), the chunks of 24 bytes lie behind it and the header of 48, and what is left behind the
      last chunk is less than a chunk. */
  lemma {:induction false} NoChunkLeftOut(size: nat)
    requires size >= 32
    ensures var g := LeafGeometry(size);
            && 32 * g.nhash <= size < 64 * g.nhash && (exists k: nat :: g.nhash == Pow2(k))
            && g.Base() == 48 + 2 * g.nhash
            && 0 <= size - (48 + 2 * g.nhash + 24 * g.nchunks) < 24
  {
    hide Pow2;
    BigEnough(size);
    FiveMore(Log2(size));
  }

  // ----- chains -----

  datatype Array = Bytes(data: seq<Byte>) | OutOfBlock | NotAnArray | Looping

  /** The chunk area of a leaf. */
  predicate Area(data: seq<Byte>, base: nat, nchunks: int)
  {
    nchunks > 0 ==> base + nchunks * CHUNK_SIZE <= |data|
  }

  function Kind(data: seq<Byte>, base: nat, nchunks: int, chunk: nat): Byte
    requires Area(data, base, nchunks) && chunk < nchunks
  {
    data[base + chunk * CHUNK_SIZE]
  }

  function Payload(data: seq<Byte>, base: nat, nchunks: int, chunk: nat): (p: seq<Byte>)
    requires Area(data, base, nchunks) && chunk < nchunks
    ensures |p| == ARRAY_BYTES
  {
    var off := base + chunk * CHUNK_SIZE;
    data[off + 1..off + 1 + ARRAY_BYTES]
  }

  function Next(data: seq<Byte>, base: nat, nchunks: int, chunk: nat): nat
    requires Area(data, base, nchunks) && chunk < nchunks
  {
    var off := base + chunk * CHUNK_SIZE + 1 + ARRAY_BYTES;
    Le(data[off..off + 2])
  }

  function Follow(data: seq<Byte>, base: nat, nchunks: int, chunk: nat, n: nat, out: seq<Byte>, guard: nat): Array
    requires Area(data, base, nchunks) && (nchunks >= 0 ==> guard <= nchunks)
    decreases Max(nchunks, 0) - guard
  {
    if chunk == CHAIN_END || |out| >= n then Bytes(out[..Min(n, |out|)])
    else if chunk >= nchunks then OutOfBlock
    else if Kind(data, base, nchunks, chunk) != CHUNK_ARRAY then NotAnArray
    else if guard + 1 > nchunks then Looping
    else Follow(data, base, nchunks, Next(data, base, nchunks, chunk), n,
                out + Payload(data, base, nchunks, chunk), guard + 1)
  }

  function ArrayBytes(data: seq<Byte>, base: nat, nchunks: int, first: nat, n: nat): Array
    requires Area(data, base, nchunks)
  {
    Follow(data, base, nchunks, first, n, [], 0)
  }

  /** `_array_bytes`: follows the chain, with a guard against loops. */
  method ReadArray(data: seq<Byte>, base: nat, nchunks: int, first: nat, n: nat) returns (r: Array)
    requires Area(data, base, nchunks)
    ensures r == ArrayBytes(data, base, nchunks, first, n)
  {
    hide Le;
    var out: seq<Byte> := [];
    var chunk: nat := first;
    var guard: nat := 0;
    while chunk != CHAIN_END && |out| < n
      invariant nchunks >= 0 ==> guard <= nchunks
      invariant Follow(data, base, nchunks, chunk, n, out, guard) == ArrayBytes(data, base, nchunks, first, n)
      decreases Max(nchunks, 0) - guard
    {
      if chunk >= nchunks { return OutOfBlock; }
      var off := base + chunk * CHUNK_SIZE;
      if data[off] != CHUNK_ARRAY { return NotAnArray; }
      out := out + data[off + 1..off + 1 + ARRAY_BYTES];
      chunk := Le(data[off + 1 + ARRAY_BYTES..off + 1 + ARRAY_BYTES + 2]);
      guard := guard + 1;
      if guard > nchunks { return Looping; }
    }
    r := Bytes(out[..Min(n, |out|)]);
  }

  // ----- a writer of chains -----

  /** `bytes` are spread over the chunks `ids`, 21 to a chunk, each chunk naming the next; what
      the last chunk holds beyond them, and names, is free. */
  predicate Spread(data: seq<Byte>, base: nat, nchunks: int, ids: seq<nat>, bytes: seq<Byte>)
    requires Area(data, base, nchunks)
  {
    if bytes == [] then ids == []
    else
      && ids != [] && ids[0] < nchunks && ids[0] != CHAIN_END
      && Kind(data, base, nchunks, ids[0]) == CHUNK_ARRAY
      && Payload(data, base, nchunks, ids[0])[..Min(ARRAY_BYTES, |bytes|)] == bytes[..Min(ARRAY_BYTES, |bytes|)]
      && Spread(data, base, nchunks, ids[1..], bytes[Min(ARRAY_BYTES, |bytes|)..])
      && (|ids| > 1 ==> Next(data, base, nchunks, ids[0]) == ids[1])
  }

  lemma {:induction false} FollowSpread(data: seq<Byte>, base: nat, nchunks: int, ids: seq<nat>, bytes: seq<Byte>,
                                        chunk: nat, out: seq<Byte>, guard: nat)
    requires Area(data, base, nchunks) && Spread(data, base, nchunks, ids, bytes)
    requires ids != [] ==> chunk == ids[0]
    requires guard + |ids| <= Max(nchunks, 0) && (nchunks >= 0 ==> guard <= nchunks)
    ensures Follow(data, base, nchunks, chunk, |out| + |bytes|, out, guard) == Bytes(out + bytes)
    decreases |ids|
  {
    hide Kind, Next;
    if bytes == [] {
      assert out + bytes == out;
    } else {
      var p := Payload(data, base, nchunks, ids[0]);
      var here := Min(ARRAY_BYTES, |bytes|);
      var rest := bytes[here..];
      assert bytes == p[..here] + rest;
      if rest == [] {
        var all := out + p;
        assert all[..|out| + |bytes|] == out + bytes;
      } else {
        assert here == ARRAY_BYTES && p[..here] == p;
        FollowSpread(data, base, nchunks, ids[1..], rest, Next(data, base, nchunks, ids[0]), out + p, guard + 1);
        assert (out + p) + rest == out + bytes;
      }
    }
  }

  /** Reading a chain gives exactly the bytes that were spread over it. */
  lemma {:induction false} ReadsSpread(data: seq<Byte>, base: nat, nchunks: int, ids: seq<nat>, bytes: seq<Byte>,
                                       first: nat)
    requires Area(data, base, nchunks) && Spread(data, base, nchunks, ids, bytes)
    requires ids != [] ==> first == ids[0]
    requires forall i, j :: 0 <= i < j < |ids| ==> ids[i] != ids[j]
    ensures ArrayBytes(data, base, nchunks, first, |bytes|) == Bytes(bytes)
  {
    SpreadIds(data, base, nchunks, ids, bytes);
    if |ids| > Max(nchunks, 0) {
      var i, j := Pigeonhole(ids, Max(nchunks, 0));
    }
    FollowSpread(data, base, nchunks, ids, bytes, first, [], 0);
    assert [] + bytes == bytes;
  }

  lemma {:induction false} SpreadIds(data: seq<Byte>, base: nat, nchunks: int, ids: seq<nat>, bytes: seq<Byte>)
    requires Area(data, base, nchunks) && Spread(data, base, nchunks, ids, bytes)
    ensures forall i :: 0 <= i < |ids| ==> ids[i] < nchunks
    decreases |ids|
  {
    hide Kind, Next, Payload;
    if bytes != [] {
      SpreadIds(data, base, nchunks, ids[1..], bytes[Min(ARRAY_BYTES, |bytes|)..]);
      assert ids == [ids[0]] + ids[1..];
    }
  }

  /** Among more than n numbers below n, two are equal. */
  lemma {:induction false} Pigeonhole(s: seq<nat>, n: nat) returns (i: nat, j: nat)
    requires |s| > n && forall k :: 0 <= k < |s| ==> s[k] < n
    ensures i < j < |s| && s[i] == s[j]
    decreases n
  {
    var last := |s| - 1;
    if k :| 0 <= k < last && s[k] == s[last] {
      i, j := k, last;
    } else {
      // Give the largest number's place to the last element's value.
      var t := seq(last, k requires 0 <= k < last => if s[k] == n - 1 then s[last] else s[k]);
      i, j := Pigeonhole(t, n - 1);
    }
  }

  // ----- the guard -----

  /** The chunk is one the reader can pass through. */
  predicate Live(data: seq<Byte>, base: nat, nchunks: int, chunk: nat)
    requires Area(data, base, nchunks)
  {
    chunk != CHAIN_END && chunk < nchunks && Kind(data, base, nchunks, chunk) == CHUNK_ARRAY
  }

  /** The chunk reached after `k` links, as long as all are live. */
  function Walk(data: seq<Byte>, base: nat, nchunks: int, first: nat, k: nat): nat
    requires Area(data, base, nchunks)
  {
    if k == 0 then first
    else
      var before := Walk(data, base, nchunks, first, k - 1);
      if Live(data, base, nchunks, before) then Next(data, base, nchunks, before) else before
  }

  lemma {:induction false} WalkShift(data: seq<Byte>, base: nat, nchunks: int, first: nat, k: nat)
    requires Area(data, base, nchunks) && Live(data, base, nchunks, first)
    ensures Walk(data, base, nchunks, Next(data, base, nchunks, first), k) == Walk(data, base, nchunks, first, k + 1)
  {
    hide Live, Next;
    if k > 0 {
      WalkShift(data, base, nchunks, first, k - 1);
    } else {
      assert Walk(data, base, nchunks, first, 0) == first;
    }
  }

  /** All chunks up to the k-th are live. */
  predicate LiveUpTo(data: seq<Byte>, base: nat, nchunks: int, first: nat, k: nat)
    requires Area(data, base, nchunks)
  {
    forall i: nat :: i <= k ==> Live(data, base, nchunks, Walk(data, base, nchunks, first, i))
  }

  lemma LiveShift(data: seq<Byte>, base: nat, nchunks: int, first: nat, k: nat)
    requires Area(data, base, nchunks) && Live(data, base, nchunks, first)
    ensures LiveUpTo(data, base, nchunks, Next(data, base, nchunks, first), k) <==>
            LiveUpTo(data, base, nchunks, first, k + 1)
  {
    hide Kind, Next, Walk;
    var next := Next(data, base, nchunks, first);
    assert Walk(data, base, nchunks, first, 0) == first by { WalkZero(data, base, nchunks, first); }
    forall i: nat
      ensures Walk(data, base, nchunks, next, i) == Walk(data, base, nchunks, first, i + 1)
    {
      WalkShift(data, base, nchunks, first, i);
    }
    if LiveUpTo(data, base, nchunks, next, k) {
      forall i: nat | i <= k + 1
        ensures Live(data, base, nchunks, Walk(data, base, nchunks, first, i))
      {
        if i > 0 { assert Live(data, base, nchunks, Walk(data, base, nchunks, next, i - 1)); }
      }
    }
    if LiveUpTo(data, base, nchunks, first, k + 1) {
      forall i: nat | i <= k
        ensures Live(data, base, nchunks, Walk(data, base, nchunks, next, i))
      {
        assert Live(data, base, nchunks, Walk(data, base, nchunks, first, i + 1));
      }
    }
  }

  lemma {:induction false} WalkZero(data: seq<Byte>, base: nat, nchunks: int, first: nat)
    requires Area(data, base, nchunks)
    ensures Walk(data, base, nchunks, first, 0) == first
  {
  }

  lemma {:induction false} GuardCounts(data: seq<Byte>, base: nat, nchunks: nat, chunk: nat, n: nat, out: seq<Byte>,
                                       guard: nat)
    requires Area(data, base, nchunks) && guard <= nchunks
    requires |out| == guard * ARRAY_BYTES
    ensures Follow(data, base, nchunks, chunk, n, out, guard) == Looping <==>
            n > nchunks * ARRAY_BYTES && LiveUpTo(data, base, nchunks, chunk, nchunks - guard)
    decreases nchunks - guard
  {
    hide Walk, Kind, Next, Payload;
    assert Walk(data, base, nchunks, chunk, 0) == chunk by { WalkZero(data, base, nchunks, chunk); }
    if Live(data, base, nchunks, chunk) && |out| < n {
      if guard < nchunks {
        GuardCounts(data, base, nchunks, Next(data, base, nchunks, chunk), n,
                    out + Payload(data, base, nchunks, chunk), guard + 1);
        LiveShift(data, base, nchunks, chunk, nchunks - guard - 1);
      }
    }
  }

  /** The chain comes back to a chunk it has passed. */
  ghost predicate Revisits(data: seq<Byte>, base: nat, nchunks: int, first: nat)
    requires Area(data, base, nchunks)
  {
    exists i: nat, j: nat :: i < j && LiveUpTo(data, base, nchunks, first, j)
      && Walk(data, base, nchunks, first, i) == Walk(data, base, nchunks, first, j)
  }

  lemma {:induction false} Periodic(data: seq<Byte>, base: nat, nchunks: int, first: nat, i: nat, j: nat, k: nat)
    requires Area(data, base, nchunks) && i < j && LiveUpTo(data, base, nchunks, first, j)
    requires Walk(data, base, nchunks, first, i) == Walk(data, base, nchunks, first, j)
    ensures Walk(data, base, nchunks, first, i + k) == Walk(data, base, nchunks, first, j + k)
    ensures Live(data, base, nchunks, Walk(data, base, nchunks, first, j + k))
    decreases k
  {
    hide Live, Next;
    if k > 0 {
      Periodic(data, base, nchunks, first, i, j, k - 1);
    } else {
      assert Live(data, base, nchunks, Walk(data, base, nchunks, first, j));
    }
    if k > 0 {
      if i + k <= j {
        assert Live(data, base, nchunks, Walk(data, base, nchunks, first, i + k));
      } else {
        Periodic(data, base, nchunks, first, i, j, i + k - j);
      }
    }
  }

  /** The guard fires exactly when the chain really comes back to a chunk it has passed, and
      more bytes are wanted than all chunks can hold; such a chain never ends. */
  lemma {:induction false} GuardIff(data: seq<Byte>, base: nat, nchunks: nat, first: nat, n: nat)
    requires Area(data, base, nchunks)
    ensures ArrayBytes(data, base, nchunks, first, n) == Looping <==>
            n > nchunks * ARRAY_BYTES && Revisits(data, base, nchunks, first)
    ensures Revisits(data, base, nchunks, first) ==>
            forall k: nat :: Live(data, base, nchunks, Walk(data, base, nchunks, first, k))
  {
    hide Live, Walk, Follow;
    GuardCounts(data, base, nchunks, first, n, [], 0);
    if Revisits(data, base, nchunks, first) {
      var i: nat, j: nat :| i < j && LiveUpTo(data, base, nchunks, first, j)
        && Walk(data, base, nchunks, first, i) == Walk(data, base, nchunks, first, j);
      forall k: nat
        ensures Live(data, base, nchunks, Walk(data, base, nchunks, first, k))
      {
        if k > j { Periodic(data, base, nchunks, first, i, j, k - j); }
      }
    }
    if LiveUpTo(data, base, nchunks, first, nchunks) {
      var s := seq(nchunks + 1, k requires 0 <= k <= nchunks => Walk(data, base, nchunks, first, k));
      LiveBelow(data, base, nchunks, s, first);
      var i, j := Pigeonhole(s, nchunks);
      assert LiveUpTo(data, base, nchunks, first, j);
    }
  }

  lemma {:induction false} LiveBelow(data: seq<Byte>, base: nat, nchunks: nat, s: seq<nat>, first: nat)
    requires Area(data, base, nchunks) && |s| == nchunks + 1 && LiveUpTo(data, base, nchunks, first, nchunks)
    requires forall k :: 0 <= k < |s| ==> s[k] == Walk(data, base, nchunks, first, k)
    ensures forall k :: 0 <= k < |s| ==> s[k] < nchunks
  {
    hide Walk;
    forall k | 0 <= k < |s|
      ensures s[k] < nchunks
    {
      assert Live(data, base, nchunks, Walk(data, base, nchunks, first, k));
    }
  }

  // ----- how a chain ends -----

  /** The chain from `first` runs through the live chunks `ids` and comes to `end`. */
  predicate RunsTo(data: seq<Byte>, base: nat, nchunks: int, first: nat, ids: seq<nat>, end: nat)
    requires Area(data, base, nchunks)
    decreases |ids|
  {
    if ids == [] then first == end
    else
      && first == ids[0] && Live(data, base, nchunks, first)
      && RunsTo(data, base, nchunks, Next(data, base, nchunks, first), ids[1..], end)
  }

  /** What the chunks hold. */
  function Held(data: seq<Byte>, base: nat, nchunks: int, ids: seq<nat>): seq<Byte>
    requires Area(data, base, nchunks) && forall i :: 0 <= i < |ids| ==> ids[i] < nchunks
  {
    if ids == [] then [] else Payload(data, base, nchunks, ids[0]) + Held(data, base, nchunks, ids[1..])
  }

  lemma {:induction false} FollowToEnd(data: seq<Byte>, base: nat, nchunks: int, first: nat, ids: seq<nat>, end: nat,
                                       n: nat, out: seq<Byte>, guard: nat)
    requires Area(data, base, nchunks) && RunsTo(data, base, nchunks, first, ids, end)
    requires guard + |ids| <= Max(nchunks, 0) && |out| + 21 * |ids| < n
    ensures forall i :: 0 <= i < |ids| ==> ids[i] < nchunks
    ensures var r := Follow(data, base, nchunks, first, n, out, guard);
            && (end == 0xFFFF ==> r == Bytes(out + Held(data, base, nchunks, ids)))
            && (end != 0xFFFF && end >= nchunks ==> r == OutOfBlock)
            && (end != 0xFFFF && end < nchunks && data[base + 24 * end] != 251 ==> r == NotAnArray)
    decreases |ids|
  {
    hide Payload, Next;
    if ids == [] {
      assert out + [] == out;
    } else {
      var next, p := Next(data, base, nchunks, first), Payload(data, base, nchunks, first);
      FollowToEnd(data, base, nchunks, next, ids[1..], end, n, out + p, guard + 1);
      assert ids == [ids[0]] + ids[1..];
      assert (out + p) + Held(data, base, nchunks, ids[1..]) == out + (p + Held(data, base, nchunks, ids[1..]));
    }
  }

  /** A chain that ends before all the wanted bytes are there: at its proper end it gives what its chunks
      hold; a chunk outside of the block, or one that is no array, is the error of that name. */
  lemma {:induction false} ChainEnds(data: seq<Byte>, base: nat, nchunks: int, first: nat, ids: seq<nat>, end: nat,
                                     n: nat)
    requires Area(data, base, nchunks) && RunsTo(data, base, nchunks, first, ids, end)
    requires |ids| <= Max(nchunks, 0) && 21 * |ids| < n
    ensures forall i :: 0 <= i < |ids| ==> ids[i] < nchunks
    ensures var r := ArrayBytes(data, base, nchunks, first, n);
            && (end == 0xFFFF ==> r == Bytes(Held(data, base, nchunks, ids)))
            && (end != 0xFFFF && end >= nchunks ==> r == OutOfBlock)
            && (end != 0xFFFF && end < nchunks && data[base + 24 * end] != 251 ==> r == NotAnArray)
  {
    hide Follow, Held, RunsTo;
    FollowToEnd(data, base, nchunks, first, ids, end, n, [], 0);
    assert forall s: seq<Byte> :: [] + s == s;
  }
}
