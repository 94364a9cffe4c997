/** The reader of objects: block cache, tree descent, object contents, dnode table. */
module Dmu {
  import opened Bytes
  import opened Blkptr
  import opened PoolRead
  import opened BlockIo
  import opened Lru
  import opened Dnodes
  import opened Tree
  import opened Objects

  class DmuReader {
    const medium: Medium
    const cacheMax: nat
    var order: seq<Key>
    var entries: map<Key, BlockResult>
    var cacheBytes: nat
    var hits: nat
    var misses: nat

    ghost function Contents(): Cache
      reads this
    {
      Cache(order, entries)
    }

    /** Every entry is what the medium holds, and `cacheBytes` is the exact sum of the weights,
        within the budget. */
    ghost predicate Valid()
      reads this
    {
      Sound(Contents(), medium, cacheMax) && cacheBytes == Total(order, entries)
    }

    constructor (medium: Medium, cacheBytes: int)
      ensures Valid() && this.medium == medium && cacheMax == Max(cacheBytes, 0)
      ensures Contents() == NO_ENTRIES && hits == misses == 0
    {
      this.medium := medium;
      this.cacheMax := Max(cacheBytes, 0);
      this.order, this.entries, this.cacheBytes := [], map[], 0;
      this.hits, this.misses := 0, 0;
    }

    method ReadBp(bp: BlockPointer) returns (res: BlockResult)
      requires Valid() && Genuine(bp)
      modifies this
      ensures Valid() && res == medium(bp)
      ensures (Contents(), res) == Access(old(Contents()), medium, cacheMax, bp)
      ensures hits == old(hits) + (if bp.raw in old(entries) then 1 else 0)
      ensures misses == old(misses) + (if bp.raw in old(entries) then 0 else 1)
    {
      hide Sound, Genuine, Without;
      ghost var before := Contents();
      AccessLaws(before, medium, cacheMax, bp);
      assert Shaped(before) by { SoundIsShaped(before, medium, cacheMax); }
      if bp.raw in entries {
        res := entries[bp.raw];
        WithoutFacts(order, bp.raw, entries);
        TotalAppend(Without(order, bp.raw), bp.raw, entries);
        order := Without(order, bp.raw) + [bp.raw];
        hits := hits + 1;
        return;
      }
      misses := misses + 1;
      res := medium(bp);
      var weight := Weight(res);
      if weight > 0 && weight <= Max(cacheMax / 8, 1) {
        Append(before, bp.raw, res);
        TotalAppend(order, bp.raw, entries[bp.raw := res]);
        SameTotal(order, entries, entries[bp.raw := res]);
        entries := entries[bp.raw := res];
        order := order + [bp.raw];
        cacheBytes := cacheBytes + weight;
        EvictOldest();
      }
    }

    lemma SoundIsShaped(c: Cache, read: Medium, max: nat)
      requires Sound(c, read, max)
      ensures Shaped(c)
    {
    }

    /** `popitem(last=False)` while over budget. */
    method EvictOldest()
      requires Shaped(Contents()) && cacheBytes == Total(order, entries)
      modifies this`order, this`entries, this`cacheBytes
      ensures Shaped(Contents()) && cacheBytes == Total(order, entries)
      ensures Contents() == Evict(old(Contents()), cacheMax)
    {
      hide Total, Weight, Shaped;
      ShapedIsKeyed(Contents());
      while cacheBytes > cacheMax && order != []
        invariant Shaped(Contents()) && Keyed(order, entries) && cacheBytes == Total(order, entries)
        invariant Evict(Contents(), cacheMax) == Evict(old(Contents()), cacheMax)
        decreases |order|
      {
        DropOldest(Contents());
        var oldest := order[0];
        var weight := Weight(entries[oldest]);
        assert cacheBytes - weight == Total(order[1..], entries - {oldest});
        cacheBytes := cacheBytes - weight;
        order := order[1..];
        entries := entries - {oldest};
        assert Keyed(order, entries) by { ShapedIsKeyed(Contents()); }
      }
      assert order == [] ==> Total(order, entries) == 0 by { EmptyTotal(order, entries); }
    }

    ghost predicate Keyed(order: seq<Key>, entries: map<Key, BlockResult>)
    {
      forall k :: k in order ==> k in entries
    }

    lemma ShapedIsKeyed(c: Cache)
      requires Shaped(c)
      ensures Keyed(c.order, c.entries)
    {
    }

    lemma {:induction false} EmptyTotal(order: seq<Key>, entries: map<Key, BlockResult>)
      requires Keyed(order, entries)
      ensures order == [] ==> Total(order, entries) == 0
    {
    }

    /** `vider_cache` */
    method Clear()
      requires Valid()
      modifies this`order, this`entries, this`cacheBytes
      ensures Valid() && Contents() == NO_ENTRIES && cacheBytes == 0
    {
      hide Sound;
      order, entries, cacheBytes := [], map[], 0;
      EmptyIsSound(medium, cacheMax);
    }

    /** Descends the tree of indirect blocks, through the cache. */
    method FindBlockPointer(dn: Dnode, blkid: nat) returns (entry: Entry, path: Path)
      requires Valid() && WellFormed(dn)
      modifies this
      ensures Valid() && (entry, path) == BlockPointerFor(medium, dn, blkid)
    {
      hide Sound, Pow2, BlockPointer.IsHole, BlockResult.Ok, ParseBlkptr;
      path := [];
      if dn.nlevels == 0 { return Nowhere(Unknown), path; }
      if blkid > dn.maxblkid { return Nowhere(Unknown), path; }
      var level: nat := dn.nlevels - 1;
      var epbs: nat := Max(dn.Epbs(), 0);
      var top: nat := if level == 0 then blkid else blkid / Span(epbs, level);
      if top >= dn.nblkptr { return Nowhere(Unknown), path; }
      var bp := dn.blkptrs[top];
      path := [(level, top)];
      while level > 0
        invariant Valid() && Blkptr.Genuine(bp)
        invariant Descend(medium, epbs, bp, level, blkid, path) == BlockPointerFor(medium, dn, blkid)
        decreases level
      {
        if bp.IsHole() { return Pointer(bp), path; }
        var res := ReadBp(bp);
        if !res.Ok() || res.data.None? { return Nowhere(res.status), path; }
        level := level - 1;
        var index := (blkid / Span(epbs, level)) % Pow2(epbs);
        if (index + 1) * BLKPTR_SIZE > |res.data.value| { return Nowhere(Unknown), path; }
        ParsedIsGenuine(res.data.value, index * BLKPTR_SIZE);
        bp := ParseBlkptr(res.data.value, index * BLKPTR_SIZE);
        path := path + [(level, index)];
      }
      entry := Pointer(bp);
    }

    method ReadObjectBlock(dn: Dnode, blkid: nat) returns (b: ObjectBlock)
      requires Valid() && WellFormed(dn)
      modifies this
      ensures Valid() && b == BlockOf(medium, dn, blkid)
    {
      hide Sound, BlockPointer.IsHole, BlockResult.Ok;
      var entry, path := FindBlockPointer(dn, blkid);
      if entry.Nowhere? { return ObjectBlock(blkid, entry.status, None); }
      var bp := entry.bp;
      if bp.IsHole() { return ObjectBlock(blkid, Recovered, Some(Zeros(dn.Datablksize()))); }
      EntryIsGenuine(dn, blkid);
      var res := ReadBp(bp);
      var data := res.data;
      if res.Ok() && data.Some? && |data.value| < dn.Datablksize() {
        data := Some(data.value + Zeros(dn.Datablksize() - |data.value|));
      }
      b := ObjectBlock(blkid, res.status, if res.Ok() then data else None);
    }

    lemma EntryIsGenuine(dn: Dnode, blkid: nat)
      requires WellFormed(dn)
      ensures var e := BlockPointerFor(medium, dn, blkid).0;
              e.Pointer? ==> Blkptr.Genuine(e.bp)
    {
      if dn.nlevels > 0 && blkid <= dn.maxblkid {
        var level: nat, epbs: nat := dn.nlevels - 1, Max(dn.Epbs(), 0);
        var top := if level == 0 then blkid else blkid / Span(epbs, level);
        if top < dn.nblkptr {
          DescentIsGenuine(epbs, dn.blkptrs[top], level, blkid, [(level, top)]);
        }
      }
    }

    lemma {:induction false} DescentIsGenuine(epbs: nat, bp: BlockPointer, level: nat, blkid: nat, path: Path)
      requires Blkptr.Genuine(bp)
      ensures var e := Descend(medium, epbs, bp, level, blkid, path).0;
              e.Pointer? ==> Blkptr.Genuine(e.bp)
      decreases level
    {
      hide Pow2, Span, BlockPointer.IsHole, BlockResult.Ok, Blkptr.Genuine, ParseBlkptr;
      if level > 0 && !bp.IsHole() && medium(bp).Ok() && medium(bp).data.Some? {
        var data := medium(bp).data.value;
        var index := (blkid / Span(epbs, level - 1)) % Pow2(epbs);
        if (index + 1) * BLKPTR_SIZE <= |data| {
          ParsedIsGenuine(data, index * BLKPTR_SIZE);
          DescentIsGenuine(epbs, ParseBlkptr(data, index * BLKPTR_SIZE), level - 1, blkid,
                           path + [(level - 1, index)]);
        }
      }
    }

    /** Reads a whole object; a lost block is zeros in the buffer and its status in the list. */
    method ReadObject(dn: Dnode, size: Option<nat>, maxBlocks: Option<nat>)
      returns (data: seq<Byte>, blocks: seq<ObjectBlock>)
      requires Valid() && WellFormed(dn)
      modifies this
      ensures Valid()
      ensures data == Head(ObjectBytes(medium, dn, BlocksToRead(dn, maxBlocks)), size)
      ensures |blocks| == BlocksToRead(dn, maxBlocks)
      ensures forall i :: 0 <= i < |blocks| ==> blocks[i] == BlockOf(medium, dn, i)
    {
      hide Sound, BlockOf, Valid, WellFormed, Head, BlocksToRead;
      data, blocks := [], [];
      var n := BlocksToRead(dn, maxBlocks);
      var blkid := 0;
      while blkid < n
        invariant Valid() && 0 <= blkid <= n && |blocks| == blkid
        invariant data == ObjectBytes(medium, dn, blkid)
        invariant forall i :: 0 <= i < blkid ==> blocks[i] == BlockOf(medium, dn, i)
      {
        var b := ReadObjectBlock(dn, blkid);
        blocks := blocks + [b];
        data := data + (if b.data.Some? then b.data.value else Zeros(dn.Datablksize()));
        blkid := blkid + 1;
      }
      data := Head(data, size);
    }

    function BlocksToRead(dn: Dnode, maxBlocks: Option<nat>): (n: nat)
      ensures n <= dn.Nblocks() && (maxBlocks.Some? ==> n <= maxBlocks.value)
      ensures n == dn.Nblocks() || maxBlocks == Some(n)
    {
      if maxBlocks.Some? then Min(dn.Nblocks(), maxBlocks.value) else dn.Nblocks()
    }

    /** `data[:size]`, when a size is given. */
    function Head(data: seq<Byte>, size: Option<nat>): (r: seq<Byte>)
      ensures r <= data && (r == data || size == Some(|r|)) && (size.Some? ==> |r| <= size.value)
    {
      if size.Some? then data[..Min(size.value, |data|)] else data
    }

    method ReadDnode(meta: Dnode, id: nat) returns (r: DnodeRead)
      requires Valid() && WellFormed(meta) && PerBlock(meta) > 0
      modifies this
      ensures Valid() && r == DnodeOf(medium, meta, id)
    {
      hide Sound, BlockOf, Dnodes.ParseDnode;
      var per := PerBlock(meta);
      var blkid, index := id / per, id % per;
      var b := ReadObjectBlock(meta, blkid);
      if b.data.None? { return Answer(None, b.status); }
      var dn := Dnodes.ParseDnode(b.data.value, index * DNODE_MIN_SIZE, id);
      r := if dn.Some? then Answer(dn, b.status) else BadDnode;
    }

    /** Walks the whole dnode table, block by block. */
    method IterDnodes(meta: Dnode) returns (l: Listing)
      requires Valid() && WellFormed(meta)
      modifies this
      ensures Valid() && l == Walk(medium, meta, meta.Nblocks())
    {
      hide Sound, BlockOf, Slots;
      var per := PerBlock(meta);
      l := Listing([], false);
      var blkid := 0;
      while blkid < meta.Nblocks()
        invariant Valid() && 0 <= blkid <= meta.Nblocks()
        invariant l == Walk(medium, meta, blkid) && !l.raised
      {
        var b := ReadObjectBlock(meta, blkid);
        MulMono(0, blkid, per);
        var base: nat := blkid * per;
        if b.data.None? {
          l := Listing(l.items + seq(per, i requires 0 <= i => Yield(base + i, None, b.status)), false);
        } else {
          var here := IterSlots(b.data.value, b.status, base, per);
          l := Listing(l.items + here.items, here.raised);
          if l.raised {
            WalkStaysRaised(meta, blkid + 1, meta.Nblocks());
            return;
          }
        }
        blkid := blkid + 1;
      }
    }

    lemma {:induction false} WalkStaysRaised(meta: Dnode, n: nat, m: nat)
      requires WellFormed(meta) && n <= m && Walk(medium, meta, n).raised
      ensures Walk(medium, meta, m) == Walk(medium, meta, n)
      decreases m
    {
      hide BlockOf, BlockListing;
      if n < m {
        WalkStaysRaised(meta, n, m - 1);
      }
    }

    method IterSlots(data: seq<Byte>, status: BlockStatus, base: nat, per: nat) returns (l: Listing)
      ensures l == Slots(data, status, base, per, 0)
    {
      hide Dnodes.ParseDnode;
      l := Listing([], false);
      var i := 0;
      while i < per
        invariant Slots(data, status, base, per, 0)
               == (var rest := Slots(data, status, base, per, i); Listing(l.items + rest.items, rest.raised))
        invariant !l.raised
        decreases per - i
      {
        var dn := Dnodes.ParseDnode(data, i * DNODE_MIN_SIZE, base + i);
        if dn.None? { return Listing(l.items, true); }
        var rest := Slots(data, status, base, per, i + 1 + dn.value.extraSlots).items;
        assert (l.items + [Yield(base + i, dn, status)]) + rest == l.items + ([Yield(base + i, dn, status)] + rest);
        l := Listing(l.items + [Yield(base + i, dn, status)], false);
        i := i + 1 + dn.value.extraSlots;
      }
    }
  }
}
