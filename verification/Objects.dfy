/** The contents of an object, and the dnode table, as functions of the medium. */
module Objects {
  import opened Bytes
  import opened PoolRead
  import opened Lru
  import opened Dnodes
  import opened Tree

  // ----- blocks of an object -----

  datatype ObjectBlock = ObjectBlock(blkid: nat, status: BlockStatus, data: Option<seq<Byte>>)

  function Pad(data: seq<Byte>, size: nat): (r: seq<Byte>)
    ensures |r| == Max(|data|, size) && r[..|data|] == data
    ensures forall i :: |data| <= i < |r| ==> r[i] == 0
  {
    if |data| < size then data + Zeros(size - |data|) else data
  }

  function BlockOf(read: Medium, dn: Dnode, blkid: nat): ObjectBlock
    requires WellFormed(dn)
  {
    match BlockPointerFor(read, dn, blkid).0
    case Nowhere(status) => ObjectBlock(blkid, status, None)
    case Pointer(bp) =>
      if bp.IsHole() then ObjectBlock(blkid, Recovered, Some(Zeros(dn.Datablksize())))
      else
        var res := read(bp);
        if res.Ok() && res.data.Some? then
          ObjectBlock(blkid, res.status, Some(Pad(res.data.value, dn.Datablksize())))
        else ObjectBlock(blkid, res.status, None)
  }

  /** What a block contributes to the object: its bytes, or zeros in place of a lost block. */
  function Share(dn: Dnode, b: ObjectBlock): seq<Byte>
  {
    if b.data.Some? then b.data.value else Zeros(dn.Datablksize())
  }

  /** The first `n` blocks, end to end. */
  function ObjectBytes(read: Medium, dn: Dnode, n: nat): seq<Byte>
    requires WellFormed(dn)
  {
    if n == 0 then [] else ObjectBytes(read, dn, n - 1) + Share(dn, BlockOf(read, dn, n - 1))
  }

  /** No block of the object is longer than its block size. */
  predicate FitsBlocks(read: Medium, dn: Dnode, n: nat)
    requires WellFormed(dn)
  {
    forall i: nat :: i < n ==> |Share(dn, BlockOf(read, dn, i))| <= dn.Datablksize()
  }

  lemma ShareIsWhole(read: Medium, dn: Dnode, i: nat)
    requires WellFormed(dn)
    ensures |Share(dn, BlockOf(read, dn, i))| >= dn.Datablksize()
  {
  }

  /** Byte `x` of the object is byte x % size of block x / size, padded or zero if need be. */
  lemma {:induction false} ObjectByte(read: Medium, dn: Dnode, n: nat, i: nat, r: nat)
    requires WellFormed(dn) && FitsBlocks(read, dn, n)
    requires i < n && r < dn.Datablksize()
    ensures var all, size := ObjectBytes(read, dn, n), dn.Datablksize();
            && |all| == n * size && 0 <= i * size + r < |all|
            && r < |Share(dn, BlockOf(read, dn, i))|
            && all[i * size + r] == Share(dn, BlockOf(read, dn, i))[r]
  {
    hide BlockOf, Share;
    var size := dn.Datablksize();
    ShareIsWhole(read, dn, i);
    ShareIsWhole(read, dn, n - 1);
    InRow(i, r, n, size);
    Distribute(n - 1, 1, size);
    assert |Share(dn, BlockOf(read, dn, n - 1))| <= size;
    if i < n - 1 {
      ObjectByte(read, dn, n - 1, i, r);
      InRow(i, r, n - 1, size);
    } else {
      ObjectLength(read, dn, n - 1);
    }
  }

  lemma {:induction false} ObjectLength(read: Medium, dn: Dnode, n: nat)
    requires WellFormed(dn) && FitsBlocks(read, dn, n)
    ensures |ObjectBytes(read, dn, n)| == n * dn.Datablksize()
  {
    hide BlockOf, Share;
    if n > 0 {
      ObjectLength(read, dn, n - 1);
      ShareIsWhole(read, dn, n - 1);
      assert |Share(dn, BlockOf(read, dn, n - 1))| <= dn.Datablksize();
      Distribute(n - 1, 1, dn.Datablksize());
    }
  }

  // ----- the dnode table -----

  /** The answer of `read_dnode`, or an exception from the decoding of the dnode. */
  datatype DnodeRead = Answer(dn: Option<Dnode>, status: BlockStatus) | BadDnode

  function PerBlock(meta: Dnode): nat { meta.Datablksize() / DNODE_MIN_SIZE }

  function DnodeOf(read: Medium, meta: Dnode, id: nat): DnodeRead
    requires WellFormed(meta) && PerBlock(meta) > 0
  {
    var b := BlockOf(read, meta, id / PerBlock(meta));
    if b.data.None? then Answer(None, b.status)
    else
      match ParseDnode(b.data.value, (id % PerBlock(meta)) * DNODE_MIN_SIZE, id)
      case None => BadDnode
      case Some(dn) => Answer(Some(dn), b.status)
  }

  datatype Yield = Yield(id: nat, dn: Option<Dnode>, status: BlockStatus)

  /** What a walk yields before it ends, or before an exception ends it. */
  datatype Listing = Listing(items: seq<Yield>, raised: bool)

  /** The dnodes of one readable block from slot `i` on, each skipping its extra slots. */
  function Slots(data: seq<Byte>, status: BlockStatus, base: nat, per: nat, i: nat): Listing
    decreases per - i
  {
    if i >= per then Listing([], false)
    else
      match ParseDnode(data, i * DNODE_MIN_SIZE, base + i)
      case None => Listing([], true)
      case Some(dn) =>
        var rest := Slots(data, status, base, per, i + 1 + dn.extraSlots);
        Listing([Yield(base + i, Some(dn), status)] + rest.items, rest.raised)
  }

  function BlockListing(b: ObjectBlock, base: nat, per: nat): Listing
  {
    if b.data.None? then Listing(seq(per, i requires 0 <= i => Yield(base + i, None, b.status)), false)
    else Slots(b.data.value, b.status, base, per, 0)
  }

  /** The id of the first slot of a block of the table. */
  function FirstSlot(meta: Dnode, blkid: nat): nat
  {
    MulMono(0, blkid, PerBlock(meta));
    blkid * PerBlock(meta)
  }

  /** The walk over the first `n` blocks of the table. */
  function Walk(read: Medium, meta: Dnode, n: nat): Listing
    requires WellFormed(meta)
  {
    if n == 0 then Listing([], false)
    else
      var before := Walk(read, meta, n - 1);
      if before.raised then before
      else
        var here := BlockListing(BlockOf(read, meta, n - 1), FirstSlot(meta, n - 1), PerBlock(meta));
        Listing(before.items + here.items, here.raised)
  }

  // ----- the walk refines the single reading -----

  /** Ids between two bounds, strictly increasing. */
  predicate Ascending(items: seq<Yield>, low: nat, high: nat)
  {
    && (forall i :: 0 <= i < |items| ==> low <= items[i].id < high)
    && (forall i, j :: 0 <= i < j < |items| ==> items[i].id < items[j].id)
  }

  /** Slot `s` is yielded, or is one of the extra slots of an earlier dnode of its block. */
  predicate Covered(items: seq<Yield>, s: nat, base: nat)
  {
    exists i :: 0 <= i < |items| && base <= items[i].id
      && (items[i].id == s || (items[i].dn.Some? && items[i].id < s <= items[i].id + items[i].dn.value.extraSlots))
  }

  lemma CoveredMore(items: seq<Yield>, more: seq<Yield>, s: nat, base: nat)
    requires Covered(items, s, base) || Covered(more, s, base)
    ensures Covered(items + more, s, base)
  {
    var all := items + more;
    if Covered(items, s, base) {
      var i :| 0 <= i < |items| && base <= items[i].id
        && (items[i].id == s || (items[i].dn.Some? && items[i].id < s <= items[i].id + items[i].dn.value.extraSlots));
      assert all[i] == items[i];
    } else {
      var i :| 0 <= i < |more| && base <= more[i].id
        && (more[i].id == s || (more[i].dn.Some? && more[i].id < s <= more[i].id + more[i].dn.value.extraSlots));
      assert all[|items| + i] == more[i];
    }
  }

  /** Every yield is the dnode decoded at its own slot. */
  predicate Decoded(items: seq<Yield>, data: seq<Byte>, status: BlockStatus, base: nat)
  {
    forall y :: y in items ==>
      && y.id >= base && y.status == status && y.dn.Some?
      && y.dn == ParseDnode(data, (y.id - base) * DNODE_MIN_SIZE, y.id)
  }

  lemma {:induction false} SlotsLaws(data: seq<Byte>, status: BlockStatus, base: nat, per: nat, i: nat)
    ensures var l, low := Slots(data, status, base, per, i), base + i;
            && Ascending(l.items, low, base + per)
            && Decoded(l.items, data, status, base)
            && (!l.raised ==> forall s: nat :: low <= s < base + per ==> Covered(l.items, s, low))
    decreases per - i
  {
    hide ParseDnode, Covered, Decoded, Ascending;
    if i < per {
      var d := ParseDnode(data, i * DNODE_MIN_SIZE, base + i);
      if d.Some? {
        var next := i + 1 + d.value.extraSlots;
        var rest := Slots(data, status, base, per, next);
        SlotsLaws(data, status, base, per, next);
        var first := Yield(base + i, d, status);
        FirstSlotLaws(data, status, base, first, rest.items, base + next, base + per);
        if !rest.raised { SlotsCovered(first, rest.items, base + next, base + per); }
      } else {
        NoSlots(data, status, base, base + i, base + per);
      }
    } else {
      NoSlots(data, status, base, base + i, base + per);
    }
  }

  lemma NoSlots(data: seq<Byte>, status: BlockStatus, base: nat, low: nat, high: nat)
    ensures Ascending([], low, high) && Decoded([], data, status, base)
  {
  }

  lemma FirstSlotLaws(data: seq<Byte>, status: BlockStatus, base: nat, first: Yield, rest: seq<Yield>, next: nat,
                      high: nat)
    requires base <= first.id < high && first.id < next && first.status == status && first.dn.Some?
    requires first.dn == ParseDnode(data, (first.id - base) * DNODE_MIN_SIZE, first.id)
    requires Ascending(rest, next, high) && Decoded(rest, data, status, base)
    ensures Ascending([first] + rest, first.id, high) && Decoded([first] + rest, data, status, base)
  {
    hide ParseDnode;
  }

  /** The first dnode covers its own slots, the others the rest. */
  lemma {:induction false} SlotsCovered(first: Yield, rest: seq<Yield>, next: nat, high: nat)
    requires first.dn.Some? && next == first.id + 1 + first.dn.value.extraSlots
    requires forall s: nat :: next <= s < high ==> Covered(rest, s, next)
    ensures forall s: nat :: first.id <= s < high ==> Covered([first] + rest, s, first.id)
  {
    hide Covered;
    forall s: nat | first.id <= s < high
      ensures Covered([first] + rest, s, first.id)
    {
      if s < next { CoversOwn(first, s); } else { Weaken(rest, s, next, first.id); }
      CoveredMore([first], rest, s, first.id);
    }
  }

  lemma CoversOwn(y: Yield, s: nat)
    requires y.dn.Some? && y.id <= s <= y.id + y.dn.value.extraSlots
    ensures Covered([y], s, y.id)
  {
    assert [y][0].id == y.id;
  }

  lemma Weaken(items: seq<Yield>, s: nat, base: nat, lower: nat)
    requires lower <= base && Covered(items, s, base)
    ensures Covered(items, s, lower)
  {
  }

  lemma BlockLaws(read: Medium, meta: Dnode, blkid: nat)
    requires WellFormed(meta) && PerBlock(meta) > 0
    ensures var per := PerBlock(meta);
            var base := FirstSlot(meta, blkid);
            var l := BlockListing(BlockOf(read, meta, blkid), base, per);
            && base == blkid * per && Ascending(l.items, base, base + per)
            && (forall y :: y in l.items ==> DnodeOf(read, meta, y.id) == Answer(y.dn, y.status))
            && (!l.raised ==> forall s: nat :: base <= s < base + per ==> Covered(l.items, s, base))
  {
    hide ParseDnode, BlockOf, Slots;
    var per := PerBlock(meta);
    MulMono(0, blkid, per);
    var base, b := FirstSlot(meta, blkid), BlockOf(read, meta, blkid);
    var l := BlockListing(b, base, per);
    if b.data.Some? {
      SlotsLaws(b.data.value, b.status, base, per, 0);
    } else {
      forall s: nat | base <= s < base + per
        ensures Covered(l.items, s, base)
      {
        assert l.items[s - base].id == s;
      }
    }
    forall y | y in l.items
      ensures DnodeOf(read, meta, y.id) == Answer(y.dn, y.status)
    {
      DivModUnique(y.id, per, blkid, y.id - base);
    }
  }

  /** `iter_dnodes` refines `read_dnode`: increasing ids, the same answer at each, and no slot
      of the table skipped but the extra slots of an earlier dnode of the same block. */
  lemma {:induction false} WalkRefinesRead(read: Medium, meta: Dnode, n: nat)
    requires WellFormed(meta) && PerBlock(meta) > 0
    ensures var l, per := Walk(read, meta, n), PerBlock(meta);
            && n * per >= 0 && Ascending(l.items, 0, n * per)
            && (forall y :: y in l.items ==> DnodeOf(read, meta, y.id) == Answer(y.dn, y.status))
            && (!l.raised ==> forall s: nat :: s < n * per ==>
                  0 <= (s / per) * per && Covered(l.items, s, (s / per) * per))
  {
    hide BlockListing, BlockOf, DnodeOf, Covered, PerBlock;
    var per := PerBlock(meta);
    MulMono(0, n, per);
    if n > 0 {
      WalkRefinesRead(read, meta, n - 1);
      var before := Walk(read, meta, n - 1);
      Distribute(n - 1, 1, per);
      if !before.raised {
        BlockLaws(read, meta, n - 1);
        var here := BlockListing(BlockOf(read, meta, n - 1), FirstSlot(meta, n - 1), per);
        if !here.raised { CoveredOnce(before.items, here.items, n, per, FirstSlot(meta, n - 1)); }
      }
    }
  }

  /** The slots of n blocks are those of n - 1 and those of the last. */
  lemma {:induction false} CoveredOnce(before: seq<Yield>, here: seq<Yield>, n: nat, per: nat, base: nat)
    requires per > 0 && n > 0 && base == (n - 1) * per
    requires forall s: nat :: s < base ==> 0 <= (s / per) * per && Covered(before, s, (s / per) * per)
    requires forall s: nat :: base <= s < base + per ==> Covered(here, s, base)
    ensures forall s: nat :: s < n * per ==>
              0 <= (s / per) * per && Covered(before + here, s, (s / per) * per)
  {
    hide Covered;
    Distribute(n - 1, 1, per);
    forall s: nat | s < n * per
      ensures 0 <= (s / per) * per && Covered(before + here, s, (s / per) * per)
    {
      if s >= base { DivModUnique(s, per, n - 1, s - base); }
      MulMono(0, s / per, per);
      CoveredMore(before, here, s, (s / per) * per);
    }
  }
}
