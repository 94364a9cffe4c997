/** The dnode table: where a dnode lies, and a written table read back. */
module DnodeTable {
  import opened Bytes
  import opened Codec
  import opened PoolRead
  import opened Lru
  import opened Dnodes
  import opened Objects

  /** Dnode `id` is the one that starts at byte 512 * id of the table: in the block that holds this byte,
      at its place in that block. When the block cannot be had, its status is the answer. */
  lemma DnodeAtByte(read: Medium, meta: Dnode, id: nat)
    requires WellFormed(meta) && meta.datablkszsec > 0
    ensures PerBlock(meta) > 0
    ensures var x, size := 512 * id, 512 * meta.datablkszsec;
            var b := BlockOf(read, meta, x / size);
            DnodeOf(read, meta, id)
            == if b.data.None? then Answer(None, b.status)
               else
                 match ParseDnode(b.data.value, x % size, id)
                 case None => BadDnode
                 case Some(dn) => Answer(Some(dn), b.status)
  {
    hide ParseDnode, BlockOf, WellFormed;
    var n := meta.datablkszsec;
    Distribute(id / n * n, id % n, 512);
    MulAssoc(id / n, n, 512);
    DivModUnique(512 * id, 512 * n, id / n, 512 * (id % n));
  }

  // ----- a writer of the table -----

  /** What a slot of zeros reads as. */
  function FreeDnode(id: nat): Dnode
  {
    Dnode(id, 0, 0, 0, 0, 0, 0, 0, 0, 0, 0, 0, 0, 0, [], [], None)
  }

  /** Dnodes and free slots, the first in slot `id`, each numbered by the slot where it starts. */
  predicate Numbered(dns: seq<Dnode>, id: nat)
  {
    dns == []
    || (&& dns[0].objectId == id && (dns[0] == FreeDnode(id) || Writable(dns[0]))
        && Numbered(dns[1..], id + 1 + dns[0].extraSlots))
  }

  /** The slots that they take. */
  function Width(dns: seq<Dnode>): nat
  {
    if dns == [] then 0 else 1 + dns[0].extraSlots + Width(dns[1..])
  }

  function EncSlot(dn: Dnode): (e: seq<Byte>)
    requires dn == FreeDnode(dn.objectId) || Writable(dn)
    ensures |e| == 512 * (1 + dn.extraSlots)
  {
    if dn.kind == 0 then Zeros(512) else EncDnode(dn)
  }

  function EncSlots(dns: seq<Dnode>, id: nat): (e: seq<Byte>)
    requires Numbered(dns, id)
    ensures |e| == 512 * Width(dns)
  {
    if dns == [] then [] else EncSlot(dns[0]) + EncSlots(dns[1..], id + 1 + dns[0].extraSlots)
  }

  function Yields(dns: seq<Dnode>, status: BlockStatus): seq<Yield>
  {
    if dns == [] then [] else [Yield(dns[0].objectId, Some(dns[0]), status)] + Yields(dns[1..], status)
  }

  lemma {:induction false} ZerosValue(n: nat)
    ensures Le(Zeros(n)) == 0
  {
    if n > 0 {
      ZerosValue(n - 1);
      assert Zeros(n)[1..] == Zeros(n - 1);
    }
  }

  lemma {:induction false} ZerosWithin(raw: seq<Byte>, at: nat, n: nat, i: nat, j: nat)
    requires Stands(raw, at, Zeros(n)) && i <= j <= n
    ensures raw[at + i..at + j] == Zeros(j - i)
  {
    SliceOfSlice(raw, at, n, i, j);
  }

  lemma FreeReadsBack(raw: seq<Byte>, at: nat, id: nat)
    requires Stands(raw, at, Zeros(512))
    ensures ParseDnode(raw, at, id) == Some(FreeDnode(id))
  {
    hide Le;
    ZerosWithin(raw, at, 512, 8, 10);
    ZerosWithin(raw, at, 512, 10, 12);
    ZerosWithin(raw, at, 512, 16, 24);
    ZerosWithin(raw, at, 512, 24, 32);
    ZerosValue(2);
    ZerosValue(8);
    var slot := raw[at..at + 512];
    assert slot[0] == raw[at] && slot[1] == raw[at + 1] && slot[2] == raw[at + 2] && slot[3] == raw[at + 3];
    assert slot[4] == raw[at + 4] && slot[5] == raw[at + 5] && slot[6] == raw[at + 6] && slot[7] == raw[at + 7];
    assert slot[12] == raw[at + 12];
  }

  lemma SlotReadsBack(raw: seq<Byte>, at: nat, dn: Dnode)
    requires dn == FreeDnode(dn.objectId) || Writable(dn)
    requires Stands(raw, at, EncSlot(dn))
    ensures ParseDnode(raw, at, dn.objectId) == Some(dn)
  {
    hide ParseDnode, Stands, EncDnode, Zeros;
    if dn.kind == 0 { FreeReadsBack(raw, at, dn.objectId); } else { DnodeReadsBack(raw, at, dn); }
  }

  /** The walk over a written block yields what was written, from any dnode on. */
  lemma {:induction false} SlotsReadBack(data: seq<Byte>, status: BlockStatus, base: nat, per: nat, i: nat,
                                         dns: seq<Dnode>)
    requires Numbered(dns, base + i) && Stands(data, 512 * i, EncSlots(dns, base + i)) && i + Width(dns) == per
    ensures Slots(data, status, base, per, i) == Listing(Yields(dns, status), false)
    decreases |dns|
  {
    hide ParseDnode, Stands, EncSlot, Writable, FreeDnode;
    if dns != [] {
      var next := i + 1 + dns[0].extraSlots;
      StandsSplit(data, 512 * i, EncSlot(dns[0]), EncSlots(dns[1..], base + next));
      SlotReadsBack(data, 512 * i, dns[0]);
      SlotsReadBack(data, status, base, per, next, dns[1..]);
    }
  }

  /** The medium holds a table: in `tables` the dnodes of each block, None for a block that is lost. */
  ghost predicate TableStands(read: Medium, meta: Dnode, tables: seq<Option<seq<Dnode>>>)
  {
    && WellFormed(meta) && meta.datablkszsec > 0
    && forall k :: 0 <= k < |tables| ==> BlockStands(read, meta, k, tables[k])
  }

  ghost predicate BlockStands(read: Medium, meta: Dnode, k: nat, table: Option<seq<Dnode>>)
    requires WellFormed(meta)
  {
    match table
    case None => BlockOf(read, meta, k).data == None
    case Some(dns) =>
      && Numbered(dns, FirstId(meta, k)) && Width(dns) == meta.datablkszsec
      && BlockOf(read, meta, k).data == Some(EncSlots(dns, FirstId(meta, k)))
  }

  function FirstId(meta: Dnode, k: nat): nat
  {
    MulMono(0, k, meta.datablkszsec);
    k * meta.datablkszsec
  }

  /** The number of slot `i` of block `k`. */
  function SlotId(meta: Dnode, k: nat, i: nat): nat { FirstId(meta, k) + i }

  /** What the walk over block `k` should yield: its dnodes, or no dnode for each of its slots. */
  function BlockYields(meta: Dnode, k: nat, table: Option<seq<Dnode>>, status: BlockStatus): seq<Yield>
  {
    match table
    case None => seq(meta.datablkszsec, i requires 0 <= i => Yield(SlotId(meta, k, i), None, status))
    case Some(dns) => Yields(dns, status)
  }

  ghost function TableYields(read: Medium, meta: Dnode, tables: seq<Option<seq<Dnode>>>, n: nat): seq<Yield>
    requires WellFormed(meta) && n <= |tables|
  {
    if n == 0 then []
    else
      TableYields(read, meta, tables, n - 1)
      + BlockYields(meta, n - 1, tables[n - 1], BlockOf(read, meta, n - 1).status)
  }

  lemma BlockReadsBack(read: Medium, meta: Dnode, k: nat, table: Option<seq<Dnode>>)
    requires WellFormed(meta) && meta.datablkszsec > 0 && BlockStands(read, meta, k, table)
    ensures PerBlock(meta) > 0
    ensures var b := BlockOf(read, meta, k);
            var ys := BlockYields(meta, k, table, b.status);
            && BlockListing(b, FirstSlot(meta, k), PerBlock(meta)) == Listing(ys, false)
            && forall y :: y in ys ==> DnodeOf(read, meta, y.id) == Answer(y.dn, b.status)
  {
    hide BlockOf, Slots, EncSlots, Numbered, WellFormed, DnodeOf, Yields;
    assert PerBlock(meta) == meta.datablkszsec;
    var b := BlockOf(read, meta, k);
    BlockLaws(read, meta, k);
    match table
    case None =>
      assert FirstSlot(meta, k) == FirstId(meta, k);
      assert BlockListing(b, FirstSlot(meta, k), PerBlock(meta)).items == BlockYields(meta, k, None, b.status);
    case Some(dns) =>
      var e := EncSlots(dns, FirstId(meta, k));
      assert e[0..|e|] == e;
      SlotsReadBack(e, b.status, FirstId(meta, k), PerBlock(meta), 0, dns);
      SameStatus(dns, b.status);
  }

  lemma {:induction false} SameStatus(dns: seq<Dnode>, status: BlockStatus)
    ensures forall y :: y in Yields(dns, status) ==> y.status == status
    ensures forall dn :: dn in dns ==> Yield(dn.objectId, Some(dn), status) in Yields(dns, status)
  {
    if dns != [] {
      SameStatus(dns[1..], status);
      assert dns == [dns[0]] + dns[1..];
    }
  }

  /** A table of written dnodes and free slots, laid end to end in slots of 512 bytes, is read back: each
      dnode by its number, and all of them in order by the walk, none skipped and none misnumbered. A block
      that is lost answers with its status for each of its slots, and the walk goes on behind it. */
  lemma {:induction false} TableReadsBack(read: Medium, meta: Dnode, tables: seq<Option<seq<Dnode>>>)
    requires TableStands(read, meta, tables) && meta.kind != 0 && meta.maxblkid + 1 == |tables|
    ensures PerBlock(meta) > 0
    ensures Walk(read, meta, meta.Nblocks()) == Listing(TableYields(read, meta, tables, |tables|), false)
    ensures forall k, dn :: 0 <= k < |tables| && tables[k].Some? && dn in tables[k].value ==>
              DnodeOf(read, meta, dn.objectId) == Answer(Some(dn), BlockOf(read, meta, k).status)
    ensures forall k, i: nat :: 0 <= k < |tables| && tables[k].None? && i < meta.datablkszsec ==>
              DnodeOf(read, meta, SlotId(meta, k, i)) == Answer(None, BlockOf(read, meta, k).status)
  {
    hide BlockOf, BlockListing, BlockStands, DnodeOf, Walk, TableYields;
    WalkReadsBack(read, meta, tables, |tables|);
    forall k | 0 <= k < |tables|
      ensures tables[k].Some? ==> forall dn :: dn in tables[k].value ==>
                DnodeOf(read, meta, dn.objectId) == Answer(Some(dn), BlockOf(read, meta, k).status)
      ensures tables[k].None? ==> forall i: nat :: i < meta.datablkszsec ==>
                DnodeOf(read, meta, SlotId(meta, k, i)) == Answer(None, BlockOf(read, meta, k).status)
    {
      BlockAnswers(read, meta, k, tables[k]);
    }
  }

  lemma {:induction false} BlockAnswers(read: Medium, meta: Dnode, k: nat, table: Option<seq<Dnode>>)
    requires WellFormed(meta) && meta.datablkszsec > 0 && BlockStands(read, meta, k, table)
    ensures PerBlock(meta) > 0
    ensures table.Some? ==> forall dn :: dn in table.value ==>
              DnodeOf(read, meta, dn.objectId) == Answer(Some(dn), BlockOf(read, meta, k).status)
    ensures table.None? ==> forall i: nat :: i < meta.datablkszsec ==>
              DnodeOf(read, meta, SlotId(meta, k, i)) == Answer(None, BlockOf(read, meta, k).status)
  {
    hide BlockOf, BlockListing, BlockStands, DnodeOf, Yields;
    BlockReadsBack(read, meta, k, table);
    var status := BlockOf(read, meta, k).status;
    match table
    case None =>
      forall i: nat | i < meta.datablkszsec
        ensures DnodeOf(read, meta, SlotId(meta, k, i)) == Answer(None, status)
      {
        var ys := BlockYields(meta, k, None, status);
        assert ys[i] in ys;
      }
    case Some(dns) =>
      SameStatus(dns, status);
      forall dn | dn in dns
        ensures DnodeOf(read, meta, dn.objectId) == Answer(Some(dn), status)
      {
        assert Yield(dn.objectId, Some(dn), status) in Yields(dns, status);
      }
  }

  lemma {:induction false} WalkReadsBack(read: Medium, meta: Dnode, tables: seq<Option<seq<Dnode>>>, n: nat)
    requires TableStands(read, meta, tables) && n <= |tables|
    ensures Walk(read, meta, n) == Listing(TableYields(read, meta, tables, n), false)
  {
    hide BlockOf, BlockListing, BlockStands, DnodeOf;
    if n > 0 {
      WalkReadsBack(read, meta, tables, n - 1);
      BlockReadsBack(read, meta, n - 1, tables[n - 1]);
    }
  }
}
