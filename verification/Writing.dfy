/** Blocks laid out on the children by the map: what is written is read back, whatever is
    written elsewhere and whichever children are lost, as far as parity goes. */
module Writing {
  import opened Bytes
  import opened Blkptr
  import opened Raidz
  import opened RaidzGeometry
  import opened Availability
  import opened Parity
  import opened PoolRead
  import opened Erasure

  // ----- a writer -----

  function Put(content: seq<Byte>, at: nat, piece: seq<Byte>): (r: seq<Byte>)
    requires at + |piece| <= |content|
    ensures |r| == |content|
  {
    content[..at] + piece + content[at + |piece|..]
  }

  /** Writes the piece of one column; an absent child, or one that is too small, stays as it is. */
  function PutColumn(devices: map<nat, Device>, col: Column, piece: seq<Byte>): map<nat, Device>
  {
    if col.devidx !in devices || PhysOffset(col) + |piece| > |devices[col.devidx].content| then devices
    else
      var d := devices[col.devidx];
      devices[col.devidx := d.(content := Put(d.content, PhysOffset(col), piece))]
  }

  /** Writes the first `n` columns. */
  function Lay(devices: map<nat, Device>, cols: seq<Column>, pieces: seq<seq<Byte>>, n: nat): map<nat, Device>
    requires n <= |cols| == |pieces|
  {
    if n == 0 then devices else PutColumn(Lay(devices, cols, pieces, n - 1), cols[n - 1], pieces[n - 1])
  }

  /** The data columns carry their shares, column 0 their exclusive or (the parities beyond the
      first take no part in any reading and are filled with zeros). */
  function Pieces(cols: seq<Column>, block: seq<Byte>): (p: seq<seq<Byte>>)
    ensures |p| == |cols|
  {
    seq(|cols|, c requires 0 <= c < |cols| =>
      if cols[c].role == Data then Shares(cols, block)[c]
      else if c == 0 then ParityOf(cols, Shares(cols, block), cols[c].size)
      else Zeros(cols[c].size))
  }

  function ColumnsAt(pool: Pool, dva: Dva, psize: nat): seq<Column>
    requires pool.Valid() && pool.Aligned(dva) && psize > 0
  {
    pool.LayoutOf(dva, psize).Map().columns
  }

  /** The pool after a block was written at the place of a DVA. */
  function Write(pool: Pool, dva: Dva, psize: nat, block: seq<Byte>): Pool
    requires pool.Valid() && pool.Aligned(dva) && psize > 0
  {
    var cols := ColumnsAt(pool, dva, psize);
    pool.(devices := Lay(pool.devices, cols, Pieces(cols, block), |cols|))
  }

  /** The pool without some of its children. */
  function Without(pool: Pool, gone: set<nat>): Pool
  {
    pool.(devices := pool.devices - gone)
  }

  // ----- one column -----

  /** No byte of a child belongs to both columns. */
  predicate Apart(a: Column, b: Column)
  {
    a.size == 0 || b.size == 0 || a.devidx != b.devidx || a.offset + a.size <= b.offset || b.offset + b.size <= a.offset
  }

  lemma PutReadsBack(content: seq<Byte>, at: nat, piece: seq<Byte>)
    requires at + |piece| <= |content|
    ensures Put(content, at, piece)[at..at + |piece|] == piece
  {
    assert Put(content, at, piece)[..at + |piece|] == content[..at] + piece;
  }

  lemma PutElsewhere(content: seq<Byte>, at: nat, piece: seq<Byte>, from: nat, n: nat)
    requires at + |piece| <= |content| && from + n <= |content|
    requires piece == [] || n == 0 || from + n <= at || at + |piece| <= from
    ensures Put(content, at, piece)[from..from + n] == content[from..from + n]
  {
    var r := Put(content, at, piece);
    forall i | from <= i < from + n
      ensures r[i] == content[i]
    {
      assert r == content[..at] + (piece + content[at + |piece|..]);
    }
    assert r[from..from + n] == content[from..from + n];
  }

  lemma PutColumnLaws(devices: map<nat, Device>, a: Column, piece: seq<Byte>, b: Column)
    requires |piece| == a.size
    ensures Apart(a, b) ==> ReadColumn(PutColumn(devices, a, piece), b) == ReadColumn(devices, b)
    ensures ReadColumn(PutColumn(devices, a, piece), a)
         == if ReadColumn(devices, a).None? then None else Some(piece)
    ensures PutColumn(devices, a, piece).Keys == devices.Keys
  {
    hide Put;
    if a.devidx in devices && PhysOffset(a) + |piece| <= |devices[a.devidx].content| {
      var content := devices[a.devidx].content;
      PutReadsBack(content, PhysOffset(a), piece);
      if Apart(a, b) && a.devidx == b.devidx && PhysOffset(b) + b.size <= |content| {
        PutElsewhere(content, PhysOffset(a), piece, PhysOffset(b), b.size);
      }
    }
  }

  // ----- all columns -----

  predicate Sized(cols: seq<Column>, pieces: seq<seq<Byte>>)
  {
    |cols| == |pieces| && forall c :: 0 <= c < |cols| ==> |pieces[c]| == cols[c].size
  }

  lemma {:induction false} LayKeeps(devices: map<nat, Device>, cols: seq<Column>, pieces: seq<seq<Byte>>, n: nat,
                                    col: Column)
    requires Sized(cols, pieces) && n <= |cols|
    requires forall c :: 0 <= c < n ==> Apart(cols[c], col)
    ensures ReadColumn(Lay(devices, cols, pieces, n), col) == ReadColumn(devices, col)
    ensures Lay(devices, cols, pieces, n).Keys == devices.Keys
  {
    hide Apart, ReadColumn, PutColumn;
    if n > 0 {
      LayKeeps(devices, cols, pieces, n - 1, col);
      PutColumnLaws(Lay(devices, cols, pieces, n - 1), cols[n - 1], pieces[n - 1], col);
    }
  }

  lemma {:induction false} LayReads(devices: map<nat, Device>, cols: seq<Column>, pieces: seq<seq<Byte>>, n: nat,
                                    c: nat)
    requires Sized(cols, pieces) && c < n <= |cols|
    requires forall i, j :: 0 <= i < j < |cols| ==> Apart(cols[i], cols[j]) && Apart(cols[j], cols[i])
    ensures ReadColumn(Lay(devices, cols, pieces, n), cols[c])
         == if ReadColumn(devices, cols[c]).None? then None else Some(pieces[c])
  {
    hide Apart, ReadColumn, PutColumn;
    var before := Lay(devices, cols, pieces, n - 1);
    PutColumnLaws(before, cols[n - 1], pieces[n - 1], cols[c]);
    if c < n - 1 {
      LayReads(devices, cols, pieces, n - 1, c);
    } else {
      LayKeeps(devices, cols, pieces, n - 1, cols[c]);
    }
  }

  // ----- blocks -----

  lemma PiecesFit(l: Layout, block: seq<Byte>)
    requires l.Valid() && |block| == l.size
    ensures Sized(l.Map().columns, Pieces(l.Map().columns, block))
  {
    hide Layout.Check, Layout.Map, Shares, SizeOf;
    var cols := l.Map().columns;
    assert SizeOf(cols, Data) == |block| by { ColumnSizes(l); }
    forall c | 0 <= c < |cols|
      ensures |Pieces(cols, block)[c]| == cols[c].size
    {
      if cols[c].role == Data { ShareSize(cols, block, c); }
    }
  }

  lemma ColumnsApart(l: Layout)
    requires l.Valid()
    ensures var cols := l.Map().columns;
            forall i, j :: 0 <= i < j < |cols| ==> Apart(cols[i], cols[j]) && Apart(cols[j], cols[i])
  {
    hide Layout.Check;
    var cols := l.Map().columns;
    forall i, j | 0 <= i < j < |cols|
      ensures Apart(cols[i], cols[j]) && Apart(cols[j], cols[i])
    {
      ChildrenDistinct(l, i, j);
    }
  }

  /** What was written is held by the pool, and nothing more is unreadable than before. */
  lemma WriteStores(pool: Pool, dva: Dva, psize: nat, block: seq<Byte>)
    requires pool.Valid() && pool.Aligned(dva) && psize > 0
    requires |block| == pool.LayoutOf(dva, psize).size
    ensures var after := Write(pool, dva, psize, block);
            && Stored(after, dva, psize, block)
            && Unreadable(after, dva, psize) == Unreadable(pool, dva, psize)
  {
    hide Layout.Check, Layout.Map, Apart, ReadColumn, Lay, Sized;
    var l, after := pool.LayoutOf(dva, psize), Write(pool, dva, psize, block);
    var cols := l.Map().columns;
    PiecesFit(l, block);
    ColumnsApart(l);
    forall c | 0 <= c < |cols|
      ensures ReadColumn(after.devices, cols[c])
           == if ReadColumn(pool.devices, cols[c]).None? then None else Some(Pieces(cols, block)[c])
    {
      assert |cols| == |Pieces(cols, block)|;
      LayReads(pool.devices, cols, Pieces(cols, block), |cols|, c);
    }
    assert cols[0].role == Parity by { ColumnSizes(l); MapShape(l); }
  }

  /** Two blocks on disjoint ranges of DVA space. */
  predicate Disjoint(pool: Pool, dva: Dva, psize: nat, dva': Dva, psize': nat)
    requires pool.Valid() && pool.Aligned(dva) && psize > 0 && pool.Aligned(dva') && psize' > 0
  {
    var l, m := pool.LayoutOf(dva, psize), pool.LayoutOf(dva', psize');
    l.offset + l.Map().DvaAsize() <= m.offset || m.offset + m.Map().DvaAsize() <= l.offset
  }

  lemma DisjointApart(l: Layout, m: Layout, c: nat, c': nat)
    requires l.Valid() && m.Valid() && l.dcols == m.dcols && l.ashift == m.ashift
    requires l.offset + l.Map().DvaAsize() <= m.offset || m.offset + m.Map().DvaAsize() <= l.offset
    requires c < |l.Map().columns| && c' < |m.Map().columns|
    ensures Apart(m.Map().columns[c'], l.Map().columns[c])
  {
    hide Layout.Check, Layout.Columns, RaidzMap.DvaAsize;
    var a, b := l.Map().columns[c], m.Map().columns[c'];
    MapShape(l);
    MapShape(m);
    DisjointBlocks(l, m, c, c', a.devidx, Max(a.offset, b.offset));
  }

  /** Writing a block leaves every block on a disjoint range as it was. */
  lemma WriteKeepsOthers(pool: Pool, dva: Dva, psize: nat, block: seq<Byte>, dva': Dva, psize': nat, block': seq<Byte>)
    requires pool.Valid() && pool.Aligned(dva) && psize > 0 && pool.Aligned(dva') && psize' > 0
    requires |block'| == pool.LayoutOf(dva', psize').size && Disjoint(pool, dva, psize, dva', psize')
    ensures var after := Write(pool, dva', psize', block');
            && (Stored(after, dva, psize, block) <==> Stored(pool, dva, psize, block))
            && Unreadable(after, dva, psize) == Unreadable(pool, dva, psize)
            && ReadDva(after, dva, psize) == ReadDva(pool, dva, psize)
  {
    hide Layout.Check, Layout.Map, Lay, Sized, RaidzMap.DvaAsize;
    var l, m := pool.LayoutOf(dva, psize), pool.LayoutOf(dva', psize');
    var cols, others := l.Map().columns, m.Map().columns;
    var after := Write(pool, dva', psize', block');
    PiecesFit(m, block');
    forall c | 0 <= c < |cols|
      ensures ReadColumn(after.devices, cols[c]) == ReadColumn(pool.devices, cols[c])
    {
      OtherColumn(l, m, pool.devices, block', c);
    }
    LayKeys(pool.devices, others, Pieces(others, block'), |others|);
    assert ReadColumns(after.devices, cols) == ReadColumns(pool.devices, cols);
  }

  lemma {:induction false} LayKeys(devices: map<nat, Device>, cols: seq<Column>, pieces: seq<seq<Byte>>, n: nat)
    requires n <= |cols| == |pieces|
    ensures Lay(devices, cols, pieces, n).Keys == devices.Keys
  {
    if n > 0 { LayKeys(devices, cols, pieces, n - 1); }
  }

  lemma {:induction false} OtherColumn(l: Layout, m: Layout, devices: map<nat, Device>, block: seq<Byte>, c: nat)
    requires l.Valid() && m.Valid() && l.dcols == m.dcols && l.ashift == m.ashift
    requires l.offset + l.Map().DvaAsize() <= m.offset || m.offset + m.Map().DvaAsize() <= l.offset
    requires c < |l.Map().columns| && |block| == m.size
    ensures var others, col := m.Map().columns, l.Map().columns[c];
            ReadColumn(Lay(devices, others, Pieces(others, block), |others|), col) == ReadColumn(devices, col)
  {
    hide Layout.Check, Layout.Map, Lay, Pieces, RaidzMap.DvaAsize;
    var others, col := m.Map().columns, l.Map().columns[c];
    PiecesFit(m, block);
    forall c' | 0 <= c' < |others|
      ensures Apart(others[c'], col)
    {
      DisjointApart(l, m, c, c');
    }
    LayKeeps(devices, others, Pieces(others, block), |others|, col);
  }

  // ----- many blocks -----

  /** A block and its place. */
  datatype Placed = Placed(dva: Dva, psize: nat, block: seq<Byte>)

  predicate On(pool: Pool, w: Placed)
    requires pool.Valid()
  {
    pool.Aligned(w.dva) && w.psize > 0 && |w.block| == pool.LayoutOf(w.dva, w.psize).size
  }

  predicate AllOn(pool: Pool, ws: seq<Placed>)
    requires pool.Valid()
  {
    forall k :: 0 <= k < |ws| ==> On(pool, ws[k])
  }

  /** The place of `w` is disjoint from the places of all `ws`. */
  predicate Clear(pool: Pool, w: Placed, ws: seq<Placed>)
    requires pool.Valid() && On(pool, w) && AllOn(pool, ws)
  {
    forall k :: 0 <= k < |ws| ==> Disjoint(pool, w.dva, w.psize, ws[k].dva, ws[k].psize)
  }

  /** No two places overlap. */
  predicate AllClear(pool: Pool, ws: seq<Placed>)
    requires pool.Valid() && AllOn(pool, ws)
  {
    forall i, j :: 0 <= i < j < |ws| ==> Disjoint(pool, ws[i].dva, ws[i].psize, ws[j].dva, ws[j].psize)
  }

  /** The pool after all writes, one after the other. */
  function WriteAll(pool: Pool, ws: seq<Placed>): (after: Pool)
    requires pool.Valid() && AllOn(pool, ws)
    ensures after == pool.(devices := after.devices)
  {
    if ws == [] then pool
    else
      var w := ws[|ws| - 1];
      Write(WriteAll(pool, ws[..|ws| - 1]), w.dva, w.psize, w.block)
  }

  /** Any number of writes leave every block on a range disjoint from theirs as it was. */
  lemma {:induction false} WriteAllKeeps(pool: Pool, ws: seq<Placed>, w: Placed)
    requires pool.Valid() && AllOn(pool, ws) && On(pool, w) && Clear(pool, w, ws)
    ensures var after := WriteAll(pool, ws);
            && (Stored(after, w.dva, w.psize, w.block) <==> Stored(pool, w.dva, w.psize, w.block))
            && Unreadable(after, w.dva, w.psize) == Unreadable(pool, w.dva, w.psize)
            && ReadDva(after, w.dva, w.psize) == ReadDva(pool, w.dva, w.psize)
  {
    hide Stored, Unreadable, ReadDva, Disjoint, Write, Pool.LayoutOf;
    if ws != [] {
      var n := |ws| - 1;
      WriteAllKeeps(pool, ws[..n], w);
      var before, v := WriteAll(pool, ws[..n]), ws[n];
      SamePlace(pool, before, w.dva, w.psize, v.dva, v.psize);
      WriteKeepsOthers(before, w.dva, w.psize, w.block, v.dva, v.psize, v.block);
    }
  }

  /** Of blocks written on pairwise disjoint ranges the pool holds every one. */
  lemma {:induction false} WriteAllStores(pool: Pool, ws: seq<Placed>, k: nat)
    requires pool.Valid() && AllOn(pool, ws) && AllClear(pool, ws) && k < |ws|
    ensures var after, w := WriteAll(pool, ws), ws[k];
            && Stored(after, w.dva, w.psize, w.block)
            && Unreadable(after, w.dva, w.psize) == Unreadable(pool, w.dva, w.psize)
  {
    hide Stored, Unreadable, ReadDva, Disjoint, Write, Pool.LayoutOf;
    var n := |ws| - 1;
    var before, w, v := WriteAll(pool, ws[..n]), ws[k], ws[n];
    SamePlace(pool, before, w.dva, w.psize, v.dva, v.psize);
    if k < n {
      WriteAllStores(pool, ws[..n], k);
      WriteKeepsOthers(before, w.dva, w.psize, w.block, v.dva, v.psize, v.block);
    } else {
      forall i | 0 <= i < n
        ensures Disjoint(pool, v.dva, v.psize, ws[i].dva, ws[i].psize)
      {
        DisjointBothWays(pool, ws[i], v);
      }
      WriteAllKeeps(pool, ws[..n], v);
      WriteStores(before, v.dva, v.psize, v.block);
    }
  }

  lemma DisjointBothWays(pool: Pool, v: Placed, w: Placed)
    requires pool.Valid() && On(pool, v) && On(pool, w) && Disjoint(pool, v.dva, v.psize, w.dva, w.psize)
    ensures Disjoint(pool, w.dva, w.psize, v.dva, v.psize)
  {
    hide Layout.Check, Layout.Map, RaidzMap.DvaAsize;
  }

  // ----- lost children -----

  lemma LossIsUnread(devices: map<nat, Device>, gone: set<nat>, col: Column)
    ensures ReadColumn(devices - gone, col)
         == if col.size > 0 && col.devidx in gone then None else ReadColumn(devices, col)
  {
  }

  /** The used columns of a copy that lie on the children `gone`. */
  function Hit(pool: Pool, dva: Dva, psize: nat, gone: set<nat>): set<nat>
    requires pool.Valid() && pool.Aligned(dva) && psize > 0
  {
    var cols := ColumnsAt(pool, dva, psize);
    set c: nat | c < |cols| && cols[c].size > 0 && cols[c].devidx in gone
  }

  /** Losing children loses the columns they hit, and what is left is still the block. */
  lemma LossKeepsRest(pool: Pool, dva: Dva, psize: nat, block: seq<Byte>, gone: set<nat>)
    requires pool.Valid() && pool.Aligned(dva) && psize > 0 && Stored(pool, dva, psize, block)
    ensures var less := Without(pool, gone);
            && Stored(less, dva, psize, block)
            && Unreadable(less, dva, psize) == Unreadable(pool, dva, psize) + Hit(pool, dva, psize, gone)
  {
    hide Layout.Check, Layout.Map, ReadColumn;
    var less, cols := Without(pool, gone), ColumnsAt(pool, dva, psize);
    forall c | 0 <= c < |cols|
      ensures ReadColumn(less.devices, cols[c])
           == if cols[c].size > 0 && cols[c].devidx in gone then None else ReadColumn(pool.devices, cols[c])
    {
      LossIsUnread(pool.devices, gone, cols[c]);
    }
  }

  /** The lost children hit parity only, or one used column under single parity. */
  predicate Spared(pool: Pool, dva: Dva, psize: nat, gone: set<nat>)
    requires pool.Valid() && pool.Aligned(dva) && psize > 0
  {
    var hit := Hit(pool, dva, psize, gone);
    (forall c :: c in hit ==> c < pool.nparity) || (pool.nparity == 1 && |hit| <= 1)
  }

  /** The promise of the pool: write any block anywhere on a healthy place of a pool that may hold
      anything, then any other blocks on ranges disjoint from it, then lose any children. The block
      is read back, exactly, when the loss spares it; else it is lost. */
  lemma {:induction false} WriteLoseRead(pool: Pool, w: Placed, later: seq<Placed>, gone: set<nat>)
    requires pool.Valid() && On(pool, w) && !w.dva.Gang() && AllOn(pool, later)
    requires Unreadable(pool, w.dva, w.psize) == {} && Clear(pool, w, later)
    ensures AllOn(Write(pool, w.dva, w.psize, w.block), later)
    ensures var after := WriteAll(Write(pool, w.dva, w.psize, w.block), later);
            var (data, att) := ReadDva(Without(after, gone), w.dva, w.psize);
            if Spared(pool, w.dva, w.psize, gone) then
              w.psize <= |w.block| && data == Some(w.block[..w.psize])
              && (att.status == Recovered || att.status == RecoveredWithReconstruction)
            else data.None? && att.status == MissingData
  {
    hide Layout.Map, Stored, Unreadable, Lay, ReadDva, Disjoint, Hit, Pool.LayoutOf, Write, WriteAll;
    var once := Write(pool, w.dva, w.psize, w.block);
    WriteKeepsPlaces(pool, once, w, later);
    var after := WriteAll(once, later);
    WriteStores(pool, w.dva, w.psize, w.block);
    WriteAllKeeps(once, later, w);
    LossKeepsRest(after, w.dva, w.psize, w.block, gone);
    SameHit(pool, after, w.dva, w.psize, gone);
    ErasureRecovery(Without(after, gone), w.dva, w.psize, w.block);
    StatusIsOneOf(Without(after, gone), w.dva, w.psize);
  }

  lemma WriteKeepsPlaces(pool: Pool, once: Pool, w: Placed, later: seq<Placed>)
    requires pool.Valid() && On(pool, w) && AllOn(pool, later) && Clear(pool, w, later)
    requires once == Write(pool, w.dva, w.psize, w.block)
    ensures once == pool.(devices := once.devices)
    ensures On(once, w) && AllOn(once, later) && Clear(once, w, later)
  {
    hide Disjoint, Lay, Pool.LayoutOf;
    forall k | 0 <= k < |later|
      ensures On(once, later[k]) && Disjoint(once, w.dva, w.psize, later[k].dva, later[k].psize)
    {
      SamePlace(pool, once, w.dva, w.psize, later[k].dva, later[k].psize);
    }
    SamePlace(pool, once, w.dva, w.psize, w.dva, w.psize);
  }

  /** The bytes that a child needs for its columns. */
  function Needed(cols: seq<Column>): (n: nat)
    ensures forall c :: 0 <= c < |cols| ==> PhysOffset(cols[c]) + cols[c].size <= n
  {
    if cols == [] then 0
    else
      var last := cols[|cols| - 1];
      Max(Needed(cols[..|cols| - 1]), PhysOffset(last) + last.size)
  }

  function Children(n: nat, child: Device): (devices: map<nat, Device>)
    ensures forall d: nat :: d < n <==> d in devices
    ensures forall d :: d in devices ==> devices[d] == child
  {
    if n == 0 then map[] else Children(n - 1, child)[n - 1 := child]
  }

  /** The bytes that a child needs for all places. */
  function NeededFor(pool: Pool, ws: seq<Placed>): nat
    requires pool.Valid() && AllOn(pool, ws)
  {
    if ws == [] then 0
    else
      var last := ws[|ws| - 1];
      Max(NeededFor(pool, ws[..|ws| - 1]), Needed(ColumnsAt(pool, last.dva, last.psize)))
  }

  lemma {:induction false} NeededForAll(pool: Pool, ws: seq<Placed>, k: nat)
    requires pool.Valid() && AllOn(pool, ws) && k < |ws|
    ensures Needed(ColumnsAt(pool, ws[k].dva, ws[k].psize)) <= NeededFor(pool, ws)
  {
    hide Needed, ColumnsAt, Pool.LayoutOf;
    if k < |ws| - 1 { NeededForAll(pool, ws[..|ws| - 1], k); }
  }

  /** All places can be read. */
  predicate Healthy(pool: Pool, ws: seq<Placed>)
    requires pool.Valid() && AllOn(pool, ws)
  {
    forall k :: 0 <= k < |ws| ==> Unreadable(pool, ws[k].dva, ws[k].psize) == {}
  }

  /** Healthy places exist: any geometry has a pool on which any number of places can be read. */
  lemma {:induction false} HealthyPool(ashift: nat, ncols: int, nparity: int, ws: seq<Placed>) returns (pool: Pool)
    requires ncols > nparity >= 1 && AllOn(Pool(map[], ashift, ncols, nparity), ws)
    ensures pool.ashift == ashift && pool.ncols == ncols && pool.nparity == nparity
    ensures pool.Valid() && AllOn(pool, ws) && Healthy(pool, ws)
  {
    hide Layout.Check, Layout.Map, Needed, Pool.LayoutOf, Unreadable;
    var empty := Pool(map[], ashift, ncols, nparity);
    var child := Device(Zeros(NeededFor(empty, ws)), {});
    pool := empty.(devices := Children(ncols, child));
    forall k | 0 <= k < |ws|
      ensures On(pool, ws[k]) && Unreadable(pool, ws[k].dva, ws[k].psize) == {}
    {
      var w := ws[k];
      SamePlace(empty, pool, w.dva, w.psize, w.dva, w.psize);
      NeededForAll(empty, ws, k);
      RoomForAll(pool, w.dva, w.psize, child);
    }
  }

  lemma {:induction false} RoomForAll(pool: Pool, dva: Dva, psize: nat, child: Device)
    requires pool.Valid() && pool.Aligned(dva) && psize > 0
    requires child.bad == {} && |child.content| >= Needed(ColumnsAt(pool, dva, psize))
    requires pool.devices == Children(pool.ncols, child)
    ensures Unreadable(pool, dva, psize) == {}
  {
    hide Layout.Check, Layout.Map, Needed;
    var cols := ColumnsAt(pool, dva, psize);
    forall c | 0 <= c < |cols|
      ensures ReadColumn(pool.devices, cols[c]).Some?
    {
      MapShape(pool.LayoutOf(dva, psize));
      RaidzMapChild(pool.LayoutOf(dva, psize), c);
    }
  }

  /** Where a block lies depends on the geometry alone. */
  lemma SamePlace(pool: Pool, other: Pool, dva: Dva, psize: nat, dva': Dva, psize': nat)
    requires pool.Valid() && pool.Aligned(dva) && psize > 0 && pool.Aligned(dva') && psize' > 0
    requires other == pool.(devices := other.devices)
    ensures other.LayoutOf(dva, psize) == pool.LayoutOf(dva, psize)
    ensures other.LayoutOf(dva', psize') == pool.LayoutOf(dva', psize')
    ensures Disjoint(other, dva, psize, dva', psize') <==> Disjoint(pool, dva, psize, dva', psize')
  {
    hide Layout.Check, Layout.Map;
  }

  lemma SameHit(pool: Pool, other: Pool, dva: Dva, psize: nat, gone: set<nat>)
    requires pool.Valid() && pool.Aligned(dva) && psize > 0
    requires other == pool.(devices := other.devices)
    ensures Hit(other, dva, psize, gone) == Hit(pool, dva, psize, gone)
  {
    hide Layout.Check, Layout.Map;
  }

  lemma StatusIsOneOf(pool: Pool, dva: Dva, psize: nat)
    requires pool.Valid() && pool.Aligned(dva) && psize > 0 && !dva.Gang()
    ensures ReadDva(pool, dva, psize).1.status in {Recovered, RecoveredWithReconstruction, MissingData}
  {
    hide ReadDva;
    StatusOfRead(pool, dva, psize);
  }
}
