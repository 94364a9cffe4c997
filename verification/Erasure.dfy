/** The promise of single parity: what was laid out is read back whenever the geometry allows. */
module Erasure {
  import opened Bytes
  import opened Blkptr
  import opened Raidz
  import opened RaidzGeometry
  import opened Availability
  import opened Parity
  import opened PoolRead

  /** `n` bytes of the block from `start` (fewer at its end). */
  function Cut(block: seq<Byte>, start: nat, n: nat): seq<Byte>
  {
    block[Min(start, |block|)..Min(start + n, |block|)]
  }

  /** The share of the block that each data column carries. */
  function Shares(cols: seq<Column>, block: seq<Byte>): (s: seq<seq<Byte>>)
    ensures |s| == |cols|
  {
    seq(|cols|, c requires 0 <= c < |cols| =>
      if cols[c].role == Data then Cut(block, SizeOf(cols[..c], Data), cols[c].size) else [])
  }

  /** The medium holds the block: every column that can be read carries its share, and the
      first parity column the exclusive or of the data columns. */
  predicate HoldsBlock(cols: seq<Column>, got: seq<Option<seq<Byte>>>, block: seq<Byte>)
    requires |cols| == |got|
  {
    forall c :: 0 <= c < |cols| && got[c].Some? ==>
      && (cols[c].role == Data ==> got[c].value == Shares(cols, block)[c])
      && (c == 0 ==> got[c].value == ParityOf(cols, Shares(cols, block), cols[0].size))
  }

  predicate WellShaped(cols: seq<Column>, got: seq<Option<seq<Byte>>>, nparity: int, block: seq<Byte>)
  {
    && Indexed(cols) && SkipsAreEmpty(cols) && |cols| == |got|
    && ParityFirst(cols, nparity)
    && SizeOf(cols, Data) == |block|
    && (forall c :: 0 <= c < |cols| ==> cols[c].size <= cols[0].size)
    && (forall c :: 0 <= c < |cols| && cols[c].role == Skip ==> got[c].Some?)
  }

  lemma {:induction false} SizeOfPrefixes(cols: seq<Column>, c: nat)
    requires c < |cols| && cols[c].role == Data
    ensures SizeOf(cols[..c], Data) + cols[c].size <= SizeOf(cols, Data)
  {
    var n := |cols| - 1;
    if c < n {
      SizeOfPrefixes(cols[..n], c);
      assert cols[..n][..c] == cols[..c];
    }
  }

  lemma {:induction false} JoinShares(cols: seq<Column>, bytes: seq<seq<Byte>>, block: seq<Byte>, n: nat)
    requires n <= |cols| == |bytes| && SizeOf(cols, Data) <= |block|
    requires forall c :: 0 <= c < n && cols[c].role == Data ==> bytes[c] == Shares(cols, block)[c]
    ensures SizeOf(cols[..n], Data) <= |block|
    ensures Join(cols, bytes, n) == block[..SizeOf(cols[..n], Data)]
  {
    if n > 0 {
      JoinShares(cols, bytes, block, n - 1);
      assert cols[..n][..n - 1] == cols[..n - 1];
      if cols[n - 1].role == Data {
        SizeOfPrefixes(cols, n - 1);
      }
    }
  }

  lemma {:induction false} ShareSize(cols: seq<Column>, block: seq<Byte>, c: nat)
    requires c < |cols| && cols[c].role == Data && SizeOf(cols, Data) <= |block|
    ensures |Shares(cols, block)[c]| == cols[c].size
  {
    SizeOfPrefixes(cols, c);
  }

  /** The column rebuilt from parity is the lost share. */
  lemma RebuiltIsShare(cols: seq<Column>, got: seq<Option<seq<Byte>>>, nparity: int, block: seq<Byte>, k: nat)
    requires WellShaped(cols, got, nparity, block) && HoldsBlock(cols, got, block)
    requires k < |cols| && cols[k].role == Data && got[0].Some?
    requires forall c :: 0 <= c < |cols| && c != k && cols[c].role == Data ==> got[c].Some?
    ensures RebuiltColumn(cols, Values(got), k) == Shares(cols, block)[k]
  {
    hide SizeOf, CountRole;
    var shares := Shares(cols, block);
    var p := ParityOf(cols, shares, cols[0].size);
    ShareSize(cols, block, k);
    Rebuild(cols, shares, cols[0].size, k);
    assert Values(got)[0] == p;
    XorColumnsIgnores(cols, Values(got), shares, k, p[..cols[k].size], |cols|);
  }

  /** The missing columns, by role. */
  lemma {:induction false} LostByRole(cols: seq<Column>, got: seq<Option<seq<Byte>>>, nparity: int)
    requires Indexed(cols) && SkipsAreEmpty(cols) && |cols| == |got| && CountRole(cols, Parity) == nparity
    ensures var gone := Unread(got);
            var lost := GoneUsed(cols, gone);
            var data, parity := Select(cols, Data, gone), Select(cols, Parity, gone);
            && |data| + |parity| == |lost| && |parity| <= nparity
            && (data == [] <==> forall c: nat :: c in lost ==> cols[c].role == Parity)
            && (forall c: nat :: c in data <==> c < |cols| && cols[c].role == Data && got[c].None?)
            && (forall c: nat :: c in parity <==> c < |cols| && cols[c].role == Parity && got[c].None?)
  {
    hide CountRole, GoneUsed, Unread;
    var gone := Unread(got);
    var lost := GoneUsed(cols, gone);
    var data, parity := Select(cols, Data, gone), Select(cols, Parity, gone);
    SelectCounts(cols, gone);
    SelectIsIndex(cols, Data, gone);
    SelectIsIndex(cols, Parity, gone);
    SelectWithin(cols, Parity, gone);
    LostRoles(cols, gone, got);
    if data != [] {
      assert data[0] in data;
    } else {
      assert forall c: nat :: c !in data;
    }
  }

  /** With one data column missing and the parity there, everything else has been read. */
  lemma OneMissing(cols: seq<Column>, got: seq<Option<seq<Byte>>>, data: seq<nat>)
    requires |cols| == |got| && |data| == 1
    requires forall c: nat :: c in data <==> c < |cols| && cols[c].role == Data && got[c].None?
    ensures data[0] < |cols| && cols[data[0]].role == Data
    ensures forall c :: 0 <= c < |cols| && c != data[0] && cols[c].role == Data ==> got[c].Some?
  {
    assert data[0] in data;
    forall c | 0 <= c < |cols| && c != data[0] && cols[c].role == Data
      ensures got[c].Some?
    {
      assert c !in data;
    }
  }

  /** `Assemble` gives the block back exactly when no data column is missing, or one is and
      single parity is there to rebuild it. */
  lemma AssembleReturnsBlock(cols: seq<Column>, got: seq<Option<seq<Byte>>>, nparity: int,
                             psize: nat, block: seq<Byte>)
    requires WellShaped(cols, got, nparity, block) && HoldsBlock(cols, got, block)
    ensures var (data, att) := Assemble(cols, got, nparity, psize);
            var lost := GoneUsed(cols, Unread(got));
            var intact := forall c: nat :: c in lost ==> cols[c].role == Parity;
            && att.missing == lost
            && (data.Some? <==> intact || (nparity == 1 && |lost| <= 1))
            && (data.Some? ==> data.value == Take(block, psize))
            && att.status == (if data.None? then MissingData
                              else if intact then Recovered else RecoveredWithReconstruction)
  {
    hide SizeOf, CountRole, XorColumns, GoneUsed, Unread, Select, Join, HoldsBlock, RebuiltColumn, Take, Whole, Shares;
    LostByRole(cols, got, nparity);
    var gone := Unread(got);
    var data, parity := Select(cols, Data, gone), Select(cols, Parity, gone);
    if data == [] {
      SharesRead(cols, got, block);
      SharesWhole(cols, Values(got), block);
      JoinAll(cols, got, Values(got), nparity, block);
    } else if |data| <= nparity - |parity| && nparity == 1 {
      var k := data[0];
      assert parity == [] && got[0].Some? by { assert 0 !in parity; }
      OneMissing(cols, got, data);
      SharesRead(cols, got, block);
      RebuiltIsShare(cols, got, nparity, block, k);
      var bytes := Values(got)[k := RebuiltColumn(cols, Values(got), k)];
      SharesWhole(cols, bytes, block);
      JoinAll(cols, got, bytes, nparity, block);
    }
  }

  lemma SharesRead(cols: seq<Column>, got: seq<Option<seq<Byte>>>, block: seq<Byte>)
    requires |cols| == |got| && HoldsBlock(cols, got, block)
    ensures forall c :: 0 <= c < |cols| && cols[c].role == Data && got[c].Some? ==>
                        Values(got)[c] == Shares(cols, block)[c]
  {
  }

  lemma {:induction false} SharesWhole(cols: seq<Column>, bytes: seq<seq<Byte>>, block: seq<Byte>)
    requires |cols| == |bytes| && SizeOf(cols, Data) <= |block|
    requires forall c :: 0 <= c < |cols| && cols[c].role == Data ==> bytes[c] == Shares(cols, block)[c]
    ensures Whole(cols, bytes)
  {
    hide SizeOf, Shares;
    forall c | 0 <= c < |cols| && cols[c].role == Data
      ensures |bytes[c]| == cols[c].size
    {
      ShareSize(cols, block, c);
    }
  }

  lemma LostRoles(cols: seq<Column>, gone: seq<bool>, got: seq<Option<seq<Byte>>>)
    requires |cols| == |got| && gone == Unread(got) && SkipsAreEmpty(cols)
    ensures forall c: nat :: c in GoneUsed(cols, gone) <==>
                             c < |cols| && got[c].None? && cols[c].role != Skip
    ensures forall c: nat :: c < |cols| ==> (gone[c] <==> got[c].None?)
  {
  }

  lemma {:induction false} JoinAll(cols: seq<Column>, got: seq<Option<seq<Byte>>>, bytes: seq<seq<Byte>>,
                                   nparity: int, block: seq<Byte>)
    requires WellShaped(cols, got, nparity, block) && |bytes| == |cols|
    requires forall c :: 0 <= c < |cols| && cols[c].role == Data ==> bytes[c] == Shares(cols, block)[c]
    ensures Join(cols, bytes, |cols|) == block
  {
    JoinShares(cols, bytes, block, |cols|);
    assert cols[..|cols|] == cols;
  }

  // ----- from the pool -----

  /** The pool holds `block` at the place of a DVA. */
  predicate Stored(pool: Pool, dva: Dva, psize: nat, block: seq<Byte>)
    requires pool.Valid() && pool.Aligned(dva) && psize > 0
  {
    var l := pool.LayoutOf(dva, psize);
    var cols := l.Map().columns;
    |block| == l.size && HoldsBlock(cols, ReadColumns(pool.devices, cols), block)
  }

  /** The used columns of a copy that cannot be read, for want of a child or of a sector. */
  function Unreadable(pool: Pool, dva: Dva, psize: nat): set<nat>
    requires pool.Valid() && pool.Aligned(dva) && psize > 0
  {
    var cols := pool.LayoutOf(dva, psize).Map().columns;
    GoneUsed(cols, Unread(ReadColumns(pool.devices, cols)))
  }

  /** A copy is readable when only parity is missing, or one column in all under single parity. */
  predicate Readable(pool: Pool, dva: Dva, psize: nat)
    requires pool.Valid() && pool.Aligned(dva) && psize > 0
  {
    var lost := Unreadable(pool, dva, psize);
    (forall c :: c in lost ==> c < pool.nparity) || (pool.nparity == 1 && |lost| <= 1)
  }

  lemma LayoutShape(pool: Pool, l: Layout, block: seq<Byte>)
    requires l.Valid() && |block| == l.size && l.nparity == pool.nparity
    ensures var cols := l.Map().columns;
            && WellShaped(cols, ReadColumns(pool.devices, cols), pool.nparity, block)
            && (forall c :: 0 <= c < |cols| ==> (cols[c].role == Parity <==> c < l.nparity))
  {
    hide Layout.Check, Layout.Columns, SizeOf, CountRole;
    MapShape(l);
    ColumnSizes(l);
  }

  /** Absent children are unreadable columns. */
  lemma AbsentIsUnread(pool: Pool, cols: seq<Column>)
    ensures var lost := GoneUsed(cols, Unread(ReadColumns(pool.devices, cols)));
            GoneUsed(cols, Absent(cols, pool.devices.Keys)) <= lost
  {
  }

  lemma {:induction false} Below(s: set<nat>, n: nat)
    ensures (forall c :: c in s ==> c < n) ==> |s| <= n
  {
    if n == 0 {
      assert s != {} ==> exists c :: c in s;
    } else {
      Below(s - {n - 1}, n - 1);
      if n - 1 in s {
        assert |s| == |s - {n - 1}| + 1;
      } else {
        assert s - {n - 1} == s;
      }
    }
  }

  lemma SubsetSize(s: set<nat>, t: set<nat>)
    requires s <= t
    ensures |s| <= |t|
  {
    if s != t {
      assert t == s + (t - s);
    }
  }

  lemma ReadLayoutReturns(pool: Pool, l: Layout, psize: nat, block: seq<Byte>)
    requires l.Valid() && |block| == l.size && l.nparity == pool.nparity
    requires HoldsBlock(l.Map().columns, ReadColumns(pool.devices, l.Map().columns), block)
    ensures var (data, att) := ReadLayout(pool, l, psize);
            var lost := GoneUsed(l.Map().columns, Unread(ReadColumns(pool.devices, l.Map().columns)));
            var intact := forall c :: c in lost ==> c < pool.nparity;
            && (data.Some? <==> intact || (pool.nparity == 1 && |lost| <= 1))
            && (data.Some? ==> data.value == Take(block, psize))
            && att.status == (if data.None? then MissingData
                              else if intact then Recovered else RecoveredWithReconstruction)
  {
    hide Layout.Check, Layout.Columns, SizeOf, CountRole, GoneUsed, Unread, Absent, Assemble, HoldsBlock,
         ReadColumns, SkipsAreEmpty;
    var cols := l.Map().columns;
    var got := ReadColumns(pool.devices, cols);
    var lost := GoneUsed(cols, Unread(got));
    LayoutShape(pool, l, block);
    AssembleReturnsBlock(cols, got, pool.nparity, psize, block);
    RecoverableIff(l, pool.devices.Keys);
    AbsentIsUnread(pool, cols);
    LostRoles(cols, Unread(got), got);
    var absent := GoneUsed(cols, Absent(cols, pool.devices.Keys));
    SubsetSize(absent, lost);
    Below(lost, l.nparity);
  }

  /** On columns that were read whole, the last check of their lengths never fails, and the column that is
      recorded as reconstructed is the one data column that could not be read. */
  lemma {:induction false} AlwaysWhole(cols: seq<Column>, got: seq<Option<seq<Byte>>>, nparity: int, psize: nat)
    requires Indexed(cols) && |cols| == |got| && ParityFirst(cols, nparity)
    requires forall c :: 0 <= c < |cols| ==>
               cols[c].size <= cols[0].size && (got[c].Some? ==> |got[c].value| == cols[c].size)
    ensures var (data, att) := Assemble(cols, got, nparity, psize);
            var gone := Unread(got);
            var lost, parity := Select(cols, Data, gone), Select(cols, Parity, gone);
            && att.missing == GoneUsed(cols, gone)
            && att.status == (if lost == [] then Recovered
                              else if |lost| <= nparity - |parity| && nparity == 1 then RecoveredWithReconstruction
                              else MissingData)
            && (data.None? <==> att.status == MissingData)
            && (att.reconstructed != [] <==> att.status == RecoveredWithReconstruction)
            && |att.reconstructed| <= 1
            && forall c: nat :: c in att.reconstructed <==>
                 att.status == RecoveredWithReconstruction && c < |cols| && cols[c].role == Data && got[c].None?
  {
    hide XorColumns, GoneUsed, Select, Join, CountRole;
    var gone := Unread(got);
    var lost, parity := Select(cols, Data, gone), Select(cols, Parity, gone);
    SelectIsIndex(cols, Data, gone);
    SelectIsIndex(cols, Parity, gone);
    if lost == [] {
      assert forall c: nat :: c !in lost;
      assert Whole(cols, Values(got));
    } else if |lost| <= nparity - |parity| && nparity == 1 {
      OneMissing(cols, got, lost);
      assert got[0].Some? by { assert 0 !in parity; }
      assert lost[0] in lost;
      assert Whole(cols, Values(got)[lost[0] := RebuiltColumn(cols, Values(got), lost[0])]);
    }
  }

  lemma StatusOfRead(pool: Pool, dva: Dva, psize: nat)
    requires pool.Valid() && pool.Aligned(dva) && psize > 0 && !dva.Gang()
    ensures var (raw, att) := ReadDva(pool, dva, psize);
            && (raw.None? <==> att.status == MissingData)
            && (raw.Some? ==> att.status == Recovered || att.status == RecoveredWithReconstruction)
            && (att.status == RecoveredWithReconstruction <==> att.reconstructed != [])
  {
    hide Layout.Check, Layout.Map, Assemble;
    var l := pool.LayoutOf(dva, psize);
    var cols := l.Map().columns;
    LayoutShape(pool, l, Zeros(l.size));
    MapShape(l);
    AlwaysWhole(cols, ReadColumns(pool.devices, cols), pool.nparity, psize);
  }

  /** With every supplied child readable, whatever it holds, the status of the reading is the
      verdict of the geometry, and the missing columns are those of the absent children. */
  lemma StatusIsVerdict(pool: Pool, dva: Dva, psize: nat)
    requires pool.Valid() && pool.Aligned(dva) && psize > 0 && !dva.Gang()
    requires var cols := pool.LayoutOf(dva, psize).Map().columns;
             forall c :: 0 <= c < |cols| && cols[c].devidx in pool.devices ==> ReadColumn(pool.devices, cols[c]).Some?
    ensures var rm := pool.LayoutOf(dva, psize).Map();
            var verdict := AnalyseAvailability(rm, pool.devices.Keys).status;
            var (data, att) := ReadDva(pool, dva, psize);
            && att.status == (match verdict
                              case Complete => Recovered
                              case Reconstructible =>
                                if pool.nparity == 1 then RecoveredWithReconstruction else MissingData
                              case Lost => MissingData)
            && (data.None? <==> att.status == MissingData)
            && att.missing == GoneUsed(rm.columns, Absent(rm.columns, pool.devices.Keys))
  {
    hide Layout.Check, Layout.Map, GoneUsed, Select, CountRole, Assemble;
    var l := pool.LayoutOf(dva, psize);
    var cols := l.Map().columns;
    var got := ReadColumns(pool.devices, cols);
    var gone, absent := Unread(got), Absent(cols, pool.devices.Keys);
    LayoutShape(pool, l, Zeros(l.size));
    MapShape(l);
    AlwaysWhole(cols, got, pool.nparity, psize);
    SelectSame(cols, Data, gone, absent);
    SelectSame(cols, Parity, gone, absent);
    GoneSame(cols, gone, absent);
  }

  /** Only the columns of a role matter to what is selected of it. */
  lemma {:induction false} SelectSame(cols: seq<Column>, role: Role, g: seq<bool>, h: seq<bool>)
    requires |cols| == |g| == |h| && forall c :: 0 <= c < |cols| && cols[c].role == role ==> g[c] == h[c]
    ensures Select(cols, role, g) == Select(cols, role, h)
  {
    if cols != [] {
      var n := |cols| - 1;
      SelectSame(cols[..n], role, g[..n], h[..n]);
    }
  }

  lemma GoneSame(cols: seq<Column>, g: seq<bool>, h: seq<bool>)
    requires |cols| == |g| == |h| && forall c :: 0 <= c < |cols| && cols[c].size > 0 ==> g[c] == h[c]
    ensures GoneUsed(cols, g) == GoneUsed(cols, h)
  {
  }

  /** End to end: for every offset, size, sector size and number of children, a stored block
      is returned exactly when its copy is readable, and then it is the original bytes. */
  lemma ErasureRecovery(pool: Pool, dva: Dva, psize: nat, block: seq<Byte>)
    requires pool.Valid() && pool.Aligned(dva) && psize > 0 && !dva.Gang()
    requires Stored(pool, dva, psize, block)
    ensures var (data, att) := ReadDva(pool, dva, psize);
            && (data.Some? <==> Readable(pool, dva, psize))
            && (data.Some? ==> psize <= |block| && data.value == block[..psize])
            && (data.None? <==> att.status == MissingData)
            && (att.status == Recovered <==>
                forall c :: c in Unreadable(pool, dva, psize) ==> c < pool.nparity)
  {
    hide Layout.Check, Layout.Map, GoneUsed, Unread, ReadColumns, HoldsBlock, ReadLayout;
    var l := pool.LayoutOf(dva, psize);
    ReadLayoutReturns(pool, l, psize, block);
    var lost := GoneUsed(l.Map().columns, Unread(ReadColumns(pool.devices, l.Map().columns)));
    assert Unreadable(pool, dva, psize) == lost;
    assert Readable(pool, dva, psize) <==>
           (forall c :: c in lost ==> c < pool.nparity) || (pool.nparity == 1 && |lost| <= 1);
    assert ReadDva(pool, dva, psize) == ReadLayout(pool, l, psize);
  }
}
