/** What the RAIDZ map promises: sizes, sectors, and recoverability from geometry. */
module RaidzGeometry {
  import opened Bytes
  import opened Raidz

  // ----- roles and sizes -----

  lemma RoleByIndex(l: Layout, c: nat)
    requires l.Valid() && c < l.SCols()
    ensures l.RoleOf(c) == if c < l.nparity then Parity else if c < l.ACols() then Data else Skip
    ensures l.RoleOf(c) == Skip <==> l.Rows(c) == 0
    ensures l.Rows(c) <= l.Rows(0)
  {
    TotalSplit(l);
  }

  /** Total size of the columns of one role. */
  function SizeOf(cols: seq<Column>, role: Role): nat
  {
    if cols == [] then 0
    else SizeOf(cols[..|cols| - 1], role)
         + (if cols[|cols| - 1].role == role then cols[|cols| - 1].size else 0)
  }

  /** Sectors of one role in the columns before `c`. */
  function RowsOf(l: Layout, c: nat, role: Role): nat
    requires l.Valid()
  {
    if c == 0 then 0
    else RowsOf(l, c - 1, role) + (if l.RoleOf(c - 1) == role then l.Rows(c - 1) else 0)
  }

  lemma {:induction false} SizeIsRows(l: Layout, c: nat, role: Role)
    requires l.Valid() && c <= l.SCols()
    ensures SizeOf(l.Columns()[..c], role) == RowsOf(l, c, role) * l.Sector()
  {
    hide Layout.Check, Layout.Q, Layout.R, Layout.Sectors, Layout.BigCols, Layout.Rows, Layout.RoleOf;
    if c > 0 {
      SizeIsRows(l, c - 1, role);
      assert l.Columns()[..c][..c - 1] == l.Columns()[..c - 1];
      Distribute(RowsOf(l, c - 1, role), RowsOf(l, c, role) - RowsOf(l, c - 1, role), l.Sector());
    }
  }

  lemma {:induction false} RowsByRole(l: Layout, c: nat)
    requires l.Valid() && c <= l.SCols()
    ensures RowsOf(l, c, Parity) == Min(c, l.nparity) * l.Rows(0)
    ensures RowsOf(l, c, Parity) + RowsOf(l, c, Data) == RowsBefore(l, c)
  {
    hide Layout.Q, Layout.R, Layout.Sectors, Layout.BigCols;
    if c > 0 {
      RowsByRole(l, c - 1);
      RoleByIndex(l, c - 1);
      TotalSplit(l);
      EqualParity(l, c - 1);
      var r := l.Rows(0);
      if c <= l.nparity {
        assert Min(c, l.nparity) * r == c * r && Min(c - 1, l.nparity) * r == (c - 1) * r;
        Distribute(c - 1, 1, r);
      }
    }
  }

  lemma EqualParity(l: Layout, c: nat)
    requires l.Valid()
    ensures c <= l.nparity ==> l.Rows(c) == l.Rows(0)
    ensures l.Sectors() == l.Total() - l.nparity * l.Rows(0)
  {
    TotalSplit(l);
  }

  /** The data columns hold exactly the block, each parity column is as long as the longest
      of them, and together they are the whole `asize`. */
  lemma ColumnSizes(l: Layout)
    requires l.Valid()
    ensures var cols := l.Map().columns;
            && SizeOf(cols, Data) == l.size
            && SizeOf(cols, Parity) == l.nparity * cols[0].size
            && SizeOf(cols, Data) + SizeOf(cols, Parity) == l.Map().asize
            && |cols| == l.SCols() <= l.dcols
            && (forall c :: 0 <= c < |cols| ==> (cols[c].role == Parity <==> c < l.nparity))
            && (forall c :: 0 <= c < |cols| ==> cols[c].size <= cols[0].size)
  {
    hide Layout.Check, Layout.Q, Layout.R, Layout.BigCols, Layout.Total;
    var cols, sc, p, sec := l.Columns(), l.SCols(), l.nparity, l.Sector();
    TotalSplit(l);
    SizeIsRows(l, sc, Data);
    SizeIsRows(l, sc, Parity);
    assert cols[..sc] == cols;
    RowsByRole(l, sc);
    RowsTotal(l);
    EqualParity(l, 0);
    MulAssoc(p, l.Rows(0), sec);
    Distribute(l.Sectors(), p * l.Rows(0), sec);
    forall c | 0 <= c < |cols|
      ensures cols[c].role == Parity <==> c < l.nparity
      ensures cols[c].size <= cols[0].size
    {
      RoleByIndex(l, c);
      MulMono(l.Rows(c), l.Rows(0), sec);
    }
  }

  // ----- the size reserved in the DVA -----

  /** The size of the transfer for a block of `psize` bytes. */
  function IoSizeForPsize(psize: int, ashift: nat): Option<int>
  {
    if psize <= 0 then None else Some(RoundUp(psize, Pow2(ashift)))
  }

  function RaidzAsize(psize: int, ashift: nat, dcols: int, nparity: int): int
    requires dcols > nparity >= 0
  {
    var data := (psize - 1) / Pow2(ashift) + 1;
    var all := data + nparity * ((data + dcols - nparity - 1) / (dcols - nparity));
    RoundUp(all, nparity + 1) * Pow2(ashift)
  }

  lemma {:induction false} IoSizeAligned(psize: int, ashift: nat)
    requires psize > 0
    ensures var io := RoundUp(psize, Pow2(ashift));
            && psize <= io < psize + Pow2(ashift)
            && io % Pow2(ashift) == 0
            && io / Pow2(ashift) == (psize - 1) / Pow2(ashift) + 1
  {
    var sec := Pow2(ashift);
    RoundUpBounds(psize, sec);
    var k := (psize - 1) / sec;
    var m := (psize - 1) % sec;
    assert psize - 1 == k * sec + m;
    assert (k + 1) * sec == k * sec + sec;
    DivModUnique(psize + sec - 1, sec, k + 1, m);
    DivModUnique((k + 1) * sec, sec, k + 1, 0);
  }

  lemma CeilDiv(s: nat, n: nat)
    requires n > 0
    ensures (s + n - 1) / n == s / n + (if s % n == 0 then 0 else 1)
  {
    var q, r := s / n, s % n;
    assert s == q * n + r;
    if r == 0 {
      DivModUnique(s + n - 1, n, q, n - 1);
    } else {
      assert (q + 1) * n == q * n + n;
      DivModUnique(s + n - 1, n, q + 1, r - 1);
    }
  }

  lemma TotalByCeil(l: Layout)
    requires l.Valid()
    ensures l.Total() ==
            l.Sectors() + l.nparity * ((l.Sectors() + l.dcols - l.nparity - 1) / (l.dcols - l.nparity))
  {
    var s, n := l.Sectors(), l.dcols - l.nparity;
    CeilDiv(s, n);
    assert s == (s / n) * n + s % n;
  }

  /** The quantities of the map, counted another way: parity is one sector for each begun row of
      data; the sectors are dealt out to the columns in turn, so column c has every c-th of a row;
      the columns with a sector are used, and padding goes up to a multiple of nparity + 1. */
  lemma DealtOut(l: Layout)
    requires l.Valid()
    ensures var t, d := l.Total(), l.dcols;
            && t == l.Sectors() + l.nparity * ((l.Sectors() + d - l.nparity - 1) / (d - l.nparity))
            && (forall c: nat :: c < d ==> l.Rows(c) == if c < t then (t - 1 - c) / d + 1 else 0)
            && l.ACols() == Min(t, d)
            && l.SCols() == Min(RoundUp(t, l.nparity + 1), d)
            && l.Skipped() == RoundUp(t, l.nparity + 1) - t
  {
    hide Layout.Total, Layout.BigCols, Layout.R, Layout.Q, Layout.SCols, RoundUp;
    TotalByCeil(l);
    TotalSplit(l);
    UsedColumns(l);
    var t, d, q, bc := l.Total(), l.dcols, l.Q(), l.BigCols();
    forall c: nat | c < d
      ensures l.Rows(c) == if c < t then (t - 1 - c) / d + 1 else 0
    {
      Dealt(q, d, bc, c);
    }
  }

  lemma UsedColumns(l: Layout)
    requires l.Valid()
    ensures l.ACols() == Min(l.Total(), l.dcols) && l.SCols() == Min(RoundUp(l.Total(), l.nparity + 1), l.dcols)
  {
    hide Layout.Total, Layout.BigCols, Layout.R, Layout.Q, RoundUp;
    TotalSplit(l);
    RoundUpBounds(l.Total(), l.nparity + 1);
    if l.Q() > 0 { MulMono(1, l.Q(), l.dcols); }
  }

  /** Of q * d + bc sectors dealt out to d columns in turn, column c has q, and one more if c < bc. */
  lemma Dealt(q: nat, d: nat, bc: nat, c: nat)
    requires c < d && bc < d
    ensures var t := q * d + bc;
            (if c < t then (t - 1 - c) / d + 1 else 0) == if c < bc then q + 1 else q
  {
    var t := q * d + bc;
    if c < bc {
      MulMono(0, q, d);
      DivModUnique(t - 1 - c, d, q, bc - 1 - c);
    } else if q > 0 {
      Distribute(q - 1, 1, d);
      MulMono(0, q - 1, d);
      DivModUnique(t - 1 - c, d, q - 1, d + bc - 1 - c);
    }
  }

  /** The map and the allocator's formula agree on the size of the DVA, which is always a
      multiple of nparity + 1 sectors. */
  lemma {:induction false} AsizeAgrees(offset: int, psize: int, ashift: nat, dcols: int, nparity: int)
    requires psize > 0 && dcols > nparity >= 1
    requires offset >= 0 && offset % Pow2(ashift) == 0
    ensures var l := Layout(offset, IoSizeForPsize(psize, ashift).value, ashift, dcols, nparity);
            && l.Valid()
            && l.Map().DvaAsize() == RaidzAsize(psize, ashift, dcols, nparity)
            && l.Map().DvaAsize() % ((nparity + 1) * Pow2(ashift)) == 0
  {
    hide Layout.Q, Layout.R, Layout.BigCols, Layout.Columns, Layout.ACols, Layout.SCols, Layout.Total;
    IoSizeAligned(psize, ashift);
    var l := Layout(offset, RoundUp(psize, Pow2(ashift)), ashift, dcols, nparity);
    var sec, all := l.Sector(), RoundUp(l.Total(), nparity + 1);
    TotalByCeil(l);
    RoundUpBounds(l.Total(), nparity + 1);
    Distribute(l.Total(), l.Skipped(), sec);
    MultipleScales(all, nparity + 1, sec);
  }

  lemma MultipleScales(all: int, k: int, sec: int)
    requires k > 0 && sec > 0 && all % k == 0
    ensures k * sec > 0 && (all * sec) % (k * sec) == 0
  {
    var m := all / k;
    MulPositive(k, sec);
    MulAssoc(m, k, sec);
    DivModUnique(all * sec, k * sec, m, 0);
  }

  // ----- the sectors -----

  /** Row `row` of child `dev`. */
  datatype Sector = Sector(dev: nat, row: nat)

  /** The number of a sector, counted row by row across the children. */
  function Number(s: Sector, dcols: nat): nat
  {
    s.row * dcols + s.dev
  }

  /** The row of a child that byte `x` of it lies in. */
  function RowOf(x: nat, sec: nat): (row: nat)
    requires sec > 0
    ensures row * sec <= x
  {
    x / sec
  }

  /** Row `j` of column `c` of the map. */
  function SectorAt(l: Layout, c: nat, j: nat): Sector
    requires l.Valid() && c < l.SCols()
  {
    var col := l.Map().columns[c];
    Sector(col.devidx, RowOf(col.offset, l.Sector()) + j)
  }

  /** Row j of column c is sector number b + c + j * dcols (c being the place of the column). */
  lemma SectorNumber(l: Layout, c: nat, j: nat)
    requires l.Valid() && c < l.SCols()
    ensures SectorAt(l, c, j).dev < l.dcols
    ensures Number(SectorAt(l, c, j), l.dcols) == l.Base() + l.Place(c) + j * l.dcols
  {
    hide Layout.Check, Layout.Q, Layout.R, Layout.BigCols, Layout.ACols, Layout.SCols, Layout.Rows, Layout.Total,
         Layout.Base;
    TotalSplit(l);
    var d, n := l.dcols, l.Base() + l.Place(c);
    DivModUnique((n / d) * l.Sector(), l.Sector(), n / d, 0);
    Distribute(n / d, j, d);
  }

  lemma PlaceKeepsRows(l: Layout, c: nat)
    requires l.Valid() && c < l.SCols()
    ensures l.Place(c) < l.SCols() && l.Rows(l.Place(c)) == l.Rows(c)
    ensures l.Place(l.Place(c)) == c
  {
    TotalSplit(l);
  }

  /** Cell (p, j) of the grid of q full rows of d cells and one row of bc cells. */
  lemma CellBelow(p: int, j: int, d: int, q: int, bc: int)
    requires 0 <= p < d && 0 <= j && 0 <= bc <= d
    requires j < q || (j == q && p < bc)
    ensures p + j * d < q * d + bc
  {
    if j < q {
      MulMono(j + 1, q, d);
      Distribute(j, 1, d);
    }
  }

  lemma CellOf(n: nat, d: int, q: nat, bc: nat) returns (p: nat, j: nat)
    requires d > 0 && bc <= d && n < q * d + bc
    ensures p < d && n == p + j * d
    ensures j < q || (j == q && p < bc)
  {
    p, j := n % d, n / d;
    assert n == j * d + n % d;
    if j > q {
      MulMono(q + 1, j, d);
      Distribute(q, 1, d);
    }
  }

  /** A sector belongs to the block: it is some row of some column of the map. */
  ghost predicate Uses(l: Layout, s: Sector)
    requires l.Valid()
  {
    exists c: nat, j: nat :: c < l.SCols() && j < l.Rows(c) && SectorAt(l, c, j) == s
  }

  /** The map uses exactly the sectors numbered b .. b + total - 1, with or without the
      exchange of the parity column. */
  lemma UsesExactly(l: Layout, s: Sector)
    requires l.Valid()
    ensures Uses(l, s) <==>
            s.dev < l.dcols && l.Base() <= Number(s, l.dcols) < l.Base() + l.Total()
  {
    if Uses(l, s) {
      var c: nat, j: nat :| c < l.SCols() && j < l.Rows(c) && SectorAt(l, c, j) == s;
      UsesBelow(l, c, j);
    }
    if s.dev < l.dcols && l.Base() <= Number(s, l.dcols) < l.Base() + l.Total() {
      UsesAll(l, s);
    }
  }

  lemma UsesBelow(l: Layout, c: nat, j: nat)
    requires l.Valid() && c < l.SCols() && j < l.Rows(c)
    ensures var s := SectorAt(l, c, j);
            s.dev < l.dcols && l.Base() <= Number(s, l.dcols) < l.Base() + l.Total()
  {
    SectorNumber(l, c, j);
    PlaceKeepsRows(l, c);
    TotalSplit(l);
    CellBelow(l.Place(c), j, l.dcols, l.Q(), l.BigCols());
    MulMono(0, j, l.dcols);
  }

  lemma UsesAll(l: Layout, s: Sector)
    requires l.Valid() && s.dev < l.dcols
    requires l.Base() <= Number(s, l.dcols) < l.Base() + l.Total()
    ensures Uses(l, s)
  {
    hide Layout.Check, Layout.Q, Layout.R, Layout.BigCols, Layout.SCols, Layout.Total, Layout.Base, SectorAt;
    var d, n := l.dcols, Number(s, l.dcols) - l.Base();
    TotalSplit(l);
    var p, j := CellOf(n, d, l.Q(), l.BigCols());
    var c := l.Place(p);
    PlaceKeepsRows(l, p);
    SectorNumber(l, c, j);
    SameNumber(s, SectorAt(l, c, j), d);
  }

  lemma SameNumber(s: Sector, t: Sector, d: int)
    requires s.dev < d && t.dev < d && Number(s, d) == Number(t, d)
    ensures s == t
  {
    DivModUnique(Number(s, d), d, s.row, s.dev);
    DivModUnique(Number(t, d), d, t.row, t.dev);
  }

  /** No sector is used twice by one block. */
  lemma UsesOnce(l: Layout, c: nat, j: nat, c': nat, j': nat)
    requires l.Valid()
    requires c < l.SCols() && j < l.Rows(c) && c' < l.SCols() && j' < l.Rows(c')
    requires SectorAt(l, c, j) == SectorAt(l, c', j')
    ensures c == c' && j == j'
  {
    SectorNumber(l, c, j);
    SectorNumber(l, c', j');
    PlaceKeepsRows(l, c);
    PlaceKeepsRows(l, c');
    TotalSplit(l);
    DivModUnique(l.Place(c) + j * l.dcols, l.dcols, j, l.Place(c));
    DivModUnique(l.Place(c') + j' * l.dcols, l.dcols, j', l.Place(c'));
  }

  /** Byte `x` of child `dev` belongs to column `c` of the block. */
  predicate Holds(l: Layout, c: nat, dev: nat, x: nat)
    requires l.Valid() && c < l.SCols()
  {
    var col := l.Map().columns[c];
    col.devidx == dev && col.offset <= x < col.offset + col.size
  }

  lemma HoldsRow(l: Layout, c: nat, dev: nat, x: nat)
    requires l.Valid() && c < l.SCols() && Holds(l, c, dev, x)
    ensures Uses(l, Sector(dev, RowOf(x, l.Sector())))
  {
    hide Layout.Check, Layout.Q, Layout.R, Layout.BigCols, Layout.ACols, Layout.SCols, Layout.Total, Layout.Base,
         Layout.Rows, RowOf;
    TotalSplit(l);
    var sec, n := l.Sector(), l.Base() + l.Place(c);
    var row: nat := n / l.dcols;
    var at := RowOf(x, sec);
    RowsBetween(x, row, l.Rows(c), sec);
    var j: nat := at - row;
    assert SectorAt(l, c, j) == Sector(dev, at);
  }

  lemma RowsBetween(x: nat, row: nat, n: nat, sec: nat)
    requires sec > 0 && row * sec <= x < row * sec + n * sec
    ensures row * sec >= 0 && RowOf(row * sec, sec) == row
    ensures row <= RowOf(x, sec) < row + n
  {
    var at := x / sec;
    DivModUnique(row * sec, sec, row, 0);
    assert x == at * sec + x % sec;
    Distribute(row, n, sec);
    if at < row { MulMono(at + 1, row, sec); Distribute(at, 1, sec); }
    if at >= row + n { MulMono(row + n, at, sec); }
  }

  /** Blocks of one vdev whose DVA ranges are disjoint never share a byte of a child, whatever
      their sizes, rotations and parity exchanges. */
  lemma DisjointBlocks(l: Layout, m: Layout, c: nat, c': nat, dev: nat, x: nat)
    requires l.Valid() && m.Valid() && l.dcols == m.dcols && l.ashift == m.ashift
    requires l.offset + l.Map().DvaAsize() <= m.offset || m.offset + m.Map().DvaAsize() <= l.offset
    requires c < l.SCols() && c' < m.SCols()
    ensures !(Holds(l, c, dev, x) && Holds(m, c', dev, x))
  {
    hide Layout.Check, Layout.Q, Layout.R, Layout.BigCols, Layout.ACols, Layout.SCols, Layout.Total, Layout.Base,
         Layout.Rows, Holds, Uses;
    if Holds(l, c, dev, x) && Holds(m, c', dev, x) {
      var s := Sector(dev, RowOf(x, l.Sector()));
      HoldsRow(l, c, dev, x);
      HoldsRow(m, c', dev, x);
      UsesExactly(l, s);
      UsesExactly(m, s);
      RangeEnd(l);
      RangeEnd(m);
      Apart(l.Base(), l.Total(), m.Base(), m.Total(), l.Sector());
    }
  }

  lemma Apart(b: nat, t: nat, b': nat, t': nat, sec: nat)
    requires sec > 0 && ((b + t) * sec <= b' * sec || (b' + t') * sec <= b * sec)
    ensures b + t <= b' || b' + t' <= b
  {
    if b + t > b' && b' + t' > b {
      MulMono(b' + 1, b + t, sec);
      MulMono(b + 1, b' + t', sec);
      Distribute(b', 1, sec);
      Distribute(b, 1, sec);
    }
  }

  lemma RangeEnd(l: Layout)
    requires l.Valid()
    ensures l.offset == l.Base() * l.Sector()
    ensures l.offset + l.Map().DvaAsize() >= (l.Base() + l.Total()) * l.Sector()
  {
    assert l.offset == (l.offset / l.Sector()) * l.Sector() + l.offset % l.Sector();
    Distribute(l.Base(), l.Total(), l.Sector());
    MulMono(0, l.Skipped(), l.Sector());
  }

  /** The columns of one block lie on different children. */
  lemma ChildrenDistinct(l: Layout, c: nat, c': nat)
    requires l.Valid() && c < c' < l.SCols()
    ensures l.Map().columns[c].devidx != l.Map().columns[c'].devidx
    ensures l.Map().columns[c].devidx < l.dcols && l.Map().columns[c'].devidx < l.dcols
  {
    TotalSplit(l);
    var p, p' := l.Place(c), l.Place(c');
    WrapIsDivision(l, p);
    WrapIsDivision(l, p');
  }

  // ----- where the columns start, on the map alone -----

  /** The number of the sector where a column starts, counted row by row across the children. */
  function StartOf(rm: RaidzMap, c: nat): int
    requires c < |rm.columns|
  {
    (rm.columns[c].offset / Pow2(rm.ashift)) * rm.dcols + rm.columns[c].devidx
  }

  /** Column c starts c sectors after the block does, but under single parity the first two columns
      change places in every other MiB. */
  predicate InOrder(rm: RaidzMap)
  {
    var b, m := rm.ioOffset / Pow2(rm.ashift), (rm.ioOffset / 0x10_0000) % 2;
    forall c: nat :: c < |rm.columns| ==>
      && rm.columns[c].devidx < rm.dcols && rm.columns[c].offset % Pow2(rm.ashift) == 0
      && StartOf(rm, c) == b + (if rm.nparity != 1 || c > 1 then c else if c == 0 then m else 1 - m)
  }

  /** The first column without a sector in the last row; the second one when that row is empty and the
      first two columns changed places. */
  predicate SkipsFrom(rm: RaidzMap)
    requires rm.dcols > rm.nparity
  {
    var r := (rm.ioSize / Pow2(rm.ashift)) % (rm.dcols - rm.nparity);
    rm.skipstart == if r != 0 then r + rm.nparity
                    else if rm.nparity == 1 && (rm.ioOffset / 0x10_0000) % 2 == 1 then 1 else 0
  }

  /** Every map keeps its arguments, starts its columns in order, and skips from the right one. */
  lemma MapInOrder(l: Layout)
    requires l.Valid()
    ensures var rm := l.Map();
            && rm.ioOffset == l.offset && rm.ioSize == l.size && rm.ashift == l.ashift
            && rm.dcols == l.dcols > rm.nparity == l.nparity
            && InOrder(rm) && SkipsFrom(rm)
  {
    var rm := l.Map();
    assert l.dcols > l.nparity;
    Remainder(l);
    hide Layout.Q, Layout.R, Layout.BigCols, Layout.ACols, Layout.SCols, Layout.Total, Layout.Rows, RoundUp;
    forall c: nat | c < |rm.columns|
      ensures rm.columns[c].devidx < rm.dcols && rm.columns[c].offset % Pow2(rm.ashift) == 0
      ensures StartOf(rm, c) == l.Base() + l.Place(c)
    {
      ColumnStart(l, c);
    }
  }

  lemma ColumnStart(l: Layout, c: nat)
    requires l.Valid() && c < |l.Map().columns|
    ensures l.Map().columns[c].devidx < l.dcols && l.Map().columns[c].offset % Pow2(l.ashift) == 0
    ensures StartOf(l.Map(), c) == l.Base() + l.Place(c)
  {
    hide Layout.Q, Layout.R, Layout.BigCols, Layout.ACols, Layout.SCols, Layout.Total, Layout.Rows, Layout.Base,
         RoundUp;
    var n := l.Base() + l.Place(c);
    MulMono(0, n / l.dcols, l.Sector());
    DivModUnique((n / l.dcols) * l.Sector(), l.Sector(), n / l.dcols, 0);
  }

  lemma Remainder(l: Layout)
    requires l.Valid()
    ensures l.R() == l.Sectors() % (l.dcols - l.nparity)
    ensures l.BigCols() == if l.R() == 0 then 0 else l.R() + l.nparity
  {
    var s, d := l.Sectors(), l.dcols - l.nparity;
    assert s == (s / d) * d + s % d;
  }

  /** The exchange, as a law of two blocks of one size: a block a MiB further has the other order of
      its first two columns, one two MiB further the same order, and in the first MiB the parity
      column comes first. */
  lemma EveryOtherMiB(l: Layout, m: Layout)
    requires l.Valid() && m.Valid() && l.nparity == m.nparity == 1
    ensures var a, b := l.Map(), m.Map();
            && |a.columns| >= 2 && |b.columns| >= 2
            && (m.offset == l.offset + 0x10_0000 ==>
                  (StartOf(a, 0) < StartOf(a, 1) <==> StartOf(b, 0) > StartOf(b, 1)))
            && (m.offset == l.offset + 0x20_0000 ==>
                  (StartOf(a, 0) < StartOf(a, 1) <==> StartOf(b, 0) < StartOf(b, 1)))
            && (l.offset < 0x10_0000 ==> StartOf(a, 0) < StartOf(a, 1))
  {
    hide Layout.Map, Layout.Check, StartOf;
    ParityFirstIff(l);
    ParityFirstIff(m);
  }

  lemma ParityFirstIff(l: Layout)
    requires l.Valid() && l.nparity == 1
    ensures var rm := l.Map();
            && |rm.columns| >= 2 && l.offset >= 0
            && (StartOf(rm, 0) < StartOf(rm, 1) <==> (l.offset / 0x10_0000) % 2 == 0)
            && (StartOf(rm, 0) > StartOf(rm, 1) <==> (l.offset / 0x10_0000) % 2 == 1)
  {
    MapInOrder(l);
    TotalSplit(l);
    ColumnSizes(l);
    hide Layout.Map, StartOf;
  }

  /** The space in front of the columns: two labels and the boot area, four MiB. */
  lemma FourMiB(c: Column)
    ensures PhysOffset(c) == c.offset + 4 * 0x10_0000
  {
  }
}
