/** The RAIDZ map: how one block is cut into columns over the children of a vdev,
    and what can be concluded about it from the geometry alone. */
module Raidz {
  import opened Bytes

  datatype Role = Parity | Data | Skip

  /** One column of the row: `size` bytes at `offset` of child `devidx`. */
  datatype Column = Column(index: nat, devidx: nat, offset: nat, size: nat, role: Role)

  /** Space kept by the two front labels and the boot area of a child: 4 MiB. */
  const VDEV_LABEL_START_SIZE := 2 * 262144 + 3670016

  function PhysOffset(c: Column): nat { c.offset + VDEV_LABEL_START_SIZE }

  datatype RaidzMap = RaidzMap(
    ioOffset: int, ioSize: int, ashift: nat, dcols: int, nparity: int,
    acols: nat, scols: nat, bigcols: nat, nskip: nat, skipstart: nat,
    asize: nat, columns: seq<Column>)
  {
    /** The size as it appears in the DVA: columns and padding sectors. */
    function DvaAsize(): nat { asize + nskip * Pow2(ashift) }
  }

  datatype MapError = TooFewColumns | NoParity | BadRange | OffsetUnaligned | SizeUnaligned

  datatype MapResult = Mapped(rm: RaidzMap) | Rejected(error: MapError)

  function RoundUp(x: int, y: int): int
    requires y > 0
  {
    ((x + y - 1) / y) * y
  }

  /** The arguments of the map, and the quantities derived from them (all in sectors). */
  datatype Layout = Layout(offset: int, size: int, ashift: nat, dcols: int, nparity: int)
  {
    function Sector(): (s: nat)
      ensures s >= 1
    {
      Pow2(ashift)
    }

    function Check(): Option<MapError>
    {
      if dcols <= nparity then Some(TooFewColumns)
      else if nparity < 1 then Some(NoParity)
      else if offset < 0 || size <= 0 then Some(BadRange)
      else if offset % Sector() != 0 then Some(OffsetUnaligned)
      else if size % Sector() != 0 then Some(SizeUnaligned)
      else None
    }

    predicate Valid() { Check().None? }

    function Base(): nat requires Valid() { offset / Sector() }

    function Sectors(): (s: nat)
      requires Valid()
      ensures s >= 1 && s * Sector() == size
    {
      var s := size / Sector();
      assert size == s * Sector() + size % Sector();
      s
    }

    /** The child where the block starts, and the offset of that row on every child. */
    function FirstCol(): nat requires Valid() { Base() % dcols }

    function ChildOffset(): nat
      requires Valid()
    {
      MulMono(0, Base() / dcols, Sector());
      (Base() / dcols) * Sector()
    }

    function Q(): nat requires Valid() { Sectors() / (dcols - nparity) }

    function R(): (r: nat)
      requires Valid()
      ensures r < dcols - nparity
    {
      Sectors() - Q() * (dcols - nparity)
    }

    function BigCols(): nat requires Valid() { if R() == 0 then 0 else R() + nparity }

    function Total(): nat
      requires Valid()
    {
      Sectors() + nparity * (Q() + if R() == 0 then 0 else 1)
    }

    function ACols(): nat requires Valid() { if Q() == 0 then BigCols() else dcols }

    function SCols(): nat
      requires Valid()
    {
      if Q() == 0 then Min(dcols, RoundUp(BigCols(), nparity + 1)) else dcols
    }

    /** The number of sectors in column `c`. */
    function Rows(c: nat): nat
      requires Valid()
    {
      if c >= ACols() then 0 else if c < BigCols() then Q() + 1 else Q()
    }

    /** Single parity exchanges the first two columns in every other MiB. */
    predicate Swapped() { nparity == 1 && (offset / 1048576) % 2 == 1 }

    /** The place in the row where column `c` lies after the exchange. */
    function Place(c: nat): nat
    {
      if Swapped() && c < 2 then 1 - c else c
    }

    function RoleOf(c: nat): Role
      requires Valid()
    {
      if Rows(c) == 0 then Skip else if c < nparity then Parity else Data
    }

    /** Column `c` starts at linear sector `Base() + Place(c)`: linear sector n is
        row n / dcols of child n % dcols. */
    function ColumnOf(c: nat): Column
      requires Valid()
    {
      var n := Base() + Place(c);
      MulMono(0, n / dcols, Sector());
      MulMono(0, Rows(c), Sector());
      Column(c, n % dcols, (n / dcols) * Sector(), Rows(c) * Sector(), RoleOf(c))
    }

    function Columns(): seq<Column>
      requires Valid()
    {
      seq(SCols(), c requires 0 <= c => ColumnOf(c))
    }

    function Skipped(): nat
      requires Valid()
    {
      RoundUpBounds(Total(), nparity + 1);
      RoundUp(Total(), nparity + 1) - Total()
    }

    function Map(): RaidzMap
      requires Valid()
    {
      RaidzMap(offset, size, ashift, dcols, nparity, ACols(), SCols(), BigCols(),
               Skipped(), if Swapped() && BigCols() == 0 then 1 else BigCols(),
               Total() * Sector(), Columns())
    }
  }

  lemma RoundUpBounds(x: int, y: int)
    requires y > 0
    ensures x <= RoundUp(x, y) < x + y
    ensures RoundUp(x, y) % y == 0
  {
    var k := (x + y - 1) / y;
    assert x + y - 1 == k * y + (x + y - 1) % y;
    DivModUnique(k * y, y, k, 0);
  }

  // ----- the geometry -----

  /** All sectors, parity included, are whole rows of `dcols` and one partial row. */
  lemma TotalSplit(l: Layout)
    requires l.Valid()
    ensures l.Total() == l.Q() * l.dcols + l.BigCols()
    ensures l.BigCols() < l.dcols
    ensures 2 <= l.ACols() <= l.SCols() <= l.dcols
    ensures l.nparity < l.ACols()
    ensures l.Rows(0) == l.Rows(1) >= 1
  {
    var q, d, p := l.Q(), l.dcols, l.nparity;
    assert q * (d - p) + p * q == q * d;
    RoundUpBounds(l.BigCols(), p + 1);
  }

  /** Sectors of the columns before `c`. */
  function RowsBefore(l: Layout, c: nat): nat
    requires l.Valid()
  {
    if c == 0 then 0 else RowsBefore(l, c - 1) + l.Rows(c - 1)
  }

  lemma {:induction false} RowsBeforeClosed(l: Layout, c: nat)
    requires l.Valid() && c <= l.SCols()
    ensures RowsBefore(l, c) == c * l.Q() + Min(c, l.BigCols())
  {
    TotalSplit(l);
    if c > 0 {
      RowsBeforeClosed(l, c - 1);
      assert c * l.Q() == (c - 1) * l.Q() + l.Q();
    }
  }

  lemma {:induction false} RowsTotal(l: Layout)
    requires l.Valid()
    ensures RowsBefore(l, l.SCols()) == l.Total()
  {
    hide RowsBefore, Layout.Check, Layout.Total, Layout.BigCols, Layout.Q;
    TotalSplit(l);
    RowsBeforeClosed(l, l.SCols());
    if l.Q() != 0 {
      assert l.SCols() == l.dcols;
    }
  }

  /** The wrap-around of the code is the division by the number of children. */
  lemma WrapIsDivision(l: Layout, c: nat)
    requires l.Valid() && c < l.dcols
    ensures var f := l.Base() % l.dcols;
            var n := l.Base() + c;
            n % l.dcols == (if f + c >= l.dcols then f + c - l.dcols else f + c) &&
            n / l.dcols == l.Base() / l.dcols + (if f + c >= l.dcols then 1 else 0)
  {
    var b, d := l.Base(), l.dcols;
    var f, k := b % d, b / d;
    assert b == k * d + f;
    if f + c >= d {
      assert (k + 1) * d == k * d + d;
      DivModUnique(b + c, d, k + 1, f + c - d);
    } else {
      DivModUnique(b + c, d, k, f + c);
    }
  }

  /** What one turn of the loop of `RaidzMapAlloc` adds. */
  lemma StepFacts(l: Layout, c: nat)
    requires l.Valid() && c < l.dcols
    ensures var f, k := l.Base() % l.dcols, l.Base() / l.dcols;
            var u := Unswapped(l, c);
            && u.devidx == (if f + c >= l.dcols then f + c - l.dcols else f + c)
            && u.offset == k * l.Sector() + (if f + c >= l.dcols then l.Sector() else 0)
            && (u.size == 0 <==> l.Rows(c) == 0)
            && RowsBefore(l, c + 1) * l.Sector() == RowsBefore(l, c) * l.Sector() + u.size
  {
    WrapIsDivision(l, c);
    MulPositive(l.Rows(c), l.Sector());
    var k, sec := l.Base() / l.dcols, l.Sector();
    assert (k + 1) * sec == k * sec + sec;
    assert (RowsBefore(l, c) + l.Rows(c)) * sec == RowsBefore(l, c) * sec + l.Rows(c) * sec;
  }

  /** The loop of the map: one column per turn, and the sum of their sizes. */
  method BuildColumns(f: nat, o: nat, q: nat, bc: nat, acols: nat, scols: nat, sector: nat,
                      dcols: nat, nparity: nat, ghost l: Layout)
    returns (columns: seq<Column>, asize: nat)
    requires l.Valid() && sector == l.Sector() && dcols == l.dcols && nparity == l.nparity
    requires f == l.FirstCol() && o == l.ChildOffset()
    requires q == l.Q() && bc == l.BigCols() && acols == l.ACols() && scols == l.SCols() <= dcols
    ensures columns == seq(scols, k requires 0 <= k => Unswapped(l, k))
    ensures asize == RowsBefore(l, scols) * sector
  {
    columns, asize := [], 0;
    var c := 0;
    while c < scols
      invariant 0 <= c <= scols && |columns| == c
      invariant asize == RowsBefore(l, c) * sector
      invariant forall k :: 0 <= k < c ==> columns[k] == Unswapped(l, k)
    {
      StepFacts(l, c);
      var col := f + c;
      var coff := o;
      if col >= dcols {
        col := col - dcols;
        coff := coff + sector;
      }
      var csize;
      if c >= acols {
        csize := 0;
      } else if c < bc {
        csize := (q + 1) * sector;
      } else {
        csize := q * sector;
      }
      var role := if csize == 0 then Skip else if c < nparity then Parity else Data;
      columns := columns + [Column(c, col, coff, csize, role)];
      asize := asize + csize;
      c := c + 1;
    }
  }

  /** The sectors of the block, the child where it starts, and the offset of that row. */
  method Origin(offset: nat, size: nat, dcols: nat, sector: nat, ghost l: Layout) returns (s: nat, f: nat, o: nat)
    requires l.Valid() && offset == l.offset && size == l.size && dcols == l.dcols && sector == l.Sector()
    ensures s == l.Sectors() && f == l.FirstCol() && o == l.ChildOffset()
  {
    hide Layout.Check, Layout.Sector;
    assert 0 < l.dcols && offset / sector == l.Base() by { Positive(l); }
    var b: nat := offset / sector;
    s := size / sector;
    f := b % dcols;
    MulMono(0, b / dcols, sector);
    o := (b / dcols) * sector;
  }

  lemma Positive(l: Layout)
    requires l.Valid()
    ensures l.dcols > l.nparity >= 1
  {
  }

  /** Rows, big columns, sectors in all, and columns in use and with padding, of `s` sectors of data. */
  method Quantities(s: nat, dcols: nat, nparity: nat, ghost l: Layout)
    returns (q: nat, bc: nat, tot: nat, acols: nat, scols: nat)
    requires l.Valid() && s == l.Sectors() && dcols == l.dcols && nparity == l.nparity
    ensures q == l.Q() && bc == l.BigCols() && tot == l.Total() && acols == l.ACols() && scols == l.SCols()
  {
    q := s / (dcols - nparity);
    assert s - q * (dcols - nparity) == l.R();
    var r: nat := s - q * (dcols - nparity);
    bc := if r == 0 then 0 else r + nparity;
    assert s + nparity * (q + if r == 0 then 0 else 1) == l.Total();
    tot := s + nparity * (q + if r == 0 then 0 else 1);
    if q == 0 {
      acols := bc;
      RoundUpBounds(bc, nparity + 1);
      scols := Min(dcols, RoundUp(bc, nparity + 1));
    } else {
      acols, scols := dcols, dcols;
    }
  }

  /** Cuts a block into columns. The asserts are the ones the program makes itself. */
  method RaidzMapAlloc(offset: int, size: int, ashift: nat, dcols: int, nparity: int)
    returns (r: MapResult)
    ensures var l := Layout(offset, size, ashift, dcols, nparity);
            match l.Check()
            case Some(e) => r == Rejected(e)
            case None => r == Mapped(l.Map())
    ensures r.Mapped? <==>
            && dcols > nparity >= 1 && offset >= 0 && size > 0
            && offset % Pow2(ashift) == 0 && size % Pow2(ashift) == 0
  {
    var sector := Pow2(ashift);
    if dcols <= nparity { return Rejected(TooFewColumns); }
    if nparity < 1 { return Rejected(NoParity); }
    if offset < 0 || size <= 0 { return Rejected(BadRange); }
    if offset % sector != 0 { return Rejected(OffsetUnaligned); }
    if size % sector != 0 { return Rejected(SizeUnaligned); }

    ghost var l := Layout(offset, size, ashift, dcols, nparity);
    assert l.Check() == None && sector == l.Sector();
    hide Pow2, Layout.Check, Layout.Sector, Layout.FirstCol, Layout.ChildOffset, Layout.Q, Layout.BigCols, Layout.Total,
         Layout.ACols, Layout.SCols, Layout.Sectors, Layout.Columns, RowsBefore, RoundUp, Unswapped;
    var s, f, o := Origin(offset, size, dcols, sector, l);
    var q, bc, tot, acols, scols := Quantities(s, dcols, nparity, l);
    TotalSplit(l);
    assert acols <= scols;

    var columns, asize := BuildColumns(f, o, q, bc, acols, scols, sector, dcols, nparity, l);
    assert asize == tot * sector by { RowsTotal(l); }
    RoundUpBounds(tot, nparity + 1);
    var nskip: nat := RoundUp(tot, nparity + 1) - tot;
    var skipstart := bc;
    assert acols >= 2;
    assert columns[0].size == columns[1].size by { FirstTwo(l); }

    if nparity == 1 && (offset / 1048576) % 2 == 1 {
      columns := Exchange(columns, l);
      if skipstart == 0 {
        skipstart := 1;
      }
    } else {
      assert columns == l.Columns() by { NotExchanged(l); }
    }
    r := Mapped(RaidzMap(offset, size, ashift, dcols, nparity, acols, scols, bc,
                         nskip, skipstart, asize, columns));
  }

  lemma FirstTwo(l: Layout)
    requires l.Valid()
    ensures Unswapped(l, 0).size == Unswapped(l, 1).size
  {
    hide Layout.Check, Layout.Q, Layout.BigCols, Layout.ACols, Layout.Total, Layout.Base;
    TotalSplit(l);
  }

  lemma NotExchanged(l: Layout)
    requires l.Valid() && !l.Swapped()
    ensures seq(l.SCols(), k requires 0 <= k => Unswapped(l, k)) == l.Columns()
  {
    hide Layout.Check, Layout.Q, Layout.BigCols, Layout.ACols, Layout.SCols, Layout.Total, Layout.Base, Layout.Rows;
  }

  /** The exchange of the first two columns: place and child move, size and role stay. */
  method Exchange(columns: seq<Column>, ghost l: Layout) returns (r: seq<Column>)
    requires l.Valid() && l.Swapped()
    requires columns == seq(l.SCols(), k requires 0 <= k => Unswapped(l, k))
    requires l.SCols() >= 2
    ensures r == l.Columns()
  {
    var c0, c1 := columns[0], columns[1];
    r := columns[0 := Column(0, c1.devidx, c1.offset, c0.size, c0.role)];
    r := r[1 := Column(1, c0.devidx, c0.offset, c1.size, c1.role)];
  }

  /** Column `c` before the exchange of the first two. */
  function Unswapped(l: Layout, c: nat): Column
    requires l.Valid()
  {
    var n := l.Base() + c;
    Column(c, n % l.dcols, (n / l.dcols) * l.Sector(), l.Rows(c) * l.Sector(), l.RoleOf(c))
  }
}
