/** Whether a block can be read, decided from the geometry before any read. */
module Availability {
  import opened Bytes
  import opened Raidz
  import opened RaidzGeometry

  datatype Verdict = Complete | Reconstructible | Lost

  datatype Analysis = Analysis(status: Verdict, missingData: seq<nat>, missingParity: seq<nat>,
                               usableParity: int)

  /** Indices of the columns of one role that are gone. */
  function Select(cols: seq<Column>, role: Role, gone: seq<bool>): seq<nat>
    requires |cols| == |gone|
  {
    if cols == [] then []
    else
      var n := |cols| - 1;
      Select(cols[..n], role, gone[..n]) + (if cols[n].role == role && gone[n] then [cols[n].index] else [])
  }

  function CountRole(cols: seq<Column>, role: Role): nat
  {
    if cols == [] then 0
    else CountRole(cols[..|cols| - 1], role) + (if cols[|cols| - 1].role == role then 1 else 0)
  }

  /** Columns whose child is not among the supplied ones. */
  function Absent(cols: seq<Column>, here: set<nat>): (gone: seq<bool>)
    ensures |gone| == |cols|
  {
    seq(|cols|, i requires 0 <= i < |cols| => cols[i].devidx !in here)
  }

  function Judge(data: nat, usableParity: int): Verdict
  {
    if data == 0 then Complete else if data <= usableParity then Reconstructible else Lost
  }

  function AnalyseAvailability(rm: RaidzMap, here: set<nat>): Analysis
  {
    var gone := Absent(rm.columns, here);
    var data := Select(rm.columns, Data, gone);
    var parity := Select(rm.columns, Parity, gone);
    var usable := CountRole(rm.columns, Parity) - |parity|;
    Analysis(Judge(|data|, usable), data, parity, usable)
  }

  /** The used columns that are gone. */
  function GoneUsed(cols: seq<Column>, gone: seq<bool>): set<nat>
    requires |cols| == |gone|
  {
    set i: nat | i < |cols| && gone[i] && cols[i].size > 0
  }

  lemma GoneUsedStep(cols: seq<Column>, gone: seq<bool>)
    requires |cols| == |gone| > 0
    ensures var n := |cols| - 1;
            var before := GoneUsed(cols[..n], gone[..n]);
            && n !in before
            && GoneUsed(cols, gone) == if gone[n] && cols[n].size > 0 then before + {n} else before
  {
    var n := |cols| - 1;
    var before := GoneUsed(cols[..n], gone[..n]);
    forall i: nat | i < n
      ensures i in before <==> i in GoneUsed(cols, gone)
    {
      assert cols[..n][i] == cols[i] && gone[..n][i] == gone[i];
    }
  }

  predicate SkipsAreEmpty(cols: seq<Column>)
  {
    forall i :: 0 <= i < |cols| ==> (cols[i].role == Skip <==> cols[i].size == 0)
  }

  lemma {:induction false} SelectCounts(cols: seq<Column>, gone: seq<bool>)
    requires |cols| == |gone| && SkipsAreEmpty(cols)
    ensures |Select(cols, Data, gone)| + |Select(cols, Parity, gone)| == |GoneUsed(cols, gone)|
  {
    if cols == [] {
      assert GoneUsed(cols, gone) == {};
    } else {
      var n := |cols| - 1;
      SelectCounts(cols[..n], gone[..n]);
      GoneUsedStep(cols, gone);
      assert cols[n].role == Skip <==> cols[n].size == 0;
    }
  }

  lemma {:induction false} ParityCount(l: Layout, c: nat)
    requires l.Valid() && c <= l.SCols()
    ensures CountRole(l.Columns()[..c], Parity) == Min(c, l.nparity)
  {
    if c > 0 {
      ParityCount(l, c - 1);
      RoleByIndex(l, c - 1);
      assert l.Columns()[..c][..c - 1] == l.Columns()[..c - 1];
    }
  }

  lemma MapShape(l: Layout)
    requires l.Valid()
    ensures var cols := l.Map().columns;
            && |cols| == l.SCols()
            && 1 <= CountRole(cols, Parity) == l.nparity < |cols|
            && (forall i :: 0 <= i < |cols| ==> cols[i].index == i)
            && SkipsAreEmpty(cols)
            && (forall i :: 0 <= i < |cols| ==> (cols[i].role == Parity <==> i < l.nparity))
  {
    hide Layout.Q, Layout.R, Layout.BigCols, Layout.Total, Layout.Sectors, Layout.SCols, Layout.ACols, Layout.Rows;
    TotalSplit(l);
    ParityCount(l, l.SCols());
    var cols := l.Columns();
    assert cols[..l.SCols()] == cols;
    forall i | 0 <= i < |cols|
      ensures cols[i].role == Skip <==> cols[i].size == 0
      ensures cols[i].role == Parity <==> i < l.nparity
    {
      RoleByIndex(l, i);
      MulPositive(l.Rows(i), l.Sector());
    }
  }

  /** Recoverability is exactly counted: at most nparity used columns may be absent. */
  lemma RecoverableIff(l: Layout, here: set<nat>)
    requires l.Valid()
    ensures var cols := l.Map().columns;
            var gone := Absent(cols, here);
            var a := AnalyseAvailability(l.Map(), here);
            && (a.status != Lost <==> |GoneUsed(cols, gone)| <= l.nparity)
            && (a.status == Complete <==> forall i: nat :: i in GoneUsed(cols, gone) ==> i < l.nparity)
  {
    hide Layout.Check, Layout.Columns, Layout.SCols, Absent;
    var cols, gone := l.Map().columns, Absent(l.Map().columns, here);
    MapShape(l);
    SelectCounts(cols, gone);
    SelectWithin(cols, Parity, gone);
    SelectEmpty(cols, Data, gone);
    if Select(cols, Data, gone) == [] {
      forall i | i in GoneUsed(cols, gone)
        ensures i < l.nparity
      {
        var role := cols[i].role;
        assert gone[i] && role != Skip && role != Data;
      }
    } else {
      var i :| 0 <= i < |cols| && cols[i].role == Data && gone[i];
      assert i in GoneUsed(cols, gone);
    }
  }

  lemma {:induction false} SelectWithin(cols: seq<Column>, role: Role, gone: seq<bool>)
    requires |cols| == |gone|
    ensures |Select(cols, role, gone)| <= CountRole(cols, role)
  {
    if cols != [] {
      SelectWithin(cols[..|cols| - 1], role, gone[..|cols| - 1]);
    }
  }

  lemma {:induction false} SelectEmpty(cols: seq<Column>, role: Role, gone: seq<bool>)
    requires |cols| == |gone|
    ensures Select(cols, role, gone) == [] <==>
            forall i :: 0 <= i < |cols| ==> !(cols[i].role == role && gone[i])
  {
    if cols != [] {
      var n := |cols| - 1;
      SelectEmpty(cols[..n], role, gone[..n]);
      if Select(cols, role, gone) == [] {
        forall i | 0 <= i < |cols|
          ensures !(cols[i].role == role && gone[i])
        {
          if i < n { assert cols[..n][i] == cols[i] && gone[..n][i] == gone[i]; }
        }
      } else if forall i :: 0 <= i < |cols| ==> !(cols[i].role == role && gone[i]) {
        assert forall i :: 0 <= i < n ==> !(cols[..n][i].role == role && gone[..n][i]);
      }
    }
  }

  /** On a stripe over all children the absent children are the lost columns, so such a block
      survives exactly when at most nparity children are missing. */
  lemma FullStripe(l: Layout, here: set<nat>)
    requires l.Valid() && l.ACols() == l.dcols
    ensures var absent := set d: nat | d < l.dcols && d !in here;
            AnalyseAvailability(l.Map(), here).status != Lost <==> |absent| <= l.nparity
  {
    var cols := l.Map().columns;
    var gone := GoneUsed(cols, Absent(cols, here));
    var absent := set d: nat | d < l.dcols && d !in here;
    RecoverableIff(l, here);
    TotalSplit(l);
    MapShape(l);
    forall d | d in absent
      ensures exists c :: c in gone && cols[c].devidx == d
    {
      var c := ColumnOn(l, d);
      assert c in gone;
    }
    forall c | c in gone
      ensures cols[c].devidx in absent
    {
      RaidzMapChild(l, c);
    }
    forall c, c' | c in gone && c' in gone && cols[c].devidx == cols[c'].devidx
      ensures c == c'
    {
      if c < c' { ChildrenDistinct(l, c, c'); }
      if c' < c { ChildrenDistinct(l, c', c); }
    }
    SameSize(cols, gone, absent);
  }

  lemma RaidzMapChild(l: Layout, c: nat)
    requires l.Valid() && c < l.SCols()
    ensures l.Map().columns[c].devidx < l.dcols
  {
  }

  /** Every child carries a column of a full stripe. */
  lemma ColumnOn(l: Layout, d: nat) returns (c: nat)
    requires l.Valid() && l.ACols() == l.dcols && d < l.dcols
    ensures c < l.SCols() && l.Map().columns[c].devidx == d && l.Map().columns[c].size > 0
  {
    TotalSplit(l);
    var f := l.Base() % l.dcols;
    var p := if d >= f then d - f else d - f + l.dcols;
    WrapIsDivision(l, p);
    c := l.Place(p);
    PlaceKeepsRows(l, p);
    RoleByIndex(l, c);
    MulPositive(l.Rows(c), l.Sector());
  }

  /** A set of columns on pairwise different children has as many elements as the children. */
  lemma {:induction false} SameSize(cols: seq<Column>, s: set<nat>, t: set<nat>)
    requires forall c :: c in s ==> c < |cols| && cols[c].devidx in t
    requires forall d :: d in t ==> exists c :: c in s && cols[c].devidx == d
    requires forall c, c' :: c in s && c' in s && cols[c].devidx == cols[c'].devidx ==> c == c'
    ensures |s| == |t|
    decreases s
  {
    if s == {} {
      assert t == {};
    } else {
      var c :| c in s;
      var d := cols[c].devidx;
      forall e | e in t - {d}
        ensures exists x :: x in s - {c} && cols[x].devidx == e
      {
        var x :| x in s && cols[x].devidx == e;
        assert x in s - {c};
      }
      SameSize(cols, s - {c}, t - {d});
    }
  }
}
