/** Reading one copy of a block: columns, reconstruction, and the original bytes. */
module PoolRead {
  import opened Bytes
  import opened Blkptr
  import opened Raidz
  import opened RaidzGeometry
  import opened Availability
  import opened Parity

  /** A child of the vdev: its bytes, and the positions that can no longer be read. */
  datatype Device = Device(content: seq<Byte>, bad: set<nat>)
  {
    /** Exactly `length` bytes, or a failure (None). */
    function Pread(offset: int, length: int): (r: Option<seq<Byte>>)
      ensures r.Some? <==>
              && offset >= 0 && length >= 0 && offset + length <= |content|
              && forall i: nat :: offset <= i < offset + length ==> i !in bad
      ensures r.Some? ==> |r.value| == length && r.value == content[offset..offset + length]
    {
      if offset < 0 || length < 0 || offset + length > |content| then None
      else if exists i: nat :: offset <= i < offset + length && i in bad then None
      else Some(content[offset..offset + length])
    }
  }

  /** The supplied children (an absent one is simply not in the map) and the geometry. */
  datatype Pool = Pool(devices: map<nat, Device>, ashift: nat, ncols: int, nparity: int)
  {
    predicate Valid() { ncols > nparity >= 1 }

    predicate Aligned(dva: Dva) { dva.Offset() % Pow2(ashift) == 0 }

    function LayoutOf(dva: Dva, psize: nat): (l: Layout)
      requires Valid() && Aligned(dva) && psize > 0
      ensures l.Valid() && psize <= l.size
      ensures l.offset == dva.Offset() && l.ashift == ashift && l.dcols == ncols && l.nparity == nparity
    {
      IoSizeAligned(psize, ashift);
      Layout(dva.Offset(), IoSizeForPsize(psize, ashift).value, ashift, ncols, nparity)
    }
  }

  datatype BlockStatus = Recovered | RecoveredWithReconstruction | InvalidChecksum | MissingData | Unknown

  /** One attempt on one copy; the sorted list of missing columns is kept as a set. */
  datatype Attempt = Attempt(status: BlockStatus, reconstructed: seq<nat>, missing: set<nat>,
                             checksumOk: Option<bool>)

  // ----- reading the columns -----

  function ReadColumn(devices: map<nat, Device>, col: Column): (r: Option<seq<Byte>>)
    ensures r.Some? ==> |r.value| == col.size
    ensures r.Some? && col.size > 0 ==>
              && col.devidx in devices && PhysOffset(col) + col.size <= |devices[col.devidx].content|
              && r.value == devices[col.devidx].content[PhysOffset(col)..PhysOffset(col) + col.size]
  {
    if col.size == 0 then Some([])
    else if col.devidx !in devices then None
    else devices[col.devidx].Pread(PhysOffset(col), col.size)
  }

  function ReadColumns(devices: map<nat, Device>, cols: seq<Column>): (r: seq<Option<seq<Byte>>>)
    ensures |r| == |cols|
    ensures forall i :: 0 <= i < |cols| ==> r[i] == ReadColumn(devices, cols[i])
  {
    seq(|cols|, i requires 0 <= i < |cols| => ReadColumn(devices, cols[i]))
  }

  function Unread(got: seq<Option<seq<Byte>>>): (gone: seq<bool>)
    ensures |gone| == |got|
    ensures forall i :: 0 <= i < |got| ==> (gone[i] <==> got[i].None?)
  {
    seq(|got|, i requires 0 <= i < |got| => got[i].None?)
  }

  /** The bytes that were read, nothing where a column is missing. */
  function Values(got: seq<Option<seq<Byte>>>): (v: seq<seq<Byte>>)
    ensures |v| == |got|
    ensures forall i :: 0 <= i < |got| ==> v[i] == (if got[i].Some? then got[i].value else [])
  {
    seq(|got|, i requires 0 <= i < |got| => if got[i].Some? then got[i].value else [])
  }

  /** The data columns among the first `n`, end to end. */
  function Join(cols: seq<Column>, bytes: seq<seq<Byte>>, n: nat): seq<Byte>
    requires n <= |cols| == |bytes|
  {
    if n == 0 then []
    else Join(cols, bytes, n - 1) + (if cols[n - 1].role == Data then bytes[n - 1] else [])
  }

  function ReadDva(pool: Pool, dva: Dva, psize: nat): (Option<seq<Byte>>, Attempt)
    requires pool.Valid() && pool.Aligned(dva) && psize > 0
  {
    if dva.Gang() then (None, Attempt(Unknown, [], {}, None))
    else ReadLayout(pool, pool.LayoutOf(dva, psize), psize)
  }

  function ReadLayout(pool: Pool, l: Layout, psize: nat): (Option<seq<Byte>>, Attempt)
    requires l.Valid()
  {
    MapShape(l);
    var cols := l.Map().columns;
    if AnalyseAvailability(l.Map(), pool.devices.Keys).status == Lost then
      (None, Attempt(MissingData, [], GoneUsed(cols, Absent(cols, pool.devices.Keys)), None))
    else
      Assemble(cols, ReadColumns(pool.devices, cols), pool.nparity, psize)
  }

  predicate Indexed(cols: seq<Column>)
  {
    |cols| > 0 && forall i :: 0 <= i < |cols| ==> cols[i].index == i
  }

  /** Parity comes first, in as many columns as the geometry says. */
  predicate ParityFirst(cols: seq<Column>, nparity: int)
  {
    |cols| > 0 && cols[0].role == Parity && CountRole(cols, Parity) == nparity
  }

  /** From the columns that were read to the block, through at most one reconstruction. */
  function Assemble(cols: seq<Column>, got: seq<Option<seq<Byte>>>, nparity: int, psize: nat)
    : (Option<seq<Byte>>, Attempt)
    requires |cols| == |got| && Indexed(cols)
  {
    var gone := Unread(got);
    var missing := GoneUsed(cols, gone);
    var data := Select(cols, Data, gone);
    var parity := Select(cols, Parity, gone);
    if data == [] then Joined(cols, Values(got), psize, [], missing)
    else if |data| > CountRole(cols, Parity) - |parity| || nparity != 1 then
      (None, Attempt(MissingData, [], missing, None))
    else
      SelectIsIndex(cols, Data, gone);
      var k := data[0];
      assert k in data;
      Joined(cols, Values(got)[k := RebuiltColumn(cols, Values(got), k)], psize, [k], missing)
  }

  /** Every data column has its whole length. */
  predicate Whole(cols: seq<Column>, bytes: seq<seq<Byte>>)
    requires |cols| == |bytes|
  {
    forall c :: 0 <= c < |cols| && cols[c].role == Data ==> |bytes[c]| == cols[c].size
  }

  /** The data columns end to end, as long as each has its whole length. */
  function Joined(cols: seq<Column>, bytes: seq<seq<Byte>>, psize: nat, rebuilt: seq<nat>, missing: set<nat>)
    : (Option<seq<Byte>>, Attempt)
    requires |cols| == |bytes|
  {
    if !Whole(cols, bytes) then (None, Attempt(MissingData, rebuilt, missing, None))
    else
      var status := if rebuilt == [] then Recovered else RecoveredWithReconstruction;
      (Some(Take(Join(cols, bytes, |cols|), psize)), Attempt(status, rebuilt, missing, None))
  }

  function Take(s: seq<Byte>, n: nat): seq<Byte>
  {
    s[..Min(n, |s|)]
  }

  /** Column `k` recomputed from the parity and the other data columns. */
  function RebuiltColumn(cols: seq<Column>, bytes: seq<seq<Byte>>, k: nat): seq<Byte>
    requires k < |cols| == |bytes|
  {
    XorColumns(cols, bytes, k, Take(bytes[0], cols[k].size), |cols|)
  }

  lemma {:induction false} SelectIsIndex(cols: seq<Column>, role: Role, gone: seq<bool>)
    requires |cols| == |gone|
    requires forall i :: 0 <= i < |cols| ==> cols[i].index == i
    ensures forall i: nat :: i in Select(cols, role, gone) <==> i < |cols| && cols[i].role == role && gone[i]
  {
    if cols != [] {
      var n := |cols| - 1;
      SelectIsIndex(cols[..n], role, gone[..n]);
      forall i: nat
        ensures i in Select(cols, role, gone) <==> i < |cols| && cols[i].role == role && gone[i]
      {
        if i < n { assert cols[..n][i] == cols[i] && gone[..n][i] == gone[i]; }
      }
    }
  }

  predicate Increasing(s: seq<nat>) { forall i, j :: 0 <= i < j < |s| ==> s[i] < s[j] }

  lemma {:induction false} SelectIncreases(cols: seq<Column>, role: Role, gone: seq<bool>)
    requires |cols| == |gone|
    requires forall i :: 0 <= i < |cols| ==> cols[i].index == i
    ensures Increasing(Select(cols, role, gone)) && forall i :: i in Select(cols, role, gone) ==> i < |cols|
  {
    if cols != [] {
      var n := |cols| - 1;
      SelectIncreases(cols[..n], role, gone[..n]);
      var before := Select(cols[..n], role, gone[..n]);
      assert forall i :: 0 <= i < |before| ==> before[i] in before;
    }
  }

  /** The lists of the verdict, in increasing order: the used columns behind the parity columns, and the
      parity columns, whose children are absent; the other parity columns are usable. */
  lemma {:induction false} AnalysisLists(l: Layout, here: set<nat>)
    requires l.Valid()
    ensures var a, cols := AnalyseAvailability(l.Map(), here), l.Map().columns;
            && Increasing(a.missingData) && Increasing(a.missingParity)
            && (forall c: nat :: c in a.missingData <==>
                  l.nparity <= c < |cols| && cols[c].size > 0 && cols[c].devidx !in here)
            && (forall c: nat :: c in a.missingParity <==>
                  c < l.nparity && c < |cols| && cols[c].devidx !in here)
            && a.usableParity == l.nparity - |a.missingParity|
  {
    hide Layout.Check, Layout.Columns, Layout.SCols, Select, CountRole;
    var cols := l.Map().columns;
    var gone := Absent(cols, here);
    MapShape(l);
    SelectIsIndex(cols, Data, gone);
    SelectIsIndex(cols, Parity, gone);
    SelectIncreases(cols, Data, gone);
    SelectIncreases(cols, Parity, gone);
  }
}
