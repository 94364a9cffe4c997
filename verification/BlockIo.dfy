/** Reading a block: every copy in turn, behind checksum and decompression. */
module BlockIo {
  import opened Bytes
  import opened Blkptr
  import opened Raidz
  import opened RaidzGeometry
  import opened Availability
  import opened PoolRead
  import Checksum
  import Parity
  import Compress

  /** Everything a reading depends on: the pool, foreign code, and the host's byte order. */
  datatype Env = Env(pool: Pool, sha256: seq<Byte> -> Cksum, foreign: Compress.Foreign, hostOrder: nat)

  datatype BlockResult = BlockResult(
    status: BlockStatus, data: Option<seq<Byte>>, physical: Option<seq<Byte>>, dvaIndex: Option<nat>,
    reconstructed: bool, checksumOk: Option<bool>, computed: Option<Cksum>, attempts: seq<Attempt>)
  {
    predicate Ok() { status == Recovered || status == RecoveredWithReconstruction }
  }

  /** A result, or an exception that `read_block` lets through. */
  datatype Outcome = Returned(res: BlockResult) | Raised

  function Blank(status: BlockStatus): BlockResult
  {
    BlockResult(status, None, None, None, false, None, None, [])
  }

  // ----- one copy -----

  datatype Trial =
    | NoData
    | Unchecked
    | Mismatch(computed: Cksum)
    | NoDecoder
    | Undecodable
    | Escapes
    | Good(data: seq<Byte>, physical: seq<Byte>, computed: Cksum)

  predicate Readied(env: Env, bp: BlockPointer)
  {
    && env.pool.Valid() && |bp.raw| == BLKPTR_SIZE
    && (forall d :: d in bp.dvas && !d.IsEmpty() ==> env.pool.Aligned(d))
  }

  function Swap(env: Env, bp: BlockPointer): bool { bp.Byteorder() != env.hostOrder }

  /** The verdict on the bytes of one copy. */
  function Examine(env: Env, bp: BlockPointer, raw: seq<Byte>): Trial
  {
    match Checksum.Verify(env.sha256, bp.Checksum(), raw, bp.cksum, Swap(env, bp))
    case Unsupported => Unchecked
    case Checked(ok, computed) =>
      if !ok then Mismatch(computed)
      else
        match Compress.Decompress(env.foreign, bp.Compress(), raw, bp.Lsize())
        case Ok(data) => Good(data, raw, computed)
        case Unsupported => NoDecoder
        case Corrupt => Undecodable
        case Escaped => Escapes
  }

  /** The attempt as it is left after the verdict. */
  function Mark(att: Attempt, t: Trial): Attempt
  {
    match t
    case NoData => att
    case Unchecked => att.(status := Unknown)
    case Mismatch(_) => att.(status := InvalidChecksum, checksumOk := Some(false))
    case NoDecoder => att.(status := Unknown, checksumOk := Some(true))
    case _ => att.(checksumOk := Some(true))
  }

  function TryCopy(env: Env, bp: BlockPointer, dva: Dva): (Attempt, Trial)
    requires env.pool.Valid() && env.pool.Aligned(dva) && bp.Psize() > 0
  {
    var (raw, att) := ReadDva(env.pool, dva, bp.Psize());
    var t := if raw.None? then NoData else Examine(env, bp, raw.value);
    (Mark(att, t), t)
  }

  // ----- all copies -----

  /** The running result after a copy that was not good. */
  function Note(acc: BlockResult, att: Attempt, t: Trial): BlockResult
  {
    var acc := acc.(attempts := acc.attempts + [att]);
    match t
    case Unchecked => acc.(status := Unknown)
    case Mismatch(computed) =>
      if acc.Ok() then acc else acc.(status := InvalidChecksum, computed := Some(computed))
    case NoDecoder => acc.(status := Unknown)
    case Undecodable => acc.(status := InvalidChecksum)
    case _ => acc
  }

  function Conclude(acc: BlockResult): BlockResult
  {
    if acc.attempts != [] && (forall a :: a in acc.attempts ==> a.status == MissingData)
    then acc.(status := MissingData) else acc
  }

  function ReadCopies(env: Env, bp: BlockPointer, i: nat, acc: BlockResult): Outcome
    requires Readied(env, bp) && i <= |bp.dvas| && bp.Psize() > 0
    decreases |bp.dvas| - i
  {
    if i == |bp.dvas| then Returned(Conclude(acc))
    else if bp.dvas[i].IsEmpty() then ReadCopies(env, bp, i + 1, acc)
    else
      var (att, t) := TryCopy(env, bp, bp.dvas[i]);
      match t
      case Escapes => Raised
      case Good(data, physical, computed) =>
        Returned(BlockResult(att.status, Some(data), Some(physical), Some(i), att.reconstructed != [],
                             Some(true), Some(computed), acc.attempts + [att]))
      case _ => ReadCopies(env, bp, i + 1, Note(acc, att, t))
  }

  predicate Plain(bp: BlockPointer)
  {
    !bp.IsHole() && !bp.Embedded() && !bp.UsesCrypt() && !bp.IsGang()
  }

  function ReadBlock(env: Env, bp: BlockPointer): Outcome
    requires Readied(env, bp)
  {
    if bp.IsHole() then
      Returned(Blank(Recovered).(data := Some(Zeros(bp.Lsize())), physical := Some([])))
    else if bp.Embedded() then
      var payload := bp.EmbeddedPayload();
      match Compress.Decompress(env.foreign, bp.Compress(), payload, bp.Lsize())
      case Ok(data) => Returned(Blank(Recovered).(data := Some(data), physical := Some(payload)))
      case Escaped => Raised
      case _ => Returned(Blank(Unknown))
    else if bp.UsesCrypt() || bp.IsGang() then Returned(Blank(Unknown))
    else ReadCopies(env, bp, 0, Blank(MissingData))
  }

  /** The reads that a map causes: one for each used column whose child is supplied. */
  function Requests(devices: map<nat, Device>, cols: seq<Column>, n: nat): seq<(nat, nat, nat)>
    requires n <= |cols|
  {
    if n == 0 then []
    else
      var c := cols[n - 1];
      Requests(devices, cols, n - 1)
      + (if c.size == 0 || c.devidx !in devices then [] else [(c.devidx, PhysOffset(c), c.size)])
  }

  /** No column is requested when the geometry already condemns the block. */
  function RequestsOf(pool: Pool, dva: Dva, psize: nat): seq<(nat, nat, nat)>
    requires pool.Valid() && pool.Aligned(dva) && psize > 0
  {
    if dva.Gang() then []
    else
      var rm := pool.LayoutOf(dva, psize).Map();
      if AnalyseAvailability(rm, pool.devices.Keys).status == Lost then []
      else Requests(pool.devices, rm.columns, |rm.columns|)
  }

  // ----- the program -----

  /** The reading context; `trace` records every read of a device. */
  class PoolReader {
    const env: Env
    ghost var trace: seq<(nat, nat, nat)>

    constructor (env: Env)
      ensures this.env == env && trace == []
    {
      this.env := env;
      trace := [];
    }

    /** Rebuilds column `k` in place in a buffer that starts as the head of the parity. */
    method ReconstructRaidz1(cols: seq<Column>, got: seq<Option<seq<Byte>>>, k: nat)
      returns (r: Option<seq<Byte>>)
      requires |cols| == |got| > 0 && k < |cols|
      ensures r.Some? <==>
              got[0].Some? && forall c :: 0 <= c < |cols| && c != k && cols[c].role == Data ==> got[c].Some?
      ensures r.Some? ==> r.value == RebuiltColumn(cols, Values(got), k)
    {
      hide Parity.XorInto, Take, Values;
      if got[0].None? { return None; }
      var head := Take(got[0].value, cols[k].size);
      var acc := new Byte[|head|](i requires 0 <= i < |head| => head[i]);
      assert acc[..] == head;
      var n := 0;
      while n < |cols|
        invariant n <= |cols|
        invariant forall c :: 0 <= c < n && c != k && cols[c].role == Data ==> got[c].Some?
        invariant acc[..] == Parity.XorColumns(cols, Values(got), k, head, n)
      {
        if cols[n].role == Data && n != k {
          if got[n].None? { return None; }
          XorInPlace(acc, got[n].value);
        }
        n := n + 1;
      }
      r := Some(acc[..]);
    }

    method XorInPlace(acc: array<Byte>, d: seq<Byte>)
      modifies acc
      ensures acc[..] == Parity.XorInto(old(acc[..]), d)
    {
      hide Xor;
      ghost var was := acc[..];
      var i := 0;
      while i < Min(|d|, acc.Length)
        invariant 0 <= i <= Min(|d|, acc.Length)
        invariant forall j :: 0 <= j < i ==> acc[j] == Xor(was[j], d[j])
        invariant forall j :: i <= j < acc.Length ==> acc[j] == was[j]
      {
        acc[i] := Xor(acc[i], d[i]);
        i := i + 1;
      }
    }

    /** Reads the columns of a map, one by one. */
    method FetchColumns(cols: seq<Column>) returns (got: seq<Option<seq<Byte>>>)
      modifies this`trace
      ensures got == ReadColumns(env.pool.devices, cols)
      ensures trace == old(trace) + Requests(env.pool.devices, cols, |cols|)
    {
      got := [];
      var devices := env.pool.devices;
      var n := 0;
      while n < |cols|
        invariant n <= |cols| && |got| == n
        invariant forall c :: 0 <= c < n ==> got[c] == ReadColumn(devices, cols[c])
        invariant trace == old(trace) + Requests(devices, cols, n)
      {
        var col := cols[n];
        if col.size == 0 {
          got := got + [Some([])];
        } else if col.devidx !in devices {
          got := got + [None];
        } else {
          trace := trace + [(col.devidx, PhysOffset(col), col.size)];
          got := got + [devices[col.devidx].Pread(PhysOffset(col), col.size)];
        }
        n := n + 1;
      }
    }

    /** The data columns in order, end to end; None at the first that is not whole. */
    method Concatenate(cols: seq<Column>, bytes: seq<seq<Byte>>) returns (r: Option<seq<Byte>>)
      requires |cols| == |bytes|
      ensures r == if Whole(cols, bytes) then Some(Join(cols, bytes, |cols|)) else None
    {
      var joined: seq<Byte> := [];
      var n := 0;
      while n < |cols|
        invariant n <= |cols| && joined == Join(cols, bytes, n)
        invariant forall c :: 0 <= c < n && cols[c].role == Data ==> |bytes[c]| == cols[c].size
      {
        if cols[n].role == Data {
          if |bytes[n]| != cols[n].size { return None; }
          joined := joined + bytes[n];
        }
        n := n + 1;
      }
      r := Some(joined);
    }

    /** Reads one copy, through parity if need be. */
    method ReadDvaPhysical(dva: Dva, psize: nat) returns (data: Option<seq<Byte>>, att: Attempt)
      requires env.pool.Valid() && env.pool.Aligned(dva) && psize > 0
      modifies this`trace
      ensures (data, att) == ReadDva(env.pool, dva, psize)
      ensures trace == old(trace) + RequestsOf(env.pool, dva, psize)
    {
      hide Layout.Check, Layout.Map, RebuiltColumn, GoneUsed;
      if dva.Gang() {
        return None, Attempt(Unknown, [], {}, None);
      }
      ghost var l := env.pool.LayoutOf(dva, psize);
      var io := IoSizeForPsize(psize, env.pool.ashift);
      var mapped := RaidzMapAlloc(dva.Offset(), io.value, env.pool.ashift, env.pool.ncols, env.pool.nparity);
      assert mapped == Mapped(l.Map()) by { ValidChecks(l); }
      MapShape(l);
      var rm := mapped.rm;
      var cols := rm.columns;
      var verdict := AnalyseAvailability(rm, env.pool.devices.Keys);
      if verdict.status == Lost {
        return None, Attempt(MissingData, [], GoneUsed(cols, Absent(cols, env.pool.devices.Keys)), None);
      }
      var got := FetchColumns(cols);
      data, att := Finish(cols, got, psize);
    }

    lemma ValidChecks(l: Layout)
      requires l.Valid()
      ensures l.Check() == None
    {
    }

    method Finish(cols: seq<Column>, got: seq<Option<seq<Byte>>>, psize: nat)
      returns (data: Option<seq<Byte>>, att: Attempt)
      requires |cols| == |got| && Indexed(cols) && ParityFirst(cols, env.pool.nparity)
      ensures (data, att) == Assemble(cols, got, env.pool.nparity, psize)
    {
      hide RebuiltColumn, GoneUsed, CountRole, Select, Join, Take, Values, Unread;
      var gone := Unread(got);
      var missing := GoneUsed(cols, gone);
      var lostData, lostParity := Select(cols, Data, gone), Select(cols, Raidz.Parity, gone);
      var bytes := Values(got);
      var rebuilt: seq<nat> := [];
      if lostData != [] {
        if |lostData| > CountRole(cols, Raidz.Parity) - |lostParity| || env.pool.nparity != 1 {
          return None, Attempt(MissingData, [], missing, None);
        }
        SelectIsIndex(cols, Data, gone);
        SelectIsIndex(cols, Raidz.Parity, gone);
        var k := lostData[0];
        assert k in lostData;
        var column := ReconstructRaidz1(cols, got, k);
        assert column.Some? by { OnlyOneGone(cols, got, lostData, lostParity); }
        bytes := bytes[k := column.value];
        rebuilt := [k];
      }
      var whole := Concatenate(cols, bytes);
      if whole.None? {
        return None, Attempt(MissingData, rebuilt, missing, None);
      }
      var status := if rebuilt == [] then Recovered else RecoveredWithReconstruction;
      return Some(Take(whole.value, psize)), Attempt(status, rebuilt, missing, None);
    }

    /** When a reconstruction starts, nothing it needs is missing: it never raises. */
    lemma OnlyOneGone(cols: seq<Column>, got: seq<Option<seq<Byte>>>, data: seq<nat>, parity: seq<nat>)
      requires |cols| == |got| > 0 && |data| == 1 && parity == [] && cols[0].role == Raidz.Parity
      requires forall c: nat :: c in data <==> c < |cols| && cols[c].role == Data && got[c].None?
      requires forall c: nat :: c in parity <==> c < |cols| && cols[c].role == Raidz.Parity && got[c].None?
      ensures got[0].Some?
      ensures forall c :: 0 <= c < |cols| && c != data[0] && cols[c].role == Data ==> got[c].Some?
    {
      assert 0 !in parity;
      forall c | 0 <= c < |cols| && c != data[0] && cols[c].role == Data
        ensures got[c].Some?
      {
        assert c !in data;
      }
    }

    /** Reads a block: holes, embedded payloads, then each copy until one is good. */
    method ReadBlockAt(bp: BlockPointer) returns (r: Outcome)
      requires Readied(env, bp)
      modifies this`trace
      ensures r == ReadBlock(env, bp)
    {
      hide Checksum.Verify, Compress.Decompress, ReadDva;
      if bp.IsHole() {
        return Returned(Blank(Recovered).(data := Some(Zeros(bp.Lsize())), physical := Some([])));
      }
      if bp.Embedded() {
        var payload := bp.EmbeddedPayload();
        var d := Compress.DecompressBlock(env.foreign, bp.Compress(), payload, bp.Lsize());
        match d {
          case Ok(data) => return Returned(Blank(Recovered).(data := Some(data), physical := Some(payload)));
          case Escaped => return Raised;
          case _ => return Returned(Blank(Unknown));
        }
      }
      if bp.UsesCrypt() || bp.IsGang() {
        return Returned(Blank(Unknown));
      }
      var acc := Blank(MissingData);
      var i := 0;
      while i < |bp.dvas|
        invariant i <= |bp.dvas|
        invariant ReadCopies(env, bp, i, acc) == ReadCopies(env, bp, 0, Blank(MissingData))
      {
        var dva := bp.dvas[i];
        if !dva.IsEmpty() {
          var att, t := TryOne(bp, dva);
          if t.Escapes? {
            return Raised;
          }
          if t.Good? {
            return Returned(BlockResult(att.status, Some(t.data), Some(t.physical), Some(i),
                                        att.reconstructed != [], Some(true), Some(t.computed),
                                        acc.attempts + [att]));
          }
          acc := Note(acc, att, t);
        }
        i := i + 1;
      }
      r := Returned(Conclude(acc));
    }

    /** One turn of that loop: read, check, decompress. */
    method TryOne(bp: BlockPointer, dva: Dva) returns (att: Attempt, t: Trial)
      requires env.pool.Valid() && env.pool.Aligned(dva) && bp.Psize() > 0
      modifies this`trace
      ensures (att, t) == TryCopy(env, bp, dva)
    {
      hide Checksum.Verify, Compress.Decompress, ReadDva;
      var raw, a := ReadDvaPhysical(dva, bp.Psize());
      if raw.None? {
        return a, NoData;
      }
      var check := Checksum.VerifyBlock(env.sha256, bp.Checksum(), raw.value, bp.cksum, Swap(env, bp));
      match check {
        case Unsupported => t := Unchecked;
        case Checked(ok, computed) =>
          if !ok {
            t := Mismatch(computed);
          } else {
            var d := Compress.DecompressBlock(env.foreign, bp.Compress(), raw.value, bp.Lsize());
            match d {
              case Ok(data) => t := Good(data, raw.value, computed);
              case Unsupported => t := NoDecoder;
              case Corrupt => t := Undecodable;
              case Escaped => t := Escapes;
            }
          }
      }
      att := Mark(a, t);
    }
  }
}
