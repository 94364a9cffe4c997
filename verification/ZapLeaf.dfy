/** The entries of a ZAP leaf, and the removal of entries seen through two leaves. */
module ZapLeaf {
  import opened Bytes
  import opened Zap

  /** Where the magic number and the counters of the header end: a shorter block cannot be
      unpacked at all. */
  const HEADER_FIELDS := 34

  datatype Entry = Entry(name: seq<Byte>, intSize: nat, values: seq<nat>, raw: seq<Byte>, cd: nat, block: nat)

  /** What a chunk of a leaf gives: an entry, an error in one of its chains, or nothing. */
  datatype Found = Got(entry: Entry) | Broken(why: Array) | NotAnEntry

  /** The bytes before the first zero. */
  function BeforeNul(s: seq<Byte>): seq<Byte>
  {
    if s == [] || s[0] == 0 then [] else [s[0]] + BeforeNul(s[1..])
  }

  /** The first `n` big-endian integers of `w` bytes, as far as whole ones go. */
  function IntsOf(raw: seq<Byte>, w: nat, n: nat): seq<nat>
  {
    if n == 0 then []
    else
      MulMono(0, n - 1, w);
      Distribute(n - 1, 1, w);
      IntsOf(raw, w, n - 1) + (if n * w <= |raw| then [Be(raw[(n - 1) * w..n * w])] else [])
  }

  function Values(raw: seq<Byte>, w: nat, n: nat): seq<nat>
  {
    if w in {1, 2, 4, 8} then IntsOf(raw, w, n) else []
  }

  function Field(data: seq<Byte>, at: nat, n: nat): nat
    requires at + n <= |data|
  {
    Le(data[at..at + n])
  }

  function EntryAt(data: seq<Byte>, g: Geometry, idx: nat, block: nat): Found
    requires Area(data, g.Base(), g.nchunks) && idx < g.nchunks
  {
    var off := g.Base() + idx * CHUNK_SIZE;
    if data[off] != CHUNK_ENTRY then NotAnEntry
    else
      var w := data[off + 1];
      var nameChain := ArrayBytes(data, g.Base(), g.nchunks, Field(data, off + 4, 2), Field(data, off + 6, 2));
      if !nameChain.Bytes? then Broken(nameChain)
      else
        var count := Field(data, off + 10, 2);
        MulMono(0, w, count);
        var valueChain := ArrayBytes(data, g.Base(), g.nchunks, Field(data, off + 8, 2), w * count);
        if !valueChain.Bytes? then Broken(valueChain)
        else
          Got(Entry(BeforeNul(nameChain.data), w, Values(valueChain.data, w, count), valueChain.data,
                    Field(data, off + 12, 4), block))
  }

  /** Entries and errors among the first `n` chunks. */
  function Scan(data: seq<Byte>, g: Geometry, block: nat, n: nat): (seq<Entry>, seq<(nat, Array)>)
    requires Area(data, g.Base(), g.nchunks) && n <= Max(g.nchunks, 0)
  {
    if n == 0 then ([], [])
    else
      var (entries, errors) := Scan(data, g, block, n - 1);
      match EntryAt(data, g, n - 1, block)
      case Got(e) => (entries + [e], errors)
      case Broken(why) => (entries, errors + [(n - 1, why)])
      case NotAnEntry => (entries, errors)
  }

  /** None when the magic number of the leaf is wrong. */
  function Leaf(data: seq<Byte>, block: nat): Option<(seq<Entry>, seq<(nat, Array)>)>
    requires |data| >= HEADER_FIELDS
  {
    var g := LeafGeometry(|data|);
    AreaOf(data);
    if Field(data, 24, 4) != LEAF_MAGIC then None else Some(Scan(data, g, block, Max(g.nchunks, 0)))
  }

  lemma AreaOf(data: seq<Byte>)
    requires |data| >= HEADER_FIELDS
    ensures var g := LeafGeometry(|data|);
            Area(data, g.Base(), g.nchunks)
  {
    var g := LeafGeometry(|data|);
    if g.nchunks > 0 {
      ChunksFit(|data|, g.nchunks - 1);
    }
  }

  // ----- the program -----

  method ReadInts(raw: seq<Byte>, w: nat, n: nat) returns (vs: seq<nat>)
    ensures vs == Values(raw, w, n)
  {
    vs := [];
    if w !in {1, 2, 4, 8} { return; }
    var i := 0;
    while i < n
      invariant 0 <= i <= n && vs == IntsOf(raw, w, i)
    {
      MulMono(0, i, w);
      Distribute(i, 1, w);
      var word := raw[Min(i * w, |raw|)..Min((i + 1) * w, |raw|)];
      if |word| == w {
        vs := vs + [Be(word)];
      }
      i := i + 1;
    }
  }

  /** `_parse_leaf` */
  method ParseLeaf(data: seq<Byte>, block: nat) returns (r: Option<(seq<Entry>, seq<(nat, Array)>)>)
    requires |data| >= HEADER_FIELDS
    ensures r == Leaf(data, block)
  {
    hide ArrayBytes, IntsOf, BeforeNul, LeafGeometry, Le;
    var g := LeafGeometry(|data|);
    AreaOf(data);
    if Field(data, 24, 4) != LEAF_MAGIC { return None; }
    var entries: seq<Entry>, errors: seq<(nat, Array)> := [], [];
    var idx: nat := 0;
    while idx < g.nchunks
      invariant idx <= Max(g.nchunks, 0)
      invariant (entries, errors) == Scan(data, g, block, idx)
    {
      var found := ParseEntry(data, g, idx, block);
      match found {
        case Got(e) => entries := entries + [e];
        case Broken(why) => errors := errors + [(idx, why)];
        case NotAnEntry =>
      }
      idx := idx + 1;
    }
    r := Some((entries, errors));
  }

  method ParseEntry(data: seq<Byte>, g: Geometry, idx: nat, block: nat) returns (r: Found)
    requires Area(data, g.Base(), g.nchunks) && idx < g.nchunks
    ensures r == EntryAt(data, g, idx, block)
  {
    hide ArrayBytes, IntsOf, BeforeNul, Le;
    var off := g.Base() + idx * CHUNK_SIZE;
    if data[off] != CHUNK_ENTRY { return NotAnEntry; }
    var w := data[off + 1];
    var name := ReadArray(data, g.Base(), g.nchunks, Field(data, off + 4, 2), Field(data, off + 6, 2));
    if !name.Bytes? { return Broken(name); }
    var count := Field(data, off + 10, 2);
    MulMono(0, w, count);
    var value := ReadArray(data, g.Base(), g.nchunks, Field(data, off + 8, 2), w * count);
    if !value.Bytes? { return Broken(value); }
    var vs := ReadInts(value.data, w, count);
    r := Got(Entry(BeforeNul(name.data), w, vs, value.data, Field(data, off + 12, 4), block));
  }

  // ----- an entry reads back -----

  function EncInts(vs: seq<nat>, w: nat): seq<Byte>
  {
    if vs == [] then [] else EncInts(vs[..|vs| - 1], w) + BeBytes(vs[|vs| - 1], w)
  }

  lemma {:induction false} EncIntsLength(vs: seq<nat>, w: nat)
    ensures |EncInts(vs, w)| == |vs| * w
  {
    if vs != [] {
      EncIntsLength(vs[..|vs| - 1], w);
      Distribute(|vs| - 1, 1, w);
    }
  }

  lemma {:induction false} IntsOfPrefix(raw: seq<Byte>, more: seq<Byte>, w: nat, n: nat)
    requires n * w <= |raw|
    ensures IntsOf(raw + more, w, n) == IntsOf(raw, w, n)
  {
    if n > 0 {
      MulMono(0, n - 1, w);
      Distribute(n - 1, 1, w);
      IntsOfPrefix(raw, more, w, n - 1);
      assert (raw + more)[(n - 1) * w..n * w] == raw[(n - 1) * w..n * w];
    }
  }

  /** One more integer at the end of the bytes. */
  lemma IntsOfAppend(raw: seq<Byte>, v: nat, w: nat, n: nat)
    requires |raw| == n * w && v < Base256(w)
    ensures IntsOf(raw + BeBytes(v, w), w, n + 1) == IntsOf(raw, w, n) + [v]
  {
    hide BeBytes, Be;
    var last := BeBytes(v, w);
    var all := raw + last;
    Distribute(n, 1, w);
    MulMono(0, n, w);
    IntsOfPrefix(raw, last, w, n);
    assert all[n * w..(n + 1) * w] == last;
    BeRoundTrip(v, w);
  }

  lemma {:induction false} IntsReadBack(vs: seq<nat>, w: nat)
    requires forall i :: 0 <= i < |vs| ==> vs[i] < Base256(w)
    ensures IntsOf(EncInts(vs, w), w, |vs|) == vs
  {
    hide BeBytes, Base256;
    if vs != [] {
      var n := |vs| - 1;
      IntsReadBack(vs[..n], w);
      EncIntsLength(vs[..n], w);
      IntsOfAppend(EncInts(vs[..n], w), vs[n], w, n);
    }
  }

  lemma {:induction false} NulEnds(name: seq<Byte>, junk: seq<Byte>)
    requires 0 !in name
    ensures BeforeNul(name + [0] + junk) == name
  {
    var s := name + [0] + junk;
    if name != [] {
      assert s[1..] == name[1..] + [0] + junk;
      NulEnds(name[1..], junk);
    }
  }

  /** A chunk is the entry `e`, its name (ended by a zero) and its integers spread over chains. */
  ghost predicate WrittenEntry(data: seq<Byte>, g: Geometry, idx: nat, e: Entry, nameIds: seq<nat>, valueIds: seq<nat>)
    requires Area(data, g.Base(), g.nchunks) && idx < g.nchunks
  {
    var off := g.Base() + idx * CHUNK_SIZE;
    && data[off] == CHUNK_ENTRY && data[off + 1] == e.intSize && e.intSize in {1, 2, 4, 8}
    && 0 !in e.name && (forall i :: 0 <= i < |e.values| ==> e.values[i] < Base256(e.intSize))
    && e.raw == EncInts(e.values, e.intSize)
    && Field(data, off + 6, 2) == |e.name| + 1 && Field(data, off + 10, 2) == |e.values|
    && Field(data, off + 12, 4) == e.cd
    && Chain(data, g, Field(data, off + 4, 2), nameIds, e.name + [0])
    && Chain(data, g, Field(data, off + 8, 2), valueIds, e.raw)
  }

  ghost predicate Chain(data: seq<Byte>, g: Geometry, first: nat, ids: seq<nat>, bytes: seq<Byte>)
    requires Area(data, g.Base(), g.nchunks)
  {
    && Spread(data, g.Base(), g.nchunks, ids, bytes) && (ids != [] ==> first == ids[0])
    && forall i, j :: 0 <= i < j < |ids| ==> ids[i] != ids[j]
  }

  /** Whatever the leaf, an entry written in it is read back whole. */
  lemma EntryReadsBack(data: seq<Byte>, g: Geometry, idx: nat, e: Entry, nameIds: seq<nat>, valueIds: seq<nat>)
    requires Area(data, g.Base(), g.nchunks) && idx < g.nchunks
    requires WrittenEntry(data, g, idx, e, nameIds, valueIds)
    ensures EntryAt(data, g, idx, e.block) == Got(e)
  {
    hide ArrayBytes, IntsOf, BeforeNul, Le, Spread, EncInts;
    var off := g.Base() + idx * CHUNK_SIZE;
    ReadsSpread(data, g.Base(), g.nchunks, nameIds, e.name + [0], Field(data, off + 4, 2));
    EncIntsLength(e.values, e.intSize);
    ReadsSpread(data, g.Base(), g.nchunks, valueIds, e.raw, Field(data, off + 8, 2));
    NulEnds(e.name, []);
    assert e.name + [0] + [] == e.name + [0];
    IntsReadBack(e.values, e.intSize);
  }

  // ----- whole leaves -----

  /** An entry, the chunk it is written in, and the chunks of its two chains. */
  datatype Written = Written(idx: nat, entry: Entry, nameIds: seq<nat>, valueIds: seq<nat>)

  /** The entry chunks of the leaf are those of `ps`, in order, and each is written. */
  ghost predicate WrittenLeaf(data: seq<Byte>, g: Geometry, block: nat, ps: seq<Written>)
    requires Area(data, g.Base(), g.nchunks)
  {
    && (forall i :: 0 <= i < |ps| ==> ps[i].idx < g.nchunks && IsWritten(data, g, block, ps[i]))
    && (forall i, j :: 0 <= i < j < |ps| ==> ps[i].idx < ps[j].idx)
    && (forall idx: nat :: idx < g.nchunks && IsEntry(data, g, idx) ==> exists i :: 0 <= i < |ps| && ps[i].idx == idx)
  }

  ghost predicate IsWritten(data: seq<Byte>, g: Geometry, block: nat, p: Written)
    requires Area(data, g.Base(), g.nchunks) && p.idx < g.nchunks
  {
    p.entry.block == block && WrittenEntry(data, g, p.idx, p.entry, p.nameIds, p.valueIds)
  }

  predicate IsEntry(data: seq<Byte>, g: Geometry, idx: nat)
    requires Area(data, g.Base(), g.nchunks) && idx < g.nchunks
  {
    data[g.Base() + idx * CHUNK_SIZE] == CHUNK_ENTRY
  }

  function EntriesOf(ps: seq<Written>): (es: seq<Entry>)
    ensures |es| == |ps| && forall i :: 0 <= i < |ps| ==> es[i] == ps[i].entry
  {
    seq(|ps|, i requires 0 <= i < |ps| => ps[i].entry)
  }

  lemma {:induction false} ScanReadsBack(data: seq<Byte>, g: Geometry, block: nat, ps: seq<Written>, n: nat, m: nat)
    requires Area(data, g.Base(), g.nchunks) && WrittenLeaf(data, g, block, ps)
    requires n <= Max(g.nchunks, 0) && m <= |ps|
    requires (forall i :: 0 <= i < m ==> ps[i].idx < n) && (forall i :: m <= i < |ps| ==> ps[i].idx >= n)
    ensures Scan(data, g, block, n) == (EntriesOf(ps[..m]), [])
    decreases n
  {
    hide EntryAt, WrittenEntry, IsEntry;
    if n == 0 {
      assert m == 0;
      assert EntriesOf(ps[..0]) == [];
    } else if m > 0 && ps[m - 1].idx == n - 1 {
      var p := ps[m - 1];
      ScanReadsBack(data, g, block, ps, n - 1, m - 1);
      assert IsWritten(data, g, block, p);
      EntryReadsBack(data, g, n - 1, p.entry, p.nameIds, p.valueIds);
      assert EntriesOf(ps[..m]) == EntriesOf(ps[..m - 1]) + [p.entry];
    } else {
      ScanReadsBack(data, g, block, ps, n - 1, m);
      NoEntryHere(data, g, block, n - 1, ps);
    }
  }

  lemma NoEntryHere(data: seq<Byte>, g: Geometry, block: nat, idx: nat, ps: seq<Written>)
    requires Area(data, g.Base(), g.nchunks) && WrittenLeaf(data, g, block, ps) && idx < g.nchunks
    requires forall i :: 0 <= i < |ps| ==> ps[i].idx != idx
    ensures EntryAt(data, g, idx, block) == NotAnEntry
  {
    hide ArrayBytes, WrittenEntry;
    assert !IsEntry(data, g, idx);
  }

  /** A leaf whose entry chunks were all written parses to exactly their entries, in order, with no
      error. */
  lemma {:induction false} LeafReadsBack(data: seq<Byte>, block: nat, ps: seq<Written>)
    requires |data| >= HEADER_FIELDS && Field(data, 24, 4) == LEAF_MAGIC
    requires var g := LeafGeometry(|data|);
             Area(data, g.Base(), g.nchunks) && WrittenLeaf(data, g, block, ps)
    ensures Leaf(data, block) == Some((EntriesOf(ps), []))
  {
    hide Scan, WrittenEntry, LeafGeometry, Field;
    var g := LeafGeometry(|data|);
    ScanReadsBack(data, g, block, ps, Max(g.nchunks, 0), |ps|);
    assert ps[..|ps|] == ps;
  }

  // ----- a leaf read out of a looping chain -----

  /** A leaf of 128 bytes: header, hash table, and three chunks. The first, at 56, is an entry whose
      name of 42 bytes starts in the second, which names itself; the third is free. */
  function LoopingLeaf(): (data: seq<Byte>)
    ensures |data| == 128 && forall i :: 0 <= i < 128 ==> data[i] == LeafByte(i)
  {
    seq(128, i => LeafByte(i))
  }

  function LeafByte(i: int): Byte
  {
    if i == 24 then 0xAF else if i == 25 then 0x1E else if i == 26 then 0xAB else if i == 27 then 0x02
    else if i == 56 then 252 else if i == 57 then 1 else if i == 60 then 1 else if i == 62 then 42
    else if i == 64 || i == 65 then 0xFF
    else if i == 80 then 251 else if 81 <= i < 102 then 65 else if i == 102 then 1
    else 0
  }

  function Letters(n: nat): (s: seq<Byte>)
    ensures |s| == n && forall i :: 0 <= i < n ==> s[i] == 65
  {
    seq(n, _ => 65)
  }

  /** The entry is returned, its name read twice out of one chunk, and there is no error. */
  lemma {:induction false} LoopUnseen(block: nat)
    ensures var data := LoopingLeaf();
            var g := LeafGeometry(|data|);
            && g == Geometry(4, 3) && Area(data, g.Base(), g.nchunks) && Revisits(data, g.Base(), g.nchunks, 1)
            && Leaf(data, block) == Some(([Entry(Letters(42), 1, [], [], 0, block)], []))
  {
    hide LeafGeometry, LoopingLeaf, Field, EntryAt, Live, Walk, Scan;
    var data := LoopingLeaf();
    SmallGeometry();
    Words(data);
    LoopingChain(data);
    LoopEntry(data, block);
    OneEntry(data, Geometry(4, 3), block);
  }

  lemma {:induction false} SmallGeometry()
    ensures LeafGeometry(128) == Geometry(4, 3)
  {
    var b := Log2(128);
    assert b == 7 by { Seven(); }
    assert Pow2(2) == 4;
  }

  lemma {:induction false} Seven()
    ensures Log2(128) == 7
  {
    assert Log2(4) == 2 && Log2(16) == 4 && Log2(64) == 6;
  }

  lemma {:induction false} Field2(data: seq<Byte>, at: nat)
    requires at + 2 <= |data|
    ensures Field(data, at, 2) == data[at] as int + 256 * data[at + 1] as int
  {
    var s := data[at..at + 2];
    assert s[1..][1..] == [] && Le(s[1..]) == s[1] as int + 256 * Le([]);
  }

  lemma {:induction false} Field4(data: seq<Byte>, at: nat)
    requires at + 4 <= |data|
    ensures Field(data, at, 4) == Field(data, at, 2) + 65536 * Field(data, at + 2, 2)
  {
    var s := data[at..at + 4];
    assert s[1..][1..] == data[at + 2..at + 4] && s[1..][0] == s[1];
    assert Le(s) == s[0] as int + 256 * Le(s[1..]) && Le(s[1..]) == s[1] as int + 256 * Le(s[1..][1..]);
    Field2(data, at);
  }

  lemma {:induction false} Words(data: seq<Byte>)
    requires data == LoopingLeaf()
    ensures Field(data, 24, 4) == LEAF_MAGIC
    ensures Field(data, 60, 2) == 1 && Field(data, 62, 2) == 42 && Field(data, 64, 2) == CHAIN_END
    ensures Field(data, 66, 2) == 0 && Field(data, 68, 4) == 0 && Field(data, 102, 2) == 1
  {
    hide Field;
    Field4(data, 24);
    Field2(data, 24);
    Field2(data, 26);
    Field2(data, 60);
    Field2(data, 62);
    Field2(data, 64);
    Field2(data, 66);
    Field4(data, 68);
    Field2(data, 68);
    Field2(data, 70);
    Field2(data, 102);
  }

  lemma {:induction false} LoopingChain(data: seq<Byte>)
    requires data == LoopingLeaf() && Field(data, 102, 2) == 1
    ensures Revisits(data, 56, 3, 1)
    ensures ArrayBytes(data, 56, 3, 1, 42) == Bytes(Letters(42))
    ensures ArrayBytes(data, 56, 3, CHAIN_END, 0) == Bytes([])
  {
    hide Le;
    assert Kind(data, 56, 3, 1) == CHUNK_ARRAY && Next(data, 56, 3, 1) == 1;
    assert Payload(data, 56, 3, 1) == Letters(21);
    assert Live(data, 56, 3, 1);
    hide Kind, Next, Payload;
    assert Walk(data, 56, 3, 1, 0) == 1 && Walk(data, 56, 3, 1, 1) == 1;
    assert LiveUpTo(data, 56, 3, 1, 1);
    assert [] + Letters(21) == Letters(21) && Letters(21) + Letters(21) == Letters(42);
    assert Follow(data, 56, 3, 1, 42, Letters(42), 2) == Bytes(Letters(42));
    assert Follow(data, 56, 3, 1, 42, Letters(21), 1) == Bytes(Letters(42));
    assert Follow(data, 56, 3, 1, 42, [], 0) == Bytes(Letters(42));
  }

  lemma {:induction false} LoopEntry(data: seq<Byte>, block: nat)
    requires data == LoopingLeaf()
    ensures var g := Geometry(4, 3);
            && EntryAt(data, g, 0, block) == Got(Entry(Letters(42), 1, [], [], 0, block))
            && EntryAt(data, g, 1, block) == NotAnEntry && EntryAt(data, g, 2, block) == NotAnEntry
  {
    hide Field, LoopingLeaf, ArrayBytes, BeforeNul;
    Words(data);
    LoopingChain(data);
    NoNul(Letters(42));
  }

  lemma {:induction false} OneEntry(data: seq<Byte>, g: Geometry, block: nat)
    requires Area(data, g.Base(), g.nchunks) && g.nchunks == 3
    requires EntryAt(data, g, 0, block).Got?
    requires EntryAt(data, g, 1, block).NotAnEntry? && EntryAt(data, g, 2, block).NotAnEntry?
    ensures Scan(data, g, block, 3) == ([EntryAt(data, g, 0, block).entry], [])
  {
    hide EntryAt;
    assert Scan(data, g, block, 0) == ([], []);
    assert [] + [EntryAt(data, g, 0, block).entry] == [EntryAt(data, g, 0, block).entry];
    assert Scan(data, g, block, 1) == ([EntryAt(data, g, 0, block).entry], []);
    assert Scan(data, g, block, 2) == Scan(data, g, block, 1);
  }

  lemma {:induction false} NoNul(s: seq<Byte>)
    requires 0 !in s
    ensures BeforeNul(s) == s
  {
    if s != [] { NoNul(s[1..]); }
  }

  // ----- duplicates -----

  predicate Has(es: seq<Entry>, name: seq<Byte>, cd: nat)
  {
    exists i :: 0 <= i < |es| && es[i].name == name && es[i].cd == cd
  }

  /** The first entry of each name and collision number. */
  function Unique(es: seq<Entry>): seq<Entry>
  {
    if es == [] then []
    else
      var before, last := es[..|es| - 1], es[|es| - 1];
      Unique(before) + (if Has(before, last.name, last.cd) then [] else [last])
  }

  method Deduplicate(es: seq<Entry>) returns (uniques: seq<Entry>)
    ensures uniques == Unique(es)
  {
    hide Has, Unique;
    uniques := [];
    var seen: set<(seq<Byte>, nat)> := {};
    NothingYet();
    var i := 0;
    while i < |es|
      invariant 0 <= i <= |es| && uniques == Unique(es[..i])
      invariant forall k: (seq<Byte>, nat) :: k in seen <==> Has(es[..i], k.0, k.1)
    {
      var e := es[i];
      HasMore(es[..i], e);
      UniqueMore(es[..i], e);
      assert es[..i + 1] == es[..i] + [e];
      if (e.name, e.cd) !in seen {
        seen := seen + {(e.name, e.cd)};
        uniques := uniques + [e];
      }
      i := i + 1;
    }
    assert es[..|es|] == es;
  }

  lemma {:induction false} NothingYet()
    ensures Unique([]) == [] && forall name: seq<Byte>, cd: nat :: !Has([], name, cd)
  {
  }

  lemma {:induction false} UniqueMore(es: seq<Entry>, e: Entry)
    ensures Unique(es + [e]) == Unique(es) + (if Has(es, e.name, e.cd) then [] else [e])
  {
    assert (es + [e])[..|es|] == es;
  }

  lemma HasMore(es: seq<Entry>, e: Entry)
    ensures forall name: seq<Byte>, cd: nat ::
              Has(es + [e], name, cd) <==> Has(es, name, cd) || (e.name == name && e.cd == cd)
  {
    var all := es + [e];
    assert all[|es|] == e;
    forall name: seq<Byte>, cd: nat | Has(es, name, cd)
      ensures Has(all, name, cd)
    {
      var i :| 0 <= i < |es| && es[i].name == name && es[i].cd == cd;
      assert all[i] == es[i];
    }
  }

  /** No key is lost, none is kept twice, and nothing is added. */
  lemma {:induction false} UniqueLaws(es: seq<Entry>)
    ensures var us := Unique(es);
            && (forall name: seq<Byte>, cd: nat :: Has(us, name, cd) <==> Has(es, name, cd))
            && (forall i, j :: 0 <= i < j < |us| ==> (us[i].name, us[i].cd) != (us[j].name, us[j].cd))
            && (forall u :: u in us ==> u in es)
  {
    hide Has;
    if es != [] {
      var before, last := es[..|es| - 1], es[|es| - 1];
      UniqueLaws(before);
      assert es == before + [last];
      HasMore(before, last);
      var us := Unique(before);
      HasMore(us, last);
      assert us + [] == us;
      if !Has(before, last.name, last.cd) {
        assert Unique(es) == us + [last];
        forall i | 0 <= i < |us|
          ensures (us[i].name, us[i].cd) != (last.name, last.cd)
        {
          HasIt(us, i);
        }
      }
    }
  }

  lemma HasIt(es: seq<Entry>, i: nat)
    requires i < |es|
    ensures Has(es, es[i].name, es[i].cd)
  {
  }
}
