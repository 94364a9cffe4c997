/** The tree of indirect blocks, and the flat map of an object's blocks that it stands for. */
module Tree {
  import opened Bytes
  import opened Blkptr
  import opened PoolRead
  import opened BlockIo
  import opened Lru
  import opened Dnodes

  /** Where a block id leads: to a pointer (possibly a hole), or nowhere, with a status. */
  datatype Entry = Pointer(bp: BlockPointer) | Nowhere(status: BlockStatus)

  /** A level of the tree and the index taken there. */
  type Path = seq<(nat, nat)>

  /** Blocks under a pointer of level `level`: 1 << (epbs * level). */
  function Span(epbs: nat, level: nat): (w: nat)
    ensures w >= 1
  {
    if level == 0 then 1 else MulPositive(Pow2(epbs), Span(epbs, level - 1)); Pow2(epbs) * Span(epbs, level - 1)
  }

  lemma {:induction false} SpanIsShift(epbs: nat, level: nat)
    ensures 0 <= epbs * level && Span(epbs, level) == Pow2(epbs * level)
  {
    if level > 0 {
      SpanIsShift(epbs, level - 1);
      Distribute(level - 1, 1, epbs);
      Pow2Add(epbs, epbs * (level - 1));
    }
  }

  // ----- the descent -----

  /** From the pointer `bp` of level `level` down to block `blkid`, by shift and mask. */
  function Descend(read: Medium, epbs: nat, bp: BlockPointer, level: nat, blkid: nat, path: Path): (Entry, Path)
    decreases level
  {
    if level == 0 || bp.IsHole() then (Pointer(bp), path)
    else
      var res := read(bp);
      if !res.Ok() || res.data.None? then (Nowhere(res.status), path)
      else
        var index := (blkid / Span(epbs, level - 1)) % Pow2(epbs);
        if (index + 1) * BLKPTR_SIZE > |res.data.value| then (Nowhere(Unknown), path)
        else
          Descend(read, epbs, ParseBlkptr(res.data.value, index * BLKPTR_SIZE), level - 1, blkid,
                  path + [(level - 1, index)])
  }

  function BlockPointerFor(read: Medium, dn: Dnode, blkid: nat): (Entry, Path)
    requires WellFormed(dn)
  {
    if dn.nlevels == 0 || blkid > dn.maxblkid then (Nowhere(Unknown), [])
    else
      var level: nat := dn.nlevels - 1;
      var epbs: nat := Max(dn.Epbs(), 0);
      var top: nat := if level == 0 then blkid else blkid / Span(epbs, level);
      var path: Path := [(level, top)];
      if top >= dn.nblkptr then (Nowhere(Unknown), [])
      else Descend(read, epbs, dn.blkptrs[top], level, blkid, path)
  }

  // ----- the flat map -----

  function Repeat(e: Entry, n: nat): (r: seq<Entry>)
    ensures |r| == n && forall i :: 0 <= i < n ==> r[i] == e
  {
    seq(n, _ => e)
  }

  /** The blocks under a pointer, one after the other: a hole or a lost indirect block answers
      for its whole range, an indirect block for its pointers in order. */
  function Flat(read: Medium, epbs: nat, bp: BlockPointer, level: nat): (r: seq<Entry>)
    ensures |r| == Span(epbs, level)
    decreases level, 1, 0
  {
    if level == 0 then [Pointer(bp)]
    else if bp.IsHole() then Repeat(Pointer(bp), Span(epbs, level))
    else
      var res := read(bp);
      if !res.Ok() || res.data.None? then Repeat(Nowhere(res.status), Span(epbs, level))
      else
        FlatChildren(read, epbs, res.data.value, level, Pow2(epbs))
  }

  /** The blocks under the first `n` pointers of an indirect block. */
  function FlatChildren(read: Medium, epbs: nat, data: seq<Byte>, level: nat, n: nat): (r: seq<Entry>)
    requires level > 0
    ensures |r| == n * Span(epbs, level - 1)
    decreases level, 0, n
  {
    if n == 0 then []
    else
      Distribute(n - 1, 1, Span(epbs, level - 1));
      FlatChildren(read, epbs, data, level, n - 1)
      + (if n * BLKPTR_SIZE > |data| then Repeat(Nowhere(Unknown), Span(epbs, level - 1))
         else Flat(read, epbs, ParseBlkptr(data, (n - 1) * BLKPTR_SIZE), level - 1))
  }

  /** The blocks under the first `n` pointers of the dnode itself. */
  function FlatTop(read: Medium, epbs: nat, bps: seq<BlockPointer>, level: nat, n: nat): (r: seq<Entry>)
    requires n <= |bps|
    ensures |r| == n * Span(epbs, level)
  {
    if n == 0 then []
    else
      Distribute(n - 1, 1, Span(epbs, level));
      FlatTop(read, epbs, bps, level, n - 1) + Flat(read, epbs, bps[n - 1], level)
  }

  // ----- one refines the other -----

  lemma {:induction false} ChildAt(read: Medium, epbs: nat, data: seq<Byte>, level: nat, n: nat, c: nat, r: nat)
    requires level > 0 && c < n && r < Span(epbs, level - 1)
    ensures var w := Span(epbs, level - 1);
            && 0 <= c * w + r < n * w
            && FlatChildren(read, epbs, data, level, n)[c * w + r]
               == if (c + 1) * BLKPTR_SIZE > |data| then Nowhere(Unknown)
                  else Flat(read, epbs, ParseBlkptr(data, c * BLKPTR_SIZE), level - 1)[r]
  {
    hide Flat, ParseBlkptr, Pow2;
    var w := Span(epbs, level - 1);
    InRow(c, r, n, w);
    Distribute(n - 1, 1, w);
    if c < n - 1 {
      ChildAt(read, epbs, data, level, n - 1, c, r);
      InRow(c, r, n - 1, w);
    }
  }

  /** Place r of row c comes before row n. */
  lemma InRow(c: nat, r: nat, n: nat, w: nat)
    requires c < n && r < w
    ensures 0 <= c * w + r < n * w
  {
    MulMono(c + 1, n, w);
    MulMono(0, c, w);
    Distribute(c, 1, w);
  }

  /** The digits of a block id: quotient and remainder by the width of a child. */
  lemma Digits(blkid: nat, a: nat, w: nat)
    requires a > 0 && w > 0
    ensures a * w > 0
    ensures (blkid % (a * w)) / w == (blkid / w) % a
    ensures (blkid % (a * w)) % w == blkid % w
    ensures blkid % (a * w) == ((blkid / w) % a) * w + blkid % w
  {
    var q, r := blkid / w, blkid % w;
    var qq, d := q / a, q % a;
    assert blkid == q * w + r && q == qq * a + d;
    Distribute(qq * a, d, w);
    MulAssoc(qq, a, w);
    InRow(d, r, a, w);
    DivModUnique(blkid, a * w, qq, d * w + r);
    DivModUnique(d * w + r, w, d, r);
  }

  /** The descent finds, for every block id, the entry of the flat map under the pointer. */
  lemma {:induction false} DescendFindsFlat(read: Medium, epbs: nat, bp: BlockPointer, level: nat, blkid: nat,
                                            path: Path)
    ensures Descend(read, epbs, bp, level, blkid, path).0
         == Flat(read, epbs, bp, level)[blkid % Span(epbs, level)]
    decreases level
  {
    hide Pow2, FlatChildren, ParseBlkptr, BlockPointer.IsHole, BlockResult.Ok;
    if level == 0 {
    } else if !bp.IsHole() && read(bp).Ok() && read(bp).data.Some? {
      var data := read(bp).data.value;
      var w := Span(epbs, level - 1);
      var index := (blkid / w) % Pow2(epbs);
      Digits(blkid, Pow2(epbs), w);
      ChildAt(read, epbs, data, level, Pow2(epbs), index, blkid % w);
      if (index + 1) * BLKPTR_SIZE <= |data| {
        DescendFindsFlat(read, epbs, ParseBlkptr(data, index * BLKPTR_SIZE), level - 1, blkid,
                         path + [(level - 1, index)]);
      }
    }
  }

  lemma {:induction false} TopAt(read: Medium, epbs: nat, bps: seq<BlockPointer>, level: nat, n: nat, c: nat, r: nat)
    requires c < n <= |bps| && r < Span(epbs, level)
    ensures var w := Span(epbs, level);
            && 0 <= c * w + r < n * w
            && FlatTop(read, epbs, bps, level, n)[c * w + r] == Flat(read, epbs, bps[c], level)[r]
  {
    hide Flat, Pow2;
    var w := Span(epbs, level);
    InRow(c, r, n, w);
    Distribute(n - 1, 1, w);
    if c < n - 1 {
      TopAt(read, epbs, bps, level, n - 1, c, r);
      InRow(c, r, n - 1, w);
    }
  }

  /** The flat block map of an object. */
  function BlockMap(read: Medium, dn: Dnode): seq<Entry>
    requires WellFormed(dn) && dn.nlevels > 0
  {
    FlatTop(read, Max(dn.Epbs(), 0), dn.blkptrs, dn.nlevels - 1, dn.nblkptr)
  }

  /** Tree descent refines the flat map, for a tree of any height and any damage. */
  lemma DescentRefinesMap(read: Medium, dn: Dnode, blkid: nat)
    requires WellFormed(dn)
    ensures BlockPointerFor(read, dn, blkid).0
         == if dn.nlevels == 0 || blkid > dn.maxblkid || blkid >= |BlockMap(read, dn)| then Nowhere(Unknown)
            else BlockMap(read, dn)[blkid]
  {
    hide Flat, Descend, Pow2;
    if dn.nlevels > 0 && blkid <= dn.maxblkid {
      var level: nat, epbs: nat := dn.nlevels - 1, Max(dn.Epbs(), 0);
      var w := Span(epbs, level);
      var top: nat, r: nat := blkid / w, blkid % w;
      assert blkid == top * w + r;
      TopIndex(epbs, blkid);
      if top < dn.nblkptr {
        TopAt(read, epbs, dn.blkptrs, level, dn.nblkptr, top, r);
        DescendFindsFlat(read, epbs, dn.blkptrs[top], level, blkid, [(level, top)]);
        if level == 0 { FlatLeaf(read, epbs, dn.blkptrs[top]); }
      } else {
        MulMono(dn.nblkptr, top, w);
      }
    }
  }

  lemma {:induction false} FlatLeaf(read: Medium, epbs: nat, bp: BlockPointer)
    ensures Flat(read, epbs, bp, 0) == [Pointer(bp)]
  {
  }

  // ----- the path -----

  /** The number that the indices of a path spell in base 2^epbs. */
  function Spell(path: Path, epbs: nat): nat
  {
    if path == [] then 0 else Spell(path[..|path| - 1], epbs) * Pow2(epbs) + path[|path| - 1].1
  }

  lemma {:induction false} DescendSpells(read: Medium, epbs: nat, bp: BlockPointer, level: nat, blkid: nat, path: Path)
    requires path != [] && path[|path| - 1].0 == level
    requires Spell(path, epbs) == blkid / Span(epbs, level)
    ensures var p := Descend(read, epbs, bp, level, blkid, path).1;
            p != [] && p[0] == path[0] && Spell(p, epbs) == blkid / Span(epbs, p[|p| - 1].0)
    ensures var (e, p) := Descend(read, epbs, bp, level, blkid, path);
            e.Pointer? && !e.bp.IsHole() ==> p[|p| - 1].0 == 0
    decreases level
  {
    hide Pow2, ParseBlkptr, BlockPointer.IsHole, BlockResult.Ok;
    if level > 0 && !bp.IsHole() && read(bp).Ok() && read(bp).data.Some? {
      var data := read(bp).data.value;
      var w, a := Span(epbs, level - 1), Pow2(epbs);
      var index := (blkid / w) % a;
      if (index + 1) * BLKPTR_SIZE <= |data| {
        var longer: Path := path + [(level - 1, index)];
        assert longer[..|longer| - 1] == path;
        DivDiv(blkid, w, a);
        DescendSpells(read, epbs, ParseBlkptr(data, index * BLKPTR_SIZE), level - 1, blkid, longer);
      }
    }
  }

  lemma DivDiv(n: nat, w: nat, a: nat)
    requires w > 0 && a > 0
    ensures a * w > 0 && n / w == (n / (a * w)) * a + (n / w) % a
  {
    var q, r := n / w, n % w;
    var qq, d := q / a, q % a;
    assert n == q * w + r && q == qq * a + d;
    Distribute(qq * a, d, w);
    MulAssoc(qq, a, w);
    InRow(d, r, a, w);
    DivModUnique(n, a * w, qq, d * w + r);
  }

  /** The path to a block spells its id, so different ids take different paths. */
  lemma PathSpells(read: Medium, dn: Dnode, blkid: nat)
    requires WellFormed(dn)
    ensures var (e, p) := BlockPointerFor(read, dn, blkid);
            e.Pointer? && !e.bp.IsHole() ==> p != [] && p[|p| - 1].0 == 0 && Spell(p, Max(dn.Epbs(), 0)) == blkid
  {
    hide Descend, BlockPointer.IsHole, Span, Spell, Pow2;
    if dn.nlevels > 0 && blkid <= dn.maxblkid {
      var level: nat, epbs: nat := dn.nlevels - 1, Max(dn.Epbs(), 0);
      var top: nat := if level == 0 then blkid else blkid / Span(epbs, level);
      TopIndex(epbs, blkid);
      if top < dn.nblkptr {
        SpellOne(level, top, epbs);
        DescendSpells(read, epbs, dn.blkptrs[top], level, blkid, [(level, top)]);
      }
    }
  }

  lemma {:induction false} TopIndex(epbs: nat, blkid: nat)
    ensures blkid / Span(epbs, 0) == blkid
  {
  }

  lemma {:induction false} SpellOne(level: nat, index: nat, epbs: nat)
    ensures Spell([(level, index)], epbs) == index
  {
    assert [(level, index)][..0] == [];
    MulMono(0, 0, Pow2(epbs));
  }
}
