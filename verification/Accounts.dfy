/** What the state of an extracted file says of its blocks, and what the totals of a batch are. */
module Accounts {
  import opened Bytes
  import opened PoolRead
  import opened Lru
  import opened Dnodes
  import opened Objects
  import opened Extract

  // ----- the state of a file -----

  predicate Good(b: FileBlock) { b.status == Recovered || b.status == RecoveredWithReconstruction }

  predicate Rebuilt(b: FileBlock) { b.status == RecoveredWithReconstruction }

  /** The places of a list where something holds. */
  ghost function Places<T>(xs: seq<T>, p: T -> bool): set<nat>
  {
    set i: nat | i < |xs| && p(xs[i])
  }

  lemma {:induction false} OneMorePlace<T>(xs: seq<T>, p: T -> bool)
    requires xs != []
    ensures var n := |xs| - 1;
            |Places(xs, p)| == |Places(xs[..n], p)| + (if p(xs[n]) then 1 else 0)
  {
    var n := |xs| - 1;
    var here: set<nat> := if p(xs[n]) then {n} else {};
    assert Places(xs, p) == Places(xs[..n], p) + here;
  }

  lemma NoPlaces<T>(p: T -> bool)
    ensures |Places([], p)| == 0
  {
    assert Places([], p) == {};
  }

  lemma {:induction false} GoodIsCounted(blocks: seq<FileBlock>)
    ensures GoodBlocks(blocks) == |Places(blocks, Good)|
  {
    hide Places;
    if blocks == [] {
      NoPlaces(Good);
    } else {
      GoodIsCounted(blocks[..|blocks| - 1]);
      OneMorePlace(blocks, Good);
    }
  }

  lemma {:induction false} RebuiltIsCounted(blocks: seq<FileBlock>)
    ensures Reconstructed(blocks) == |Places(blocks, Rebuilt)|
  {
    hide Places;
    if blocks == [] {
      NoPlaces(Rebuilt);
    } else {
      RebuiltIsCounted(blocks[..|blocks| - 1]);
      OneMorePlace(blocks, Rebuilt);
    }
  }

  lemma {:induction false} NoneGood(blocks: seq<FileBlock>)
    ensures GoodBlocks(blocks) == 0 <==> forall i :: 0 <= i < |blocks| ==> !Good(blocks[i])
  {
    if blocks != [] {
      var n := |blocks| - 1;
      NoneGood(blocks[..n]);
      assert forall i :: 0 <= i < n ==> blocks[..n][i] == blocks[i];
    }
  }

  /** The five states: taken over from an earlier run, empty, and otherwise COMPLETE when there are blocks and
      all are good, LOST when none is good (there may be none at all), PARTIAL when some are and some not. */
  lemma {:induction false} StateMeans(r: FileResult)
    ensures r.State() == AlreadyExtracted <==> r.resumed
    ensures r.State() == Empty <==> !r.resumed && r.size == Some(0)
    ensures !r.resumed && r.size != Some(0) ==>
              && (r.State() == Complete <==>
                    r.blocks != [] && forall i :: 0 <= i < |r.blocks| ==> Good(r.blocks[i]))
              && (r.State() == LostFile <==> forall i :: 0 <= i < |r.blocks| ==> !Good(r.blocks[i]))
              && (r.State() == Partial <==>
                    && (exists i :: 0 <= i < |r.blocks| && Good(r.blocks[i]))
                    && exists i :: 0 <= i < |r.blocks| && !Good(r.blocks[i]))
  {
    hide GoodBlocks;
    NoneGood(r.blocks);
    GoodCount(r.blocks);
  }

  predicate BlockGood(read: Medium, dn: Dnode, i: nat)
    requires WellFormed(dn)
  {
    var s := BlockOf(read, dn, i).status;
    s == Recovered || s == RecoveredWithReconstruction
  }

  /** The same of the blocks of the object on the medium: an extraction that fills is LOST exactly when no
      block of the object can be read, and PARTIAL exactly when some can and some cannot. */
  lemma {:induction false} StateOfExtraction(read: Medium, dn: Dnode, size: Option<nat>)
    requires WellFormed(dn) && size != Some(0)
    ensures var s, n := Extraction(read, dn, size, true).State(), dn.Nblocks();
            && (s == LostFile <==> forall i: nat :: i < n ==> !BlockGood(read, dn, i))
            && (s == Partial <==>
                  (exists i: nat :: i < n && BlockGood(read, dn, i))
                  && exists i: nat :: i < n && !BlockGood(read, dn, i))
  {
    hide BlockOf, After, Dnode.Nblocks, FileResult.State, Length, Extract.Covered, Offset;
    var n := dn.Nblocks();
    var r := Extraction(read, dn, size, true);
    Conservation(read, dn, size, n);
    StateMeans(r);
    forall i: nat | i < n
      ensures Good(r.blocks[i]) <==> BlockGood(read, dn, i)
    {
    }
  }

  /** An empty file has no blocks, whatever its object holds; neither has a file whose dnode is free. */
  lemma NothingToExtract(read: Medium, dn: Dnode, size: Option<nat>, fill: bool)
    requires WellFormed(dn) && (size == Some(0) || dn.kind == 0)
    ensures Extraction(read, dn, size, fill) == FileResult(size, [], 0, 0, false, false, [])
  {
  }

  // ----- totals -----

  ghost function Sum(rs: seq<FileResult>, f: FileResult -> nat): nat
  {
    if rs == [] then 0 else Sum(rs[..|rs| - 1], f) + f(rs[|rs| - 1])
  }

  /** Every total grows by the sum over the files of a batch: bytes recovered and missing, blocks, good
      blocks, reconstructed blocks; and each state by the number of its files. */
  lemma {:induction false} TotalsAreSums(t: Totals, rs: seq<FileResult>)
    ensures var all := AddAll(t, rs);
            && all.files == t.files + |rs|
            && all.recovered == t.recovered + Sum(rs, (r: FileResult) => r.recovered)
            && all.missing == t.missing + Sum(rs, (r: FileResult) => r.missing)
            && all.blocks == t.blocks + Sum(rs, (r: FileResult) => |r.blocks|)
            && all.good == t.good + Sum(rs, (r: FileResult) => |Places(r.blocks, Good)|)
            && all.reconstructed == t.reconstructed + Sum(rs, (r: FileResult) => |Places(r.blocks, Rebuilt)|)
  {
    hide GoodBlocks, Reconstructed, FileResult.State, Places;
    if rs != [] {
      var n := |rs| - 1;
      TotalsAreSums(t, rs[..n]);
      GoodIsCounted(rs[n].blocks);
      RebuiltIsCounted(rs[n].blocks);
    }
  }

  lemma {:induction false} StatesAreCounts(t: Totals, rs: seq<FileResult>, s: FileState)
    ensures Count(AddAll(t, rs).byState, s) == Count(t.byState, s) + |Places(rs, (r: FileResult) => r.State() == s)|
  {
    hide GoodBlocks, Reconstructed, FileResult.State, Places;
    var p := (r: FileResult) => r.State() == s;
    if rs == [] {
      NoPlaces(p);
    } else {
      StatesAreCounts(t, rs[..|rs| - 1], s);
      OneMorePlace(rs, p);
    }
  }
}
