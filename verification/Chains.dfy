/** Paths of nodes given by their chains: a tree of directories, an orphan, a cycle of parents. */
module Chains {
  import opened Bytes
  import opened Paths

  /** What the nodes of a chain are called, from the top down. */
  function Called(nodes: Nodes, ids: seq<nat>): (p: Path)
    requires forall i :: 0 <= i < |ids| ==> ids[i] in nodes
  {
    if ids == [] then []
    else
      var n := |ids| - 1;
      Called(nodes, ids[..n])
      + [if nodes[ids[n]].name == [] then Unnamed(ids[n]) else Named(nodes[ids[n]].name)]
  }

  /** A node that is not the known root, with a directory as its parent. */
  predicate Below(nodes: Nodes, root: Option<nat>, up: nat, id: nat)
  {
    && id in nodes && up in nodes && nodes[up].dir && id != up
    && nodes[id].parent == Some(up) && root != Some(id)
  }

  /** Every node but the first is below the one before it. */
  ghost predicate Linked(nodes: Nodes, root: Option<nat>, ids: seq<nat>)
  {
    && (forall i :: 0 <= i < |ids| ==> ids[i] in nodes)
    && forall i, j :: 0 <= i < j < |ids| && j == i + 1 ==> Below(nodes, root, ids[i], ids[j])
  }

  lemma {:induction false} ShorterChain(nodes: Nodes, root: Option<nat>, ids: seq<nat>)
    requires Linked(nodes, root, ids) && |ids| >= 2
    ensures var n := |ids| - 1;
            && Linked(nodes, root, ids[..n]) && !IsRoot(nodes, root, ids[n]) && HasHome(nodes, ids[n])
            && nodes[ids[n]].parent == Some(ids[n - 1])
            && Called(nodes, ids) == Called(nodes, ids[..n]) + [Label(nodes[ids[n]], ids[n])]
  {
    hide Called;
    var n := |ids| - 1;
    assert Below(nodes, root, ids[n - 1], ids[n]);
    OneMoreName(nodes, ids);
  }

  lemma {:induction false} OneMoreName(nodes: Nodes, ids: seq<nat>)
    requires ids != [] && forall i :: 0 <= i < |ids| ==> ids[i] in nodes
    ensures var n := |ids| - 1;
            Called(nodes, ids) == Called(nodes, ids[..n]) + [Label(nodes[ids[n]], ids[n])]
  {
  }

  /** A chain of directories down from a root (the known one, or a directory that is its own parent)
      gives the names of all nodes below the root. */
  lemma {:induction false} ChainSpells(nodes: Nodes, root: Option<nat>, ids: seq<nat>)
    requires ids != [] && Linked(nodes, root, ids)
    requires root == Some(ids[0]) || (nodes[ids[0]].dir && nodes[ids[0]].parent == Some(ids[0]))
    ensures PathOf(nodes, root, ids[|ids| - 1], {}) == Called(nodes, ids)[1..]
  {
    hide PathOf, Called;
    var k := |ids| - 1;
    ChainEnds(nodes, root, ids, true);
    EndingPath(nodes, root, ids[k], {}, k, true);
  }

  /** A chain down from a node that is no root and has no directory above it (no parent, one that is
      gone, or one that is no directory) gives the marker of a lost parent and all its names. */
  lemma {:induction false} OrphanSpells(nodes: Nodes, root: Option<nat>, ids: seq<nat>)
    requires ids != [] && Linked(nodes, root, ids) && root != Some(ids[0])
    requires match nodes[ids[0]].parent
             case None => true
             case Some(p) => p !in nodes || !nodes[p].dir
    ensures PathOf(nodes, root, ids[|ids| - 1], {}) == [LostParent] + Called(nodes, ids)
  {
    hide PathOf, Called;
    var k := |ids| - 1;
    ChainEnds(nodes, root, ids, false);
    EndingPath(nodes, root, ids[k], {}, k, false);
  }

  lemma {:induction false} ChainEnds(nodes: Nodes, root: Option<nat>, ids: seq<nat>, atRoot: bool)
    requires ids != [] && Linked(nodes, root, ids) && Ends(nodes, root, ids[0], 0, atRoot)
    ensures |Called(nodes, ids)| == |ids|
    ensures var k := |ids| - 1;
            && Ends(nodes, root, ids[k], k, atRoot)
            && Labels(nodes, root, ids[k], k, atRoot)
               == if atRoot then Called(nodes, ids)[1..] else [LostParent] + Called(nodes, ids)
    decreases |ids|
  {
    hide IsRoot, HasHome;
    var n := |ids| - 1;
    if n > 0 {
      ShorterChain(nodes, root, ids);
      ChainEnds(nodes, root, ids[..n], atRoot);
    } else {
      assert Called(nodes, ids[..0]) == [];
    }
  }

  /** The nodes hang together in a circle: the first one is below the last. */
  ghost predicate Circle(nodes: Nodes, root: Option<nat>, ids: seq<nat>)
  {
    && |ids| >= 2 && Linked(nodes, root, ids) && Below(nodes, root, ids[|ids| - 1], ids[0])
    && forall i, j :: 0 <= i < j < |ids| ==> ids[i] != ids[j]
  }

  /** From a node of a circle of directories, the path is the marker of a loop with its own number, and the
      names once around. */
  lemma {:induction false} CycleSpells(nodes: Nodes, root: Option<nat>, ids: seq<nat>)
    requires Circle(nodes, root, ids)
    ensures PathOf(nodes, root, ids[|ids| - 1], {}) == [Loop(ids[|ids| - 1])] + Called(nodes, ids)
  {
    hide PathOf, Called, Below;
    AroundTheCycle(nodes, root, ids, |ids| - 1, {});
    assert ids[..|ids|] == ids;
  }

  /** From node `i` on, with those below it seen. */
  lemma {:induction false} AroundTheCycle(nodes: Nodes, root: Option<nat>, ids: seq<nat>, i: nat, seen: set<nat>)
    requires Circle(nodes, root, ids) && i < |ids|
    requires (forall j :: 0 <= j <= i ==> ids[j] !in seen) && (i < |ids| - 1 ==> ids[|ids| - 1] in seen)
    ensures PathOf(nodes, root, ids[i], seen) == [Loop(ids[|ids| - 1])] + Called(nodes, ids[..i + 1])
    decreases i
  {
    hide Called;
    var here, last := ids[..i + 1], ids[|ids| - 1];
    assert here[..i] == ids[..i];
    OneMoreName(nodes, here);
    var up := if i == 0 then last else ids[i - 1];
    assert Below(nodes, root, up, ids[i]);
    UpOne(nodes, root, ids[i], up, seen);
    hide PathOf;
    if i > 0 {
      AroundTheCycle(nodes, root, ids, i - 1, seen + {ids[i]});
    } else {
      assert Called(nodes, ids[..0]) == [] by { NoNames(nodes); }
      assert Below(nodes, root, ids[|ids| - 2], last);
      LoopsAt(nodes, root, last, ids[|ids| - 2], seen + {ids[0]});
    }
  }

  lemma {:induction false} NoNames(nodes: Nodes)
    ensures Called(nodes, []) == []
  {
  }

  lemma {:induction false} UpOne(nodes: Nodes, root: Option<nat>, id: nat, up: nat, seen: set<nat>)
    requires Below(nodes, root, up, id) && id !in seen
    ensures PathOf(nodes, root, id, seen) == PathOf(nodes, root, up, seen + {id}) + [Label(nodes[id], id)]
  {
  }

  lemma {:induction false} LoopsAt(nodes: Nodes, root: Option<nat>, id: nat, up: nat, seen: set<nat>)
    requires Below(nodes, root, up, id) && id in seen
    ensures PathOf(nodes, root, id, seen) == [Loop(id)]
  {
  }
}
