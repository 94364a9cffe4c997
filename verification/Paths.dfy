/** Paths rebuilt from parent links: any graph of parents, cycles and lost parents included. */
module Paths {
  import opened Bytes

  /** A part of a path: a name, the stand-in for a missing name, or an explicit marker. */
  datatype Part = Named(name: seq<Byte>) | Unnamed(oid: nat) | LostParent | Loop(oid: nat) | Missing(oid: nat)

  /** The parts between the slashes; the root is the empty path. */
  type Path = seq<Part>

  datatype Node = Node(dir: bool, name: seq<Byte>, parent: Option<nat>, path: Path, errors: nat)

  type Nodes = map<nat, Node>

  predicate Marker(p: Part) { p.LostParent? || p.Loop? || p.Missing? }

  function Label(n: Node, oid: nat): Part
  {
    if n.name == [] then Unnamed(oid) else Named(n.name)
  }

  /** The root is the known root object, or a directory that is its own parent. */
  predicate IsRoot(nodes: Nodes, root: Option<nat>, oid: nat)
  {
    root == Some(oid) || (oid in nodes && nodes[oid].dir && nodes[oid].parent == Some(oid))
  }

  /** The parent exists and is a directory. */
  predicate HasHome(nodes: Nodes, oid: nat)
    requires oid in nodes
  {
    var p := nodes[oid].parent;
    p.Some? && p.value in nodes && nodes[p.value].dir
  }

  function PathOf(nodes: Nodes, root: Option<nat>, oid: nat, seen: set<nat>): Path
    decreases nodes.Keys - seen
  {
    if oid !in nodes then [Missing(oid)]
    else if IsRoot(nodes, root, oid) then []
    else if oid in seen then [Loop(oid)]
    else if !HasHome(nodes, oid) then [LostParent, Label(nodes[oid], oid)]
    else PathOf(nodes, root, nodes[oid].parent.value, seen + {oid}) + [Label(nodes[oid], oid)]
  }

  // ----- where a chain of parents leads -----

  /** After `k` parents the chain stands at a root, or at a node without a directory above it. */
  predicate Ends(nodes: Nodes, root: Option<nat>, oid: nat, k: nat, atRoot: bool)
    decreases k
  {
    && oid in nodes
    && if k == 0 then
         if atRoot then IsRoot(nodes, root, oid) else !IsRoot(nodes, root, oid) && !HasHome(nodes, oid)
       else
         !IsRoot(nodes, root, oid) && HasHome(nodes, oid)
         && Ends(nodes, root, nodes[oid].parent.value, k - 1, atRoot)
  }

  /** The labels of the chain from its end down to the node. */
  function Labels(nodes: Nodes, root: Option<nat>, oid: nat, k: nat, atRoot: bool): Path
    requires Ends(nodes, root, oid, k, atRoot)
    decreases k
  {
    if k == 0 then (if atRoot then [] else [LostParent, Label(nodes[oid], oid)])
    else Labels(nodes, root, nodes[oid].parent.value, k - 1, atRoot) + [Label(nodes[oid], oid)]
  }

  lemma {:induction false} EndsOnce(nodes: Nodes, root: Option<nat>, oid: nat, k: nat, a: bool, m: nat, b: bool)
    requires Ends(nodes, root, oid, k, a) && Ends(nodes, root, oid, m, b)
    ensures k == m && a == b
    decreases k
  {
    if k > 0 && m > 0 {
      EndsOnce(nodes, root, nodes[oid].parent.value, k - 1, a, m - 1, b);
    }
  }

  /** The node is more than `k` links away from the end of its chain. */
  ghost predicate Farther(nodes: Nodes, root: Option<nat>, x: nat, k: int, atRoot: bool)
  {
    exists m: nat :: m > k && Ends(nodes, root, x, m, atRoot)
  }

  /** A chain that ends gives its labels, as long as the nodes already seen lie below it. */
  lemma {:induction false} EndingPath(nodes: Nodes, root: Option<nat>, oid: nat, seen: set<nat>, k: nat, atRoot: bool)
    requires Ends(nodes, root, oid, k, atRoot)
    requires forall x :: x in seen ==> Farther(nodes, root, x, k, atRoot)
    ensures PathOf(nodes, root, oid, seen) == Labels(nodes, root, oid, k, atRoot)
    decreases k
  {
    if oid in seen {
      var m: nat :| m > k && Ends(nodes, root, oid, m, atRoot);
      EndsOnce(nodes, root, oid, k, atRoot, m, atRoot);
    }
    if k > 0 {
      forall x | x in seen + {oid}
        ensures Farther(nodes, root, x, k - 1, atRoot)
      {
        if x != oid {
          assert Farther(nodes, root, x, k, atRoot);
        }
      }
      EndingPath(nodes, root, nodes[oid].parent.value, seen + {oid}, k - 1, atRoot);
    }
  }

  lemma {:induction false} LabelsShape(nodes: Nodes, root: Option<nat>, oid: nat, k: nat, atRoot: bool)
    requires Ends(nodes, root, oid, k, atRoot)
    ensures var p := Labels(nodes, root, oid, k, atRoot);
            if atRoot then |p| == k && forall i :: 0 <= i < |p| ==> !Marker(p[i])
            else |p| == k + 2 && p[0] == LostParent && forall i :: 0 < i < |p| ==> !Marker(p[i])
    decreases k
  {
    if k > 0 {
      LabelsShape(nodes, root, nodes[oid].parent.value, k - 1, atRoot);
    }
  }

  /** The first part of a path tells how its chain ends. */
  lemma {:induction false} PathTells(nodes: Nodes, root: Option<nat>, oid: nat, seen: set<nat>)
    ensures var p := PathOf(nodes, root, oid, seen);
            && (p == [] || !Marker(p[0]) ==> exists k: nat :: Ends(nodes, root, oid, k, true))
            && (p != [] && p[0] == LostParent ==> exists k: nat :: Ends(nodes, root, oid, k, false))
    decreases nodes.Keys - seen
  {
    var p := PathOf(nodes, root, oid, seen);
    if oid in nodes {
      if IsRoot(nodes, root, oid) {
        assert Ends(nodes, root, oid, 0, true);
      } else if oid !in seen {
        if !HasHome(nodes, oid) {
          assert Ends(nodes, root, oid, 0, false);
        } else {
          var up := nodes[oid].parent.value;
          PathTells(nodes, root, up, seen + {oid});
          var q := PathOf(nodes, root, up, seen + {oid});
          assert q != [] ==> p[0] == q[0];
          if k: nat :| Ends(nodes, root, up, k, true) {
            assert Ends(nodes, root, oid, k + 1, true);
          }
          if k: nat :| Ends(nodes, root, up, k, false) {
            assert Ends(nodes, root, oid, k + 1, false);
          }
        }
      }
    }
  }

  lemma {:induction false} NeverMissing(nodes: Nodes, root: Option<nat>, oid: nat, seen: set<nat>)
    requires oid in nodes
    ensures var p := PathOf(nodes, root, oid, seen);
            p == [] || !p[0].Missing?
    decreases nodes.Keys - seen
  {
    if !IsRoot(nodes, root, oid) && oid !in seen && HasHome(nodes, oid) {
      NeverMissing(nodes, root, nodes[oid].parent.value, seen + {oid});
    }
  }

  /** For every parent graph: a node whose chain of directories reaches a root gets exactly the
      names on the way; a node whose chain stops at a lost parent, and a node whose chain never
      stops, get the marker of a lost parent and of a loop, and no other node does. */
  lemma {:induction false} PathMeaning(nodes: Nodes, root: Option<nat>, oid: nat)
    requires oid in nodes
    ensures var p := PathOf(nodes, root, oid, {});
            && (forall k: nat :: Ends(nodes, root, oid, k, true) ==>
                  p == Labels(nodes, root, oid, k, true) && forall i :: 0 <= i < |p| ==> !Marker(p[i]))
            && (forall k: nat :: Ends(nodes, root, oid, k, false) ==> p == Labels(nodes, root, oid, k, false))
            && ((exists k: nat :: Ends(nodes, root, oid, k, true)) <==> p == [] || !Marker(p[0]))
            && ((exists k: nat :: Ends(nodes, root, oid, k, false)) <==> p != [] && p[0] == LostParent)
            && ((forall k: nat, a: bool :: !Ends(nodes, root, oid, k, a)) <==> p != [] && p[0].Loop?)
  {
    hide PathOf, Ends, Labels;
    PathTells(nodes, root, oid, {});
    NeverMissing(nodes, root, oid, {});
    forall k: nat, a: bool | Ends(nodes, root, oid, k, a)
      ensures PathOf(nodes, root, oid, {}) == Labels(nodes, root, oid, k, a)
      ensures var p := Labels(nodes, root, oid, k, a);
              if a then |p| == k && forall i :: 0 <= i < |p| ==> !Marker(p[i])
              else |p| == k + 2 && p[0] == LostParent
    {
      EndingPath(nodes, root, oid, {}, k, a);
      LabelsShape(nodes, root, oid, k, a);
    }
  }

  // ----- the program -----

  /** Nothing that paths depend on has changed: links, kinds, roots, and names below the root. */
  ghost predicate SameTree(nodes: Nodes, root: Option<nat>, nodes': Nodes, root': Option<nat>)
  {
    && nodes.Keys == nodes'.Keys
    && (forall x: nat :: IsRoot(nodes, root, x) <==> IsRoot(nodes', root', x))
    && (forall x :: x in nodes ==> nodes[x].dir == nodes'[x].dir && nodes[x].parent == nodes'[x].parent)
    && (forall x :: x in nodes && !IsRoot(nodes, root, x) ==> nodes[x].name == nodes'[x].name)
  }

  lemma {:induction false} SamePaths(nodes: Nodes, root: Option<nat>, nodes': Nodes, root': Option<nat>,
                                     oid: nat, seen: set<nat>)
    requires SameTree(nodes, root, nodes', root')
    ensures PathOf(nodes, root, oid, seen) == PathOf(nodes', root', oid, seen)
    decreases nodes.Keys - seen
  {
    if oid in nodes && !IsRoot(nodes, root, oid) && oid !in seen {
      assert HasHome(nodes, oid) <==> HasHome(nodes', oid);
      if HasHome(nodes, oid) {
        SamePaths(nodes, root, nodes', root', nodes[oid].parent.value, seen + {oid});
      }
    }
  }

  class DatasetIndex {
    var nodes: Nodes
    var rootObject: Option<nat>

    constructor (nodes: Nodes, rootObject: Option<nat>)
      ensures this.nodes == nodes && this.rootObject == rootObject
    {
      this.nodes := nodes;
      this.rootObject := rootObject;
    }

    /** `chemin`: climbs the parents; a parent that is not a directory is noted as an error. */
    method Climb(oid: nat, seen: set<nat>) returns (path: Path)
      modifies this`nodes
      ensures path == PathOf(old(nodes), rootObject, oid, seen)
      ensures SameTree(old(nodes), rootObject, nodes, rootObject)
      ensures forall x :: x in nodes ==>
                nodes[x].path == old(nodes)[x].path && nodes[x].name == old(nodes)[x].name
      decreases nodes.Keys - seen
    {
      if oid !in nodes { return [Missing(oid)]; }
      var n := nodes[oid];
      if IsRoot(nodes, rootObject, oid) { return []; }
      if oid in seen { return [Loop(oid)]; }
      if n.parent.None? || n.parent.value !in nodes || !nodes[n.parent.value].dir {
        if n.parent.Some? && n.parent.value in nodes {
          nodes := nodes[oid := n.(errors := n.errors + 1)];
        }
        return [LostParent, Label(n, oid)];
      }
      path := Climb(n.parent.value, seen + {oid});
      path := path + [Label(n, oid)];
    }

    /** One turn of the last loop of `build_index`. */
    method Visit(oid: nat, ghost was: Nodes, ghost root: Option<nat>)
      requires SameTree(was, root, nodes, rootObject) && oid in nodes
      modifies this
      ensures SameTree(was, root, nodes, rootObject)
      ensures nodes[oid].path == PathOf(was, root, oid, {})
      ensures IsRoot(was, root, oid) ==> nodes[oid].name == []
      ensures forall x :: x in nodes && x != oid ==>
                nodes[x].path == old(nodes)[x].path && nodes[x].name == old(nodes)[x].name
      ensures rootObject == if old(rootObject).None? && IsRoot(was, root, oid) then Some(oid) else old(rootObject)
    {
      hide PathOf, IsRoot, SameTree;
      ghost var before, known := nodes, rootObject;
      SameKeys(was, root, nodes, rootObject);
      if IsRoot(nodes, rootObject, oid) {
        RootPath(was, root, oid);
        RootVisit(was, root, before, known, oid);
        nodes := nodes[oid := nodes[oid].(path := [], name := [])];
        if rootObject.None? {
          rootObject := Some(oid);
        }
      } else {
        SamePaths(was, root, nodes, rootObject, oid, {});
        var path := Climb(oid, {});
        SameTrans(was, root, before, nodes, rootObject);
        SameKeys(was, root, nodes, rootObject);
        PathVisit(was, root, nodes, rootObject, oid, path);
        nodes := nodes[oid := nodes[oid].(path := path)];
      }
    }

    lemma SameTrans(was: Nodes, root: Option<nat>, mid: Nodes, now: Nodes, root': Option<nat>)
      requires SameTree(was, root, mid, root') && SameTree(mid, root', now, root')
      ensures SameTree(was, root, now, root')
    {
    }

    lemma {:induction false} RootPath(nodes: Nodes, root: Option<nat>, oid: nat)
      ensures oid in nodes && IsRoot(nodes, root, oid) ==> PathOf(nodes, root, oid, {}) == []
    {
    }

    lemma RootVisit(was: Nodes, root: Option<nat>, now: Nodes, known: Option<nat>, oid: nat)
      requires SameTree(was, root, now, known) && oid in now && IsRoot(now, known, oid)
      ensures IsRoot(was, root, oid)
      ensures SameTree(was, root, now[oid := now[oid].(path := [], name := [])],
                       if known.None? then Some(oid) else known)
    {
    }

    lemma PathVisit(was: Nodes, root: Option<nat>, now: Nodes, known: Option<nat>, oid: nat, path: Path)
      requires SameTree(was, root, now, known) && oid in now
      ensures IsRoot(was, root, oid) <==> IsRoot(now, known, oid)
      ensures SameTree(was, root, now[oid := now[oid].(path := path)], known)
    {
    }

    /** The last step of `build_index`, over the nodes in any order. The path of every node
        depends on the tree alone, though the root may be found half-way through. */
    method AssignPaths(order: seq<nat>)
      requires forall x :: x in nodes <==> x in order
      modifies this
      ensures SameTree(old(nodes), old(rootObject), nodes, rootObject)
      ensures forall x :: x in nodes ==> nodes[x].path == PathOf(old(nodes), old(rootObject), x, {})
      ensures forall x :: x in nodes && IsRoot(old(nodes), old(rootObject), x) ==> nodes[x].name == []
      ensures rootObject == FirstRoot(old(nodes), old(rootObject), order)
    {
      hide PathOf, IsRoot, SameTree;
      ghost var was, root := nodes, rootObject;
      SameAsItself(was, root);
      var i := 0;
      while i < |order|
        invariant 0 <= i <= |order|
        invariant SameTree(was, root, nodes, rootObject) && nodes.Keys == was.Keys
        invariant forall j :: 0 <= j < i ==>
                    order[j] in nodes && nodes[order[j]].path == PathOf(was, root, order[j], {})
        invariant forall j :: 0 <= j < i && IsRoot(was, root, order[j]) ==> nodes[order[j]].name == []
        invariant FirstRoot(was, root, order) == FirstRootFrom(was, root, rootObject, order, i)
      {
        assert order[i] in was;
        Visit(order[i], was, root);
        SameKeys(was, root, nodes, rootObject);
        i := i + 1;
      }
    }

    lemma SameAsItself(was: Nodes, root: Option<nat>)
      ensures SameTree(was, root, was, root)
    {
    }

    lemma SameKeys(was: Nodes, root: Option<nat>, now: Nodes, root': Option<nat>)
      requires SameTree(was, root, now, root')
      ensures was.Keys == now.Keys
    {
    }
  }

  /** The root object that the walk ends with: the known one, else the first root it meets. */
  function FirstRootFrom(nodes: Nodes, root: Option<nat>, found: Option<nat>, order: seq<nat>, i: nat): Option<nat>
    requires i <= |order|
    decreases |order| - i
  {
    if found.Some? || i == |order| then found
    else FirstRootFrom(nodes, root, if IsRoot(nodes, root, order[i]) then Some(order[i]) else None, order, i + 1)
  }

  function FirstRoot(nodes: Nodes, root: Option<nat>, order: seq<nat>): Option<nat>
  {
    FirstRootFrom(nodes, root, root, order, 0)
  }
}
