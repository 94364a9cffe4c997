/** Names of the dataset directories: a worklist over any graph, against recursive descent. */
module Dsl {
  import opened Bytes

  /** The map of the children of a directory: entries without a value have no object. */
  datatype ChildMap = NoChildren | Unreadable | Readable(complete: bool, entries: seq<(seq<Byte>, Option<nat>)>)

  /** The readable directories and their child maps. */
  type Dirs = map<nat, ChildMap>

  /** The names between the slashes, the pool first. */
  type Name = seq<seq<Byte>>

  function Entries(dirs: Dirs, obj: nat): seq<(seq<Byte>, Option<nat>)>
  {
    if obj in dirs && dirs[obj].Readable? then dirs[obj].entries else []
  }

  /** `obj` has the child `child` under the name `name`. */
  predicate Edge(dirs: Dirs, obj: nat, name: seq<Byte>, child: nat)
  {
    (name, Some(child)) in Entries(dirs, obj)
  }

  /** The names lead from the root to `x`. */
  ghost predicate Leads(dirs: Dirs, root: nat, names: Name, x: nat)
    decreases |names|, 1
  {
    if names == [] then x == root else exists y: nat :: LeadsVia(dirs, root, names, y, x)
  }

  /** The last name leads from `y` to `x`, and the others to `y`. */
  ghost predicate LeadsVia(dirs: Dirs, root: nat, names: Name, y: nat, x: nat)
    requires names != []
    decreases |names|, 0
  {
    Leads(dirs, root, names[..|names| - 1], y) && Edge(dirs, y, names[|names| - 1], x)
  }

  lemma {:induction false} LeadsOn(dirs: Dirs, root: nat, names: Name, y: nat, name: seq<Byte>, x: nat)
    requires Leads(dirs, root, names, y) && Edge(dirs, y, name, x)
    ensures Leads(dirs, root, names + [name], x)
  {
    assert (names + [name])[..|names|] == names;
    assert LeadsVia(dirs, root, names + [name], y, x);
  }

  /** All objects that are the root or a child of something. */
  function Universe(dirs: Dirs, root: nat): set<nat>
  {
    {root} + (set o, e | o in dirs && e in Entries(dirs, o) && e.1.Some? :: e.1.value)
  }

  function CountMaps(dirs: Dirs, done: seq<nat>, good: bool): nat
  {
    if done == [] then 0
    else CountMaps(dirs, done[..|done| - 1], good) + (if Counts(dirs, done[|done| - 1], good) then 1 else 0)
  }

  /** A child map that was read whole counts as read; one that could not be, as lost. */
  predicate Counts(dirs: Dirs, obj: nat, good: bool)
  {
    obj in dirs && !dirs[obj].NoChildren? && (good <==> dirs[obj].Readable? && dirs[obj].complete)
  }

  // ----- the worklist -----

  ghost predicate TrueName(dirs: Dirs, root: nat, pool: seq<Byte>, name: Name, x: nat)
  {
    name != [] && name[0] == pool && Leads(dirs, root, name[1..], x)
  }

  /** Every name is a path to what it names. */
  ghost predicate AllTrue(dirs: Dirs, root: nat, pool: seq<Byte>, names: map<nat, Name>)
  {
    root in names &&
    forall x :: x in names ==> x in Universe(dirs, root) && TrueName(dirs, root, pool, names[x], x)
  }

  /** What is named waits or is done, and nothing else does. */
  ghost predicate Listed(names: map<nat, Name>, todo: seq<nat>, done: seq<nat>)
  {
    && (forall x :: x in names <==> x in todo || x in done)
    && (forall i, j :: 0 <= i < j < |done| ==> done[i] != done[j])
  }

  /** The first `n` children of `obj` are named. */
  ghost predicate ChildrenNamed(dirs: Dirs, names: map<nat, Name>, obj: nat, n: nat)
  {
    forall j :: 0 <= j < n && j < |Entries(dirs, obj)| && Entries(dirs, obj)[j].1.Some? ==>
      Entries(dirs, obj)[j].1.value in names
  }

  /** The children of what is done are named, those of the directory at hand up to the n-th. */
  ghost predicate Closed(dirs: Dirs, names: map<nat, Name>, done: seq<nat>, obj: Option<nat>, n: nat)
  {
    forall x :: x in done ==> ChildrenNamed(dirs, names, x, if obj == Some(x) then n else |Entries(dirs, x)|)
  }

  /** `_noms_des_repertoires`: on any graph it ends, handles each directory once, names exactly
      what can be reached from the root, and each name is a path to what it names. */
  method NamesOfDirectories(dirs: Dirs, root: nat, pool: seq<Byte>)
    returns (names: map<nat, Name>, read: nat, lost: nat, ghost done: seq<nat>)
    ensures forall i, j :: 0 <= i < j < |done| ==> done[i] != done[j]
    ensures forall x :: x in names <==> x in done
    ensures forall x :: x in names ==> TrueName(dirs, root, pool, names[x], x)
    ensures forall p: Name, x: nat :: Leads(dirs, root, p, x) ==> x in names
    ensures read == CountMaps(dirs, done, true) && lost == CountMaps(dirs, done, false)
  {
    hide AllTrue, Closed, Listed, Entries, Universe, Leads;
    names := map[root := [pool]];
    read, lost, done := 0, 0, [];
    var todo := [root];
    var seen: set<nat> := {};
    Beginning(dirs, root, pool);
    while todo != []
      invariant AllTrue(dirs, root, pool, names) && Listed(names, todo, done) && Closed(dirs, names, done, None, 0)
      invariant forall x :: x in seen <==> x in done
      invariant read == CountMaps(dirs, done, true) && lost == CountMaps(dirs, done, false)
      decreases Universe(dirs, root) - seen, |todo|
    {
      var obj := todo[|todo| - 1];
      ghost var was := todo;
      todo := todo[..|todo| - 1];
      assert was == todo + [obj];
      Popped(dirs, root, pool, names, todo, done, obj);
      if obj !in seen {
        seen := seen + {obj};
        ghost var before := done;
        done := done + [obj];
        assert done[..|before|] == before;
        if obj in dirs && !dirs[obj].NoChildren? {
          if dirs[obj].Readable? && dirs[obj].complete {
            read := read + 1;
          } else {
            lost := lost + 1;
          }
        }
        names, todo := NameChildren(dirs, root, pool, obj, names, todo, done);
      }
    }
    AtTheEnd(dirs, root, pool, names, done);
  }

  lemma Beginning(dirs: Dirs, root: nat, pool: seq<Byte>)
    ensures var names := map[root := [pool]];
            AllTrue(dirs, root, pool, names) && Listed(names, [root], []) && Closed(dirs, names, [], None, 0)
  {
    assert [pool][1..] == [];
  }

  lemma Popped(dirs: Dirs, root: nat, pool: seq<Byte>, names: map<nat, Name>, todo: seq<nat>, done: seq<nat>, obj: nat)
    requires AllTrue(dirs, root, pool, names) && Listed(names, todo + [obj], done) && Closed(dirs, names, done, None, 0)
    ensures obj in Universe(dirs, root)
    ensures obj in done ==> Listed(names, todo, done)
    ensures obj !in done ==> Listed(names, todo, done + [obj]) && Closed(dirs, names, done + [obj], Some(obj), 0)
  {
    assert obj in todo + [obj];
    assert forall x :: x in todo + [obj] <==> x in todo || x == obj;
    assert forall x :: x in done + [obj] <==> x in done || x == obj;
    if obj !in done {
      forall x | x in done
        ensures ChildrenNamed(dirs, names, x, |Entries(dirs, x)|)
      {
      }
    }
  }

  lemma {:induction false} AtTheEnd(dirs: Dirs, root: nat, pool: seq<Byte>, names: map<nat, Name>, done: seq<nat>)
    requires AllTrue(dirs, root, pool, names) && Listed(names, [], done) && Closed(dirs, names, done, None, 0)
    ensures forall i, j :: 0 <= i < j < |done| ==> done[i] != done[j]
    ensures forall x :: x in names <==> x in done
    ensures forall x :: x in names ==> TrueName(dirs, root, pool, names[x], x)
    ensures forall p: Name, x: nat :: Leads(dirs, root, p, x) ==> x in names
  {
    forall p: Name, x: nat | Leads(dirs, root, p, x)
      ensures x in names
    {
      Reached(dirs, root, names, done, p, x);
    }
  }

  lemma {:induction false} Reached(dirs: Dirs, root: nat, names: map<nat, Name>, done: seq<nat>, p: Name, x: nat)
    requires root in names && (forall x :: x in names ==> x in done) && Closed(dirs, names, done, None, 0)
    requires Leads(dirs, root, p, x)
    ensures x in names
    decreases |p|
  {
    if p != [] {
      var y: nat :| LeadsVia(dirs, root, p, y, x);
      Reached(dirs, root, names, done, p[..|p| - 1], y);
      assert ChildrenNamed(dirs, names, y, |Entries(dirs, y)|);
      var j :| 0 <= j < |Entries(dirs, y)| && Entries(dirs, y)[j] == (p[|p| - 1], Some(x));
    }
  }

  /** The entries of one directory, named after it and put on the list. */
  method NameChildren(dirs: Dirs, root: nat, pool: seq<Byte>, obj: nat, before: map<nat, Name>,
                      waiting: seq<nat>, ghost done: seq<nat>)
    returns (names: map<nat, Name>, todo: seq<nat>)
    requires AllTrue(dirs, root, pool, before) && Listed(before, waiting, done)
    requires obj in done && Closed(dirs, before, done, Some(obj), 0)
    ensures AllTrue(dirs, root, pool, names) && Listed(names, todo, done) && Closed(dirs, names, done, None, 0)
  {
    hide AllTrue, Closed, Listed, Universe, Leads;
    names, todo := before, waiting;
    var entries := Entries(dirs, obj);
    var i := 0;
    while i < |entries|
      invariant 0 <= i <= |entries|
      invariant AllTrue(dirs, root, pool, names) && Listed(names, todo, done) && Closed(dirs, names, done, Some(obj), i)
    {
      var e := entries[i];
      NamedSoFar(names, todo, done, obj);
      if e.1.Some? {
        var child := e.1.value;
        OneChild(dirs, root, pool, names, obj, i);
        ChildListed(names, todo, done, child, names[obj] + [e.0]);
        ClosedGrows(dirs, names, done, Some(obj), i, child, names[obj] + [e.0]);
        names := names[child := names[obj] + [e.0]];
        todo := todo + [child];
      }
      ClosedMore(dirs, names, done, obj, i);
      i := i + 1;
    }
    AllClosed(dirs, names, done, obj);
  }

  lemma NamedSoFar(names: map<nat, Name>, todo: seq<nat>, done: seq<nat>, obj: nat)
    requires Listed(names, todo, done) && obj in done
    ensures obj in names
  {
  }

  lemma OneChild(dirs: Dirs, root: nat, pool: seq<Byte>, names: map<nat, Name>, obj: nat, i: nat)
    requires AllTrue(dirs, root, pool, names) && obj in names
    requires i < |Entries(dirs, obj)| && Entries(dirs, obj)[i].1.Some?
    ensures var e := Entries(dirs, obj)[i];
            AllTrue(dirs, root, pool, names[e.1.value := names[obj] + [e.0]])
  {
    hide Leads;
    var e := Entries(dirs, obj)[i];
    var name := names[obj] + [e.0];
    assert e in Entries(dirs, obj) && e == (e.0, Some(e.1.value));
    LeadsOn(dirs, root, names[obj][1..], obj, e.0, e.1.value);
    assert name[1..] == names[obj][1..] + [e.0];
    assert TrueName(dirs, root, pool, name, e.1.value);
  }

  lemma ChildListed(names: map<nat, Name>, todo: seq<nat>, done: seq<nat>, child: nat, name: Name)
    requires Listed(names, todo, done)
    ensures Listed(names[child := name], todo + [child], done)
  {
    assert forall x :: x in todo + [child] <==> x in todo || x == child;
  }

  lemma ClosedGrows(dirs: Dirs, names: map<nat, Name>, done: seq<nat>, obj: Option<nat>, n: nat, child: nat, name: Name)
    requires Closed(dirs, names, done, obj, n)
    ensures Closed(dirs, names[child := name], done, obj, n)
  {
    forall x | x in done
      ensures ChildrenNamed(dirs, names[child := name], x, if obj == Some(x) then n else |Entries(dirs, x)|)
    {
      assert ChildrenNamed(dirs, names, x, if obj == Some(x) then n else |Entries(dirs, x)|);
    }
  }

  /** The entry just passed is named, when it has an object. */
  lemma ClosedMore(dirs: Dirs, names: map<nat, Name>, done: seq<nat>, obj: nat, i: nat)
    requires i < |Entries(dirs, obj)|
    requires Entries(dirs, obj)[i].1.Some? ==> Entries(dirs, obj)[i].1.value in names
    ensures Closed(dirs, names, done, Some(obj), i) ==> Closed(dirs, names, done, Some(obj), i + 1)
  {
  }

  lemma AllClosed(dirs: Dirs, names: map<nat, Name>, done: seq<nat>, obj: nat)
    requires Closed(dirs, names, done, Some(obj), |Entries(dirs, obj)|)
    ensures Closed(dirs, names, done, None, 0)
  {
  }

  // ----- recursive descent -----

  datatype DatasetNode = DatasetNode(name: Name, dirObj: nat, children: seq<DatasetNode>, tooDeep: bool)

  const MAX_DEPTH := 32

  /** `_noeud`: the tree of datasets, down to a fixed depth. */
  function Node(dirs: Dirs, obj: nat, name: Name, depth: nat): DatasetNode
    requires depth <= MAX_DEPTH + 1
    decreases MAX_DEPTH + 1 - depth, 1, 0
  {
    if depth > MAX_DEPTH then DatasetNode(name, obj, [], true)
    else DatasetNode(name, obj, Children(dirs, Entries(dirs, obj), name, depth, |Entries(dirs, obj)|), false)
  }

  /** The nodes of the first `n` entries that have an object. */
  function Children(dirs: Dirs, entries: seq<(seq<Byte>, Option<nat>)>, name: Name, depth: nat,
                    n: nat): seq<DatasetNode>
    requires depth <= MAX_DEPTH && n <= |entries|
    decreases MAX_DEPTH + 1 - depth, 0, n
  {
    if n == 0 then []
    else
      var e := entries[n - 1];
      Children(dirs, entries, name, depth, n - 1)
      + (if e.1.Some? then [Node(dirs, e.1.value, name + [e.0], depth + 1)] else [])
  }

  method BuildNode(dirs: Dirs, obj: nat, name: Name, depth: nat) returns (n: DatasetNode)
    requires depth <= MAX_DEPTH + 1
    ensures n == Node(dirs, obj, name, depth)
    decreases MAX_DEPTH + 1 - depth
  {
    if depth > MAX_DEPTH { return DatasetNode(name, obj, [], true); }
    var children: seq<DatasetNode> := [];
    var entries := Entries(dirs, obj);
    var i := 0;
    while i < |entries|
      invariant 0 <= i <= |entries| && children == Children(dirs, entries, name, depth, i)
    {
      var e := entries[i];
      if e.1.Some? {
        var c := BuildNode(dirs, e.1.value, name + [e.0], depth + 1);
        children := children + [c];
      }
      i := i + 1;
    }
    n := DatasetNode(name, obj, children, false);
  }

  /** The node or one below it names `obj` so. */
  predicate Names(n: DatasetNode, name: Name, obj: nat)
  {
    (n.name == name && n.dirObj == obj) || exists i :: 0 <= i < |n.children| && Names(n.children[i], name, obj)
  }

  lemma {:induction false} ChildNames(dirs: Dirs, entries: seq<(seq<Byte>, Option<nat>)>, name: Name, depth: nat,
                                      n: nat, c: DatasetNode)
    requires depth <= MAX_DEPTH && n <= |entries|
    ensures c in Children(dirs, entries, name, depth, n) <==>
            exists j :: 0 <= j < n && entries[j].1.Some?
                        && c == Node(dirs, entries[j].1.value, name + [entries[j].0], depth + 1)
  {
    hide Node;
    if n > 0 {
      ChildNames(dirs, entries, name, depth, n - 1, c);
      var e := entries[n - 1];
      if e.1.Some? && c == Node(dirs, e.1.value, name + [e.0], depth + 1) {
        assert c in Children(dirs, entries, name, depth, n);
      }
    }
  }

  /** The names of the tree are true paths. */
  lemma {:induction false} DescentIsTrue(dirs: Dirs, root: nat, pool: seq<Byte>, obj: nat, at: Name, depth: nat,
                                         name: Name, x: nat)
    requires depth <= MAX_DEPTH + 1 && TrueName(dirs, root, pool, at, obj)
    requires Names(Node(dirs, obj, at, depth), name, x)
    ensures TrueName(dirs, root, pool, name, x) && |name| - |at| <= MAX_DEPTH + 1 - depth
    decreases MAX_DEPTH + 1 - depth
  {
    hide Leads, Children;
    var n := Node(dirs, obj, at, depth);
    if !(n.name == name && n.dirObj == x) {
      var i :| 0 <= i < |n.children| && Names(n.children[i], name, x);
      var entries := Entries(dirs, obj);
      assert n.children[i] in n.children;
      ChildNames(dirs, entries, at, depth, |entries|, n.children[i]);
      var j :| 0 <= j < |entries| && entries[j].1.Some?
               && n.children[i] == Node(dirs, entries[j].1.value, at + [entries[j].0], depth + 1);
      var e := entries[j];
      assert e in entries && e == (e.0, Some(e.1.value));
      LeadsOn(dirs, root, at[1..], obj, e.0, e.1.value);
      assert (at + [e.0])[1..] == at[1..] + [e.0];
      DescentIsTrue(dirs, root, pool, e.1.value, at + [e.0], depth + 1, name, x);
    }
  }

  /** A child of what the tree names is named too, as long as it is not too deep. */
  lemma {:induction false} NamesGrow(dirs: Dirs, obj: nat, at: Name, depth: nat, name: Name, y: nat,
                                     last: seq<Byte>, x: nat)
    requires depth <= MAX_DEPTH + 1 && Names(Node(dirs, obj, at, depth), name, y) && Edge(dirs, y, last, x)
    requires depth + |name| - |at| <= MAX_DEPTH
    ensures Names(Node(dirs, obj, at, depth), name + [last], x)
    decreases MAX_DEPTH + 1 - depth
  {
    hide Children;
    var n, entries := Node(dirs, obj, at, depth), Entries(dirs, obj);
    if n.name == name && n.dirObj == y {
      var c := Node(dirs, x, at + [last], depth + 1);
      var j :| 0 <= j < |entries| && entries[j] == (last, Some(x));
      ChildNames(dirs, entries, at, depth, |entries|, c);
      assert c in n.children;
      var i :| 0 <= i < |n.children| && n.children[i] == c;
      assert Names(n.children[i], name + [last], x);
    } else {
      var i :| 0 <= i < |n.children| && Names(n.children[i], name, y);
      assert n.children[i] in n.children;
      ChildNames(dirs, entries, at, depth, |entries|, n.children[i]);
      var j :| 0 <= j < |entries| && entries[j].1.Some?
               && n.children[i] == Node(dirs, entries[j].1.value, at + [entries[j].0], depth + 1);
      NamesGrow(dirs, entries[j].1.value, at + [entries[j].0], depth + 1, name, y, last, x);
      assert Names(n.children[i], name + [last], x);
    }
  }

  lemma {:induction false} PathIsNamed(dirs: Dirs, root: nat, pool: seq<Byte>, p: Name, x: nat)
    requires Leads(dirs, root, p, x) && |p| <= MAX_DEPTH + 1
    ensures Names(Node(dirs, root, [pool], 0), [pool] + p, x)
    decreases |p|
  {
    hide Children, Edge;
    if p == [] {
      assert [pool] + p == [pool];
    } else {
      hide Names, Node;
      var n := |p| - 1;
      var y: nat :| LeadsVia(dirs, root, p, y, x);
      PathIsNamed(dirs, root, pool, p[..n], y);
      NamesGrow(dirs, root, [pool], 0, [pool] + p[..n], y, p[n], x);
      assert [pool] + p[..n] + [p[n]] == [pool] + p;
    }
  }

  /** On any graph, cycles included, recursive descent names exactly the paths of at most 33
      links from the root. */
  lemma {:induction false} DescentNamesPaths(dirs: Dirs, root: nat, pool: seq<Byte>, name: Name, x: nat)
    ensures Names(Node(dirs, root, [pool], 0), name, x) <==>
            TrueName(dirs, root, pool, name, x) && |name| <= 34
  {
    hide Leads, Node, Names;
    assert [pool][1..] == [];
    RootLeads(dirs, root);
    if Names(Node(dirs, root, [pool], 0), name, x) {
      DescentIsTrue(dirs, root, pool, root, [pool], 0, name, x);
    }
    if TrueName(dirs, root, pool, name, x) && |name| <= MAX_DEPTH + 2 {
      assert [pool] + name[1..] == name;
      PathIsNamed(dirs, root, pool, name[1..], x);
    }
  }

  /** `m` is the node or one below it. */
  predicate Within(n: DatasetNode, m: DatasetNode)
  {
    m == n || exists i :: 0 <= i < |n.children| && Within(n.children[i], m)
  }

  lemma {:induction false} ChildIsNode(dirs: Dirs, entries: seq<(seq<Byte>, Option<nat>)>, name: Name, depth: nat,
                                       n: nat, i: nat) returns (obj: nat, part: seq<Byte>)
    requires depth <= MAX_DEPTH && n <= |entries| && i < |Children(dirs, entries, name, depth, n)|
    ensures Children(dirs, entries, name, depth, n)[i] == Node(dirs, obj, name + [part], depth + 1)
  {
    hide Node;
    if i < |Children(dirs, entries, name, depth, n - 1)| {
      obj, part := ChildIsNode(dirs, entries, name, depth, n - 1, i);
    } else {
      obj, part := entries[n - 1].1.value, entries[n - 1].0;
    }
  }

  /** The nodes that the descent marks as too deep are those 33 links below the root, and it goes no further
      there. */
  lemma {:induction false} TooDeepIff(dirs: Dirs, obj: nat, name: Name, depth: nat, m: DatasetNode)
    requires depth <= 33 && Within(Node(dirs, obj, name, depth), m)
    ensures |m.name| <= |name| + 33 - depth
    ensures m.tooDeep <==> |m.name| == |name| + 33 - depth
    ensures m.tooDeep ==> m.children == []
    decreases 33 - depth
  {
    hide Within;
    var n := Node(dirs, obj, name, depth);
    InsideOrBelow(n, m);
    if m != n {
      var i :| 0 <= i < |n.children| && Within(n.children[i], m);
      hide Node;
      assert n.children == Children(dirs, Entries(dirs, obj), name, depth, |Entries(dirs, obj)|) by {
        ChildrenOf(dirs, obj, name, depth);
      }
      var o, part := ChildIsNode(dirs, Entries(dirs, obj), name, depth, |Entries(dirs, obj)|, i);
      TooDeepIff(dirs, o, name + [part], depth + 1, m);
    }
  }

  lemma {:induction false} InsideOrBelow(n: DatasetNode, m: DatasetNode)
    requires Within(n, m)
    ensures m == n || exists i :: 0 <= i < |n.children| && Within(n.children[i], m)
  {
  }

  lemma {:induction false} ChildrenOf(dirs: Dirs, obj: nat, name: Name, depth: nat)
    requires depth <= 33 && Node(dirs, obj, name, depth).children != []
    ensures depth <= 32
    ensures Node(dirs, obj, name, depth).children
         == Children(dirs, Entries(dirs, obj), name, depth, |Entries(dirs, obj)|)
  {
  }

  /** When the child maps form a tree: the root is nobody's child, and everything else has one
      parent and one name. */
  ghost predicate IsTree(dirs: Dirs, root: nat)
  {
    && (forall y: nat, name: seq<Byte> :: !Edge(dirs, y, name, root))
    && (forall x: nat, y: nat, name: seq<Byte>, y': nat, name': seq<Byte> ::
          Edge(dirs, y, name, x) && Edge(dirs, y', name', x) ==> y == y' && name == name')
  }

  lemma {:induction false} OnePath(dirs: Dirs, root: nat, p: Name, q: Name, x: nat)
    requires IsTree(dirs, root) && Leads(dirs, root, p, x) && Leads(dirs, root, q, x)
    ensures p == q
    decreases |p|
  {
    hide Edge;
    if p != [] && q != [] {
      var y: nat :| LeadsVia(dirs, root, p, y, x);
      var y': nat :| LeadsVia(dirs, root, q, y', x);
      assert Edge(dirs, y, p[|p| - 1], x) && Edge(dirs, y', q[|q| - 1], x);
      OnePath(dirs, root, p[..|p| - 1], q[..|q| - 1], y);
      assert p == p[..|p| - 1] + [p[|p| - 1]] && q == q[..|q| - 1] + [q[|q| - 1]];
    }
  }

  /** On a tree the worklist gives each directory its one path from the root, and agrees with
      recursive descent on every directory that both reach. */
  lemma {:induction false} WorklistAgrees(dirs: Dirs, root: nat, pool: seq<Byte>, names: map<nat, Name>, name: Name,
                                          x: nat)
    requires IsTree(dirs, root)
    requires forall y :: y in names ==> TrueName(dirs, root, pool, names[y], y)
    requires x in names
    ensures forall p: Name :: Leads(dirs, root, p, x) ==> names[x] == [pool] + p
    ensures Names(Node(dirs, root, [pool], 0), name, x) ==> names[x] == name
    ensures |names[x]| <= 34 ==> Names(Node(dirs, root, [pool], 0), names[x], x)
  {
    hide Leads, IsTree, Node, Names;
    assert [pool][1..] == [];
    RootLeads(dirs, root);
    forall p: Name | Leads(dirs, root, p, x)
      ensures names[x] == [pool] + p
    {
      OnePath(dirs, root, names[x][1..], p, x);
    }
    DescentNamesPaths(dirs, root, pool, name, x);
    DescentNamesPaths(dirs, root, pool, names[x], x);
    if Names(Node(dirs, root, [pool], 0), name, x) {
      OnePath(dirs, root, names[x][1..], name[1..], x);
    }
  }

  lemma {:induction false} RootLeads(dirs: Dirs, root: nat)
    ensures Leads(dirs, root, [], root)
  {
  }

  // ----- maps that were read in part -----

  /** The same entries in every readable map, whether it was read whole or not. */
  predicate SameEntries(m: ChildMap, n: ChildMap)
  {
    (m.Readable? <==> n.Readable?) && (m.Readable? ==> m.entries == n.entries)
  }

  /** What a readable map lists is a child, complete or not: names do not depend on completeness. */
  lemma {:induction false} IncompleteMapsCount(dirs: Dirs, other: Dirs, root: nat, p: Name, x: nat)
    requires dirs.Keys == other.Keys && forall o :: o in dirs ==> SameEntries(dirs[o], other[o])
    ensures forall o: nat, name: seq<Byte>, child: nat :: Edge(dirs, o, name, child) <==>
              o in dirs && dirs[o].Readable? && (name, Some(child)) in dirs[o].entries
    ensures Leads(dirs, root, p, x) <==> Leads(other, root, p, x)
    decreases |p|
  {
    if p != [] {
      var q := p[..|p| - 1];
      forall y: nat
        ensures LeadsVia(dirs, root, p, y, x) <==> LeadsVia(other, root, p, y, x)
      {
        IncompleteMapsCount(dirs, other, root, q, y);
      }
    }
  }

  /** The directories among `done` whose map was read whole, and those whose map was not. */
  ghost function WithMap(dirs: Dirs, done: seq<nat>, whole: bool): set<nat>
  {
    set x | x in done && x in dirs && (if whole then dirs[x].Readable? && dirs[x].complete
                                       else dirs[x] == Unreadable || (dirs[x].Readable? && !dirs[x].complete))
  }

  /** Each map is counted once: as read when it was read whole, as lost when it could not be read or was
      read in part, and not at all when the directory has none. */
  lemma {:induction false} MapsAreCounted(dirs: Dirs, done: seq<nat>, whole: bool)
    requires forall i, j :: 0 <= i < j < |done| ==> done[i] != done[j]
    ensures CountMaps(dirs, done, whole) == |WithMap(dirs, done, whole)|
  {
    if done == [] {
      assert WithMap(dirs, done, whole) == {};
    } else {
      var n := |done| - 1;
      MapsAreCounted(dirs, done[..n], whole);
      OneMoreMap(dirs, done[..n], done[n], whole);
      assert done == done[..n] + [done[n]];
    }
  }

  lemma {:induction false} OneMoreMap(dirs: Dirs, done: seq<nat>, x: nat, whole: bool)
    requires x !in done
    ensures |WithMap(dirs, done + [x], whole)|
         == |WithMap(dirs, done, whole)| + (if Counts(dirs, x, whole) then 1 else 0)
  {
    var here: set<nat> := if Counts(dirs, x, whole) then {x} else {};
    assert forall y :: y in done + [x] <==> y in done || y == x;
    assert WithMap(dirs, done + [x], whole) == WithMap(dirs, done, whole) + here;
  }
}
