/** Paths as text: parts behind slashes; and when the text tells which path it is. */
module PathText {
  import opened Bytes
  import opened Paths

  const SLASH: Byte := 47

  // ----- numbers in decimal -----

  function Decimal(n: nat): (s: seq<Byte>)
    ensures |s| >= 1 && forall i :: 0 <= i < |s| ==> 48 <= s[i] < 58
  {
    if n < 10 then [48 + n] else Decimal(n / 10) + [48 + n % 10]
  }

  function DecimalValue(s: seq<Byte>): int
  {
    if s == [] then 0 else 10 * DecimalValue(s[..|s| - 1]) + s[|s| - 1] - 48
  }

  lemma {:induction false} DecimalReadsBack(n: nat)
    ensures DecimalValue(Decimal(n)) == n
  {
    if n < 10 {
      assert Decimal(n)[..0] == [];
    } else {
      DecimalReadsBack(n / 10);
      assert Decimal(n)[..|Decimal(n)| - 1] == Decimal(n / 10);
    }
  }

  // ----- parts -----

  /** "objet_" */
  const OBJECT: seq<Byte> := [111, 98, 106, 101, 116, 95]

  /** "(parent perdu)" */
  const LOST_PARENT: seq<Byte> := [40, 112, 97, 114, 101, 110, 116, 32, 112, 101, 114, 100, 117, 41]

  /** "(boucle " */
  const LOOP: seq<Byte> := [40, 98, 111, 117, 99, 108, 101, 32]

  /** "(objet " and " absent)" */
  const MISSING: seq<Byte> := [40, 111, 98, 106, 101, 116, 32]
  const ABSENT: seq<Byte> := [32, 97, 98, 115, 101, 110, 116, 41]

  function Ascii(s: string): seq<Byte>
    requires forall i :: 0 <= i < |s| ==> s[i] as int < 128
  {
    seq(|s|, i requires 0 <= i < |s| => s[i] as int as Byte)
  }

  /** The words of the program. */
  lemma Wording()
    ensures OBJECT == Ascii("objet_") && LOST_PARENT == Ascii("(parent perdu)") && LOOP == Ascii("(boucle ")
    ensures MISSING == Ascii("(objet ") && ABSENT == Ascii(" absent)") && [SLASH] == Ascii("/")
  {
  }

  function Text(p: Part): seq<Byte>
  {
    match p
    case Named(name) => name
    case Unnamed(oid) => OBJECT + Decimal(oid)
    case LostParent => LOST_PARENT
    case Loop(oid) => LOOP + Decimal(oid) + [41]
    case Missing(oid) => MISSING + Decimal(oid) + ABSENT
  }

  /** Every part behind a slash. */
  function PathAsText(p: Path): seq<Byte>
  {
    if p == [] then [] else PathAsText(p[..|p| - 1]) + [SLASH] + Text(p[|p| - 1])
  }

  // ----- the parts in the text -----

  predicate SlashFree(p: Path)
  {
    forall i :: 0 <= i < |p| ==> SLASH !in Text(p[i])
  }

  /** The last slash splits off the last part. */
  lemma LastSlash(a: seq<Byte>, s: seq<Byte>, b: seq<Byte>, t: seq<Byte>)
    requires a + [SLASH] + s == b + [SLASH] + t && SLASH !in s && SLASH !in t
    ensures a == b && s == t
  {
    var all := a + [SLASH] + s;
    NoSlashAfter(a, s);
    NoSlashAfter(b, t);
    assert all[|a|] == SLASH && (b + [SLASH] + t)[|b|] == SLASH;
    assert |a| == |b|;
    assert all[..|a|] == a && (b + [SLASH] + t)[..|a|] == b;
    assert all[|a| + 1..] == s && (b + [SLASH] + t)[|a| + 1..] == t;
  }

  lemma NoSlashAfter(a: seq<Byte>, s: seq<Byte>)
    requires SLASH !in s
    ensures forall k :: |a| < k < |a| + 1 + |s| ==> (a + [SLASH] + s)[k] != SLASH
  {
    forall k | |a| < k < |a| + 1 + |s|
      ensures (a + [SLASH] + s)[k] != SLASH
    {
      assert (a + [SLASH] + s)[k] == s[k - |a| - 1];
    }
  }

  lemma {:induction false} SameTexts(p: Path, q: Path)
    requires SlashFree(p) && SlashFree(q) && PathAsText(p) == PathAsText(q)
    ensures |p| == |q| && forall i :: 0 <= i < |p| ==> Text(p[i]) == Text(q[i])
    decreases |p|
  {
    hide Text;
    if p != [] && q != [] {
      var m, n := |p| - 1, |q| - 1;
      LastSlash(PathAsText(p[..m]), Text(p[m]), PathAsText(q[..n]), Text(q[n]));
      SameTexts(p[..m], q[..n]);
    }
  }

  // ----- which part a text is -----

  /** A name that looks like a stand-in or a marker. */
  ghost predicate Imitates(name: seq<Byte>)
  {
    exists p: Part :: !p.Named? && Text(p) == name
  }

  lemma DifferentHeads(p: Part, q: Part)
    requires !p.Named? && !q.Named? && Text(p) == Text(q)
    ensures match p
            case Unnamed(_) => q.Unnamed?
            case LostParent => q.LostParent?
            case Loop(_) => q.Loop?
            case Missing(_) => q.Missing?
            case Named(_) => false
  {
    var s, t := Text(p), Text(q);
    assert s[0] == t[0] && s[1] == t[1] && s[2] == t[2];
  }

  lemma {:induction false} SameNumber(a: seq<Byte>, m: nat, n: nat, b: seq<Byte>)
    requires a + Decimal(m) + b == a + Decimal(n) + b
    ensures m == n
  {
    hide Decimal;
    var s := a + Decimal(m) + b;
    assert s[|a|..|s| - |b|] == Decimal(m);
    assert (a + Decimal(n) + b)[|a|..|s| - |b|] == Decimal(n);
    DecimalReadsBack(m);
    DecimalReadsBack(n);
  }

  lemma TextTellsPart(p: Part, q: Part)
    requires Text(p) == Text(q)
    requires p.Named? ==> !Imitates(p.name)
    requires q.Named? ==> !Imitates(q.name)
    ensures p == q
  {
    hide Decimal;
    if !p.Named? && !q.Named? {
      DifferentHeads(p, q);
      match p
      case Unnamed(oid) =>
        assert OBJECT + Decimal(oid) + [] == Text(p) && OBJECT + Decimal(q.oid) + [] == Text(q);
        SameNumber(OBJECT, oid, q.oid, []);
      case Loop(oid) => SameNumber(LOOP, oid, q.oid, [41]);
      case Missing(oid) => SameNumber(MISSING, oid, q.oid, ABSENT);
      case _ =>
    } else {
      if !p.Named? { Imitation(p); }
      if !q.Named? { Imitation(q); }
    }
  }

  lemma Imitation(p: Part)
    requires !p.Named?
    ensures Imitates(Text(p))
  {
  }

  /** Names without slashes that imitate nothing. */
  ghost predicate Honest(p: Path)
  {
    forall i :: 0 <= i < |p| && p[i].Named? ==> SLASH !in p[i].name && !Imitates(p[i].name)
  }

  lemma HonestIsSlashFree(p: Path)
    requires Honest(p)
    ensures SlashFree(p)
  {
    hide Imitates, Decimal;
    forall i | 0 <= i < |p|
      ensures SLASH !in Text(p[i])
    {
      if !p[i].Named? { MarkersHaveNone(p[i]); }
    }
  }

  lemma MarkersHaveNone(p: Part)
    requires !p.Named?
    ensures SLASH !in Text(p)
  {
    hide Decimal;
  }

  /** With honest names the text of a path is the path: a marker in the text is a marker. */
  lemma {:induction false} TextTells(p: Path, q: Path)
    requires Honest(p) && Honest(q)
    ensures PathAsText(p) == PathAsText(q) <==> p == q
  {
    hide Imitates, Text;
    if PathAsText(p) == PathAsText(q) {
      HonestIsSlashFree(p);
      HonestIsSlashFree(q);
      SameTexts(p, q);
      forall i | 0 <= i < |p|
        ensures p[i] == q[i]
      {
        TextTellsPart(p[i], q[i]);
      }
    }
  }

  lemma {:induction false} SameTextsSamePath(p: Path, q: Path)
    requires |p| == |q| && forall i :: 0 <= i < |p| ==> Text(p[i]) == Text(q[i])
    ensures PathAsText(p) == PathAsText(q)
    decreases |p|
  {
    hide Text;
    if p != [] { SameTextsSamePath(p[..|p| - 1], q[..|q| - 1]); }
  }

  /** A directory of the root named like the marker of a lost parent makes the text of a path that
      reaches the root the text of one that does not. */
  lemma NameLikeMarker(name: seq<Byte>)
    ensures PathAsText([Named(LOST_PARENT), Named(name)]) == PathAsText([LostParent, Named(name)])
  {
    var p, q := [Named(LOST_PARENT), Named(name)], [LostParent, Named(name)];
    assert p[..1] == [Named(LOST_PARENT)] && q[..1] == [LostParent];
    assert p[..1][..0] == [] && q[..1][..0] == [];
  }

  // ----- markers in the text -----

  /** Markers stand in the first place only; behind that of a lost parent comes at least the node
      itself, and behind that of a loop at least two nodes. */
  lemma {:induction false} MarkersFirst(nodes: Nodes, root: Option<nat>, oid: nat, seen: set<nat>)
    ensures var p := PathOf(nodes, root, oid, seen);
            && (forall i :: 0 < i < |p| ==> !Marker(p[i]))
            && (p != [] && p[0].LostParent? ==> |p| >= 2)
            && (p != [] && p[0].Loop? && oid !in seen ==> |p| >= 2)
    decreases nodes.Keys - seen
  {
    if oid in nodes && !IsRoot(nodes, root, oid) && oid !in seen && HasHome(nodes, oid) {
      MarkersFirst(nodes, root, nodes[oid].parent.value, seen + {oid});
    }
  }

  lemma {:induction false} LoopIsLong(nodes: Nodes, root: Option<nat>, oid: nat)
    requires oid in nodes
    ensures var p := PathOf(nodes, root, oid, {});
            p != [] && p[0].Loop? ==> |p| >= 3
  {
    if !IsRoot(nodes, root, oid) && HasHome(nodes, oid) {
      MarkersFirst(nodes, root, nodes[oid].parent.value, {oid});
    }
  }

  /** The text of the first part reads like the marker of a lost parent, or of a loop. */
  ghost predicate ReadsLikeMarker(p: Path)
  {
    && |p| >= 2
    && (Text(p[0]) == LOST_PARENT || (|p| >= 3 && exists n: nat :: Text(p[0]) == Text(Loop(n))))
  }

  /** A node of some graph whose chain of directories does not reach a root. */
  ghost predicate Astray(nodes: Nodes, root: Option<nat>, oid: nat)
  {
    oid in nodes && var p := PathOf(nodes, root, oid, {}); p != [] && Marker(p[0])
  }

  // ----- graphs with a given path -----

  /** The first `m` of a row of directories, each with the next as its parent and the last with `top`;
      the names are given from the last to the first. */
  function Row(names: seq<seq<Byte>>, base: nat, top: Option<nat>, m: nat): (nodes: Nodes)
    requires m <= |names|
    ensures forall x :: x in nodes <==> base <= x < base + m
    ensures forall j :: 0 <= j < m ==> nodes[base + j] == Directory(names, base, top, j)
  {
    if m == 0 then map[] else Row(names, base, top, m - 1)[base + m - 1 := Directory(names, base, top, m - 1)]
  }

  function Directory(names: seq<seq<Byte>>, base: nat, top: Option<nat>, j: nat): Node
    requires j < |names|
  {
    Node(true, names[|names| - 1 - j], if j + 1 < |names| then Some(base + j + 1) else top, [], 0)
  }

  function AllNamed(names: seq<seq<Byte>>): (p: Path)
    ensures |p| == |names| && forall i :: 0 <= i < |p| ==> p[i] == Named(names[i])
  {
    seq(|names|, i requires 0 <= i < |names| => Named(names[i]))
  }

  /** Without a last parent the row is one of a lost parent; with its first as the last parent, a loop. */
  lemma {:induction false} RowPath(names: seq<seq<Byte>>, base: nat, top: Option<nat>, j: nat, seen: set<nat>)
    requires j < |names| && (forall k :: 0 <= k < |names| ==> names[k] != [])
    requires top.None? || (top == Some(base) && |names| >= 2)
    requires forall x: nat :: x in seen <==> base <= x < base + j
    ensures PathOf(Row(names, base, top, |names|), None, base + j, seen)
         == [if top.None? then LostParent else Loop(base)] + AllNamed(names[..|names| - j])
    decreases |names| - j
  {
    hide PathOf, Row;
    var n := |names|;
    var nodes := Row(names, base, top, n);
    var first := if top.None? then LostParent else Loop(base);
    var name := names[n - 1 - j];
    assert nodes[base + j] == Directory(names, base, top, j);
    assert AllNamed(names[..n - j]) == AllNamed(names[..n - j - 1]) + [Named(name)];
    assert [first] + AllNamed(names[..n - j]) == [first] + AllNamed(names[..n - j - 1]) + [Named(name)];
    OneStep(nodes, base + j, seen);
    if j + 1 < n {
      assert nodes[base + j + 1] == Directory(names, base, top, j + 1);
      RowPath(names, base, top, j + 1, seen + {base + j});
    } else {
      assert AllNamed(names[..0]) == [];
      if top.Some? {
        assert nodes[base] == Directory(names, base, top, 0);
        OneStep(nodes, base, seen + {base + j});
      }
    }
  }

  /** One parent up, in a graph without a known root. */
  lemma {:induction false} OneStep(nodes: Nodes, oid: nat, seen: set<nat>)
    requires oid in nodes && nodes[oid].parent != Some(oid) && nodes[oid].name != []
    ensures var n := nodes[oid];
            PathOf(nodes, None, oid, seen)
            == if oid in seen then [Loop(oid)]
               else if !HasHome(nodes, oid) then [LostParent, Named(n.name)]
               else PathOf(nodes, None, n.parent.value, seen + {oid}) + [Named(n.name)]
  {
  }

  // ----- when a text tells of a marker that is not there -----

  predicate Readable(p: Path) { forall i :: 0 <= i < |p| ==> Text(p[i]) != [] }

  lemma ReadableMore(p: Path, last: Part)
    requires Readable(p) && Text(last) != []
    ensures Readable(p + [last])
  {
    hide Text;
  }

  /** Every part of a path has a text. */
  lemma {:induction false} PartsHaveTexts(nodes: Nodes, root: Option<nat>, oid: nat, seen: set<nat>)
    ensures Readable(PathOf(nodes, root, oid, seen))
    decreases nodes.Keys - seen
  {
    hide Readable, Label;
    NothingIsReadable();
    if oid !in nodes {
      MarkerHasText(Missing(oid));
      ReadableMore([], Missing(oid));
      assert [] + [Missing(oid)] == [Missing(oid)];
    } else if !IsRoot(nodes, root, oid) {
      LabelHasText(nodes[oid], oid);
      if oid in seen {
        MarkerHasText(Loop(oid));
        ReadableMore([], Loop(oid));
        assert [] + [Loop(oid)] == [Loop(oid)];
      } else if !HasHome(nodes, oid) {
        MarkerHasText(LostParent);
        ReadableMore([], LostParent);
        assert [] + [LostParent] == [LostParent];
        ReadableMore([LostParent], Label(nodes[oid], oid));
        assert [LostParent] + [Label(nodes[oid], oid)] == [LostParent, Label(nodes[oid], oid)];
      } else {
        var up := PathOf(nodes, root, nodes[oid].parent.value, seen + {oid});
        PartsHaveTexts(nodes, root, nodes[oid].parent.value, seen + {oid});
        ReadableMore(up, Label(nodes[oid], oid));
      }
    }
  }

  lemma NothingIsReadable()
    ensures Readable([])
  {
  }

  lemma LabelHasText(n: Node, oid: nat)
    ensures Text(Label(n, oid)) != []
  {
    hide Decimal;
    if n.name == [] { assert |OBJECT + Decimal(oid)| > 0; }
  }

  lemma MarkerHasText(p: Part)
    requires Marker(p)
    ensures Text(p) != []
  {
    hide Decimal;
    assert |Text(p)| > 0;
  }

  /** The text is that of a node astray. */
  ghost predicate AstrayText(nodes: Nodes, root: Option<nat>, oid: nat, text: seq<Byte>)
  {
    && Astray(nodes, root, oid) && SlashFree(PathOf(nodes, root, oid, {}))
    && PathAsText(PathOf(nodes, root, oid, {})) == text
  }

  lemma {:induction false} AstrayReads(nodes: Nodes, root: Option<nat>, oid: nat, p: Path)
    requires SlashFree(p) && AstrayText(nodes, root, oid, PathAsText(p))
    ensures ReadsLikeMarker(p)
  {
    hide PathOf, Text, PathAsText;
    var q := PathOf(nodes, root, oid, {});
    MarkersFirst(nodes, root, oid, {});
    LoopIsLong(nodes, root, oid);
    NeverMissing(nodes, root, oid, {});
    SameTexts(p, q);
    assert Text(LostParent) == LOST_PARENT by { LostText(); }
    if q[0].Loop? { assert Text(p[0]) == Text(Loop(q[0].oid)); }
  }

  lemma LostText()
    ensures Text(LostParent) == LOST_PARENT
  {
  }

  lemma {:induction false} ReadsAstray(p: Path) returns (nodes: Nodes, oid: nat)
    requires SlashFree(p) && ReadsLikeMarker(p) && Readable(p)
    ensures AstrayText(nodes, None, oid, PathAsText(p))
  {
    hide PathOf, Text, PathAsText, Row;
    LostText();
    var names := seq(|p| - 1, i requires 0 <= i < |p| - 1 => Text(p[i + 1]));
    var top := None;
    oid := 0;
    if Text(p[0]) != LOST_PARENT {
      oid :| Text(p[0]) == Text(Loop(oid));
      top := Some(oid);
    }
    nodes := Row(names, oid, top, |names|);
    RowPath(names, oid, top, 0, {});
    assert names[..|names|] == names;
    var first := if top.None? then LostParent else Loop(oid);
    SameWithNames(p, first);
    assert PathOf(nodes, None, oid, {}) == [first] + AllNamed(names);
  }

  /** The path with another first part of the same text, and names of the texts of the others. */
  lemma {:induction false} SameWithNames(p: Path, first: Part)
    requires p != [] && SlashFree(p) && Text(first) == Text(p[0])
    ensures var names := seq(|p| - 1, i requires 0 <= i < |p| - 1 => Text(p[i + 1]));
            var q := [first] + AllNamed(names);
            PathAsText(q) == PathAsText(p) && SlashFree(q)
  {
    hide Text, PathAsText;
    var names := seq(|p| - 1, i requires 0 <= i < |p| - 1 => Text(p[i + 1]));
    var q := [first] + AllNamed(names);
    forall i | 0 <= i < |p|
      ensures Text(q[i]) == Text(p[i])
    {
      if i > 0 { NamedText(names[i - 1]); }
    }
    SameTextsSamePath(q, p);
  }

  lemma NamedText(name: seq<Byte>)
    ensures Text(Named(name)) == name
  {
  }

  /** Exactly when the text of a node that reaches a root is also the text of a node, in some graph,
      that does not: when its first part reads like the marker of a lost parent and something comes
      behind it, or like the marker of a loop and two parts come behind it. */
  lemma {:induction false} MarkerInTextIff(nodes: Nodes, root: Option<nat>, oid: nat)
    requires oid in nodes && !Astray(nodes, root, oid) && SlashFree(PathOf(nodes, root, oid, {}))
    ensures var p := PathOf(nodes, root, oid, {});
            (exists nodes': Nodes, root': Option<nat>, oid': nat :: AstrayText(nodes', root', oid', PathAsText(p)))
            <==> ReadsLikeMarker(p)
  {
    hide PathOf, AstrayText, ReadsLikeMarker, SlashFree, PathAsText, Text, Readable;
    var p := PathOf(nodes, root, oid, {});
    if nodes': Nodes, root': Option<nat>, oid': nat :| AstrayText(nodes', root', oid', PathAsText(p)) {
      AstrayReads(nodes', root', oid', p);
    }
    if ReadsLikeMarker(p) {
      PartsHaveTexts(nodes, root, oid, {});
      var nodes', oid' := ReadsAstray(p);
    }
  }
}
