/** What a node map says: where each node's text is, and which node a span of the text belongs to. */
module NodeMaps {
  import opened Prelude
  import opened Chars
  import opened Trees
  import opened Validity
  import opened Printer
  import opened SourceMap

  // ----- the text under a span

  ghost predicate ShownAt(t: Tree, m: map<NodeId, Span>, text: string, a: nat, b: nat, indent: nat) {
    && a <= b <= |text| && text[a..b] == Canonical(t, indent)
    && t.id in m && m[t.id] == Span(t.id, PositionAfter(text[..a]), PositionAfter(text[..b]))
  }

  /** The span of every node of `t` marks that node's rendering, with its position recounted from the
      text before it. */
  ghost predicate Shown(t: Tree, m: map<NodeId, Span>, text: string) {
    && (exists a, b, indent :: ShownAt(t, m, text, a, b, indent))
    && (t.List? ==> forall i :: 0 <= i < |t.children| ==> Shown(t.children[i], m, text))
  }

  ghost predicate Inside(inner: Span, outer: Span) {
    outer.start.byte < inner.start.byte && inner.end.byte < outer.end.byte
  }

  ghost predicate Ordered(t: Tree, m: map<NodeId, Span>) {
    t.id in m && m[t.id].id == t.id && m[t.id].start.byte <= m[t.id].end.byte
  }

  /** Children lie strictly inside their parent, and siblings in order with at least a byte between. */
  ghost predicate Nested(t: Tree, m: map<NodeId, Span>) {
    && Ordered(t, m)
    && (t.List? ==>
      && (forall i :: 0 <= i < |t.children| ==> Nested(t.children[i], m) && Inside(m[t.children[i].id], m[t.id]))
      && (forall i, j :: 0 <= i < j < |t.children| ==> m[t.children[i].id].end.byte < m[t.children[j].id].start.byte))
  }

  lemma {:induction false} SpansKeys(t: Tree, indent: nat, before: string)
    ensures Spans(t, indent, before).Keys == IdSet(t)
    decreases t, 1
  {
    if t.List? {
      SpansAllKeys(t.children, indent + 2, Separator(t, indent), before + "(");
    }
  }

  lemma {:induction false} SpansAllKeys(ts: seq<Tree>, indent: nat, sep: string, before: string)
    ensures SpansAll(ts, indent, sep, before).Keys == IdSetOf(ts)
    decreases ts, 0
  {
    if ts != [] {
      var init, last := ts[..|ts| - 1], ts[|ts| - 1];
      SpansAllKeys(init, indent, sep, before);
      SpansKeys(last, indent, before + Lead(init, indent, sep));
      IdSetOfSnoc(ts);
    }
  }

  lemma IdSetOfSnoc(ts: seq<Tree>)
    requires ts != []
    ensures IdSetOf(ts) == IdSetOf(ts[..|ts| - 1]) + IdSet(ts[|ts| - 1])
  {
    hide IdSet;
    forall x | x in IdSetOf(ts) ensures x in IdSetOf(ts[..|ts| - 1]) + IdSet(ts[|ts| - 1]) {
      var i :| 0 <= i < |ts| && x in IdSet(ts[i]);
      if i < |ts| - 1 {
        assert ts[..|ts| - 1][i] == ts[i];
      }
    }
    forall x | x in IdSetOf(ts[..|ts| - 1]) + IdSet(ts[|ts| - 1]) ensures x in IdSetOf(ts) {
      if x in IdSetOf(ts[..|ts| - 1]) {
        var i :| 0 <= i < |ts| - 1 && x in IdSet(ts[..|ts| - 1][i]);
        assert ts[..|ts| - 1][i] == ts[i];
      }
    }
  }

  // Each child keeps its own spans in its parent's map.
  lemma {:induction false} SpansAllAt(ts: seq<Tree>, i: nat, x: NodeId, indent: nat, sep: string, before: string)
    requires i < |ts| && UniqueAll(ts) && x in IdSet(ts[i])
    ensures var own := Spans(ts[i], indent, before + Lead(ts[..i], indent, sep));
      x in own && x in SpansAll(ts, indent, sep, before) && SpansAll(ts, indent, sep, before)[x] == own[x]
    decreases |ts|
  {
    hide Spans;
    hide IdSet;
    hide Unique;
    hide UniqueAll;
    hide Lead;
    var init, last := ts[..|ts| - 1], ts[|ts| - 1];
    SpansKeys(ts[i], indent, before + Lead(ts[..i], indent, sep));
    if i < |ts| - 1 {
      LastApart(ts, i, x);
      SpansAllAt(init, i, x, indent, sep, before);
      assert init[..i] == ts[..i];
      SpansKeys(last, indent, before + Lead(init, indent, sep));
    }
  }

  lemma LastApart(ts: seq<Tree>, i: nat, x: NodeId)
    requires UniqueAll(ts) && i < |ts| - 1 && x in IdSet(ts[i])
    ensures UniqueAll(ts[..|ts| - 1]) && x !in IdSet(ts[|ts| - 1])
  {
  }

  // `m` holds the spans of `t`, perhaps among others.
  ghost predicate Holds(m: map<NodeId, Span>, t: Tree, indent: nat, before: string) {
    forall x :: x in IdSet(t) ==> x in m && x in Spans(t, indent, before) && m[x] == Spans(t, indent, before)[x]
  }

  lemma HoldsChild(m: map<NodeId, Span>, t: Tree, i: nat, indent: nat, before: string)
    requires Unique(t) && t.List? && i < |t.children| && Holds(m, t, indent, before)
    ensures Holds(m, t.children[i], indent + 2, ChildStart(t, i, indent, before))
    ensures Unique(t.children[i])
  {
    assert UniqueAll(t.children);
    assert Unique(t.children[i]);
    forall x | x in IdSet(t.children[i])
      ensures x in m && x in Spans(t.children[i], indent + 2, ChildStart(t, i, indent, before))
      ensures m[x] == Spans(t.children[i], indent + 2, ChildStart(t, i, indent, before))[x]
    {
      hide *;
      ChildSpan(t, i, x, indent, before);
      HoldsAt(m, t, x, indent, before);
    }
  }

  lemma HoldsAt(m: map<NodeId, Span>, t: Tree, x: NodeId, indent: nat, before: string)
    requires Holds(m, t, indent, before) && x in IdSet(t)
    ensures x in m && x in Spans(t, indent, before) && m[x] == Spans(t, indent, before)[x]
  {
  }

  lemma ChildSpan(t: Tree, i: nat, x: NodeId, indent: nat, before: string)
    requires Unique(t) && t.List? && i < |t.children| && x in IdSet(t.children[i])
    ensures var own := Spans(t.children[i], indent + 2, ChildStart(t, i, indent, before));
      x in IdSet(t) && x in own && x in Spans(t, indent, before) && Spans(t, indent, before)[x] == own[x]
  {
    SpansAllAt(t.children, i, x, indent + 2, Separator(t, indent), before + "(");
    assert x in IdSetOf(t.children) && x != t.id;
    hide IdSet;
    hide SpansAll;
    hide Unique;
    hide UniqueAll;
    assert Spans(t, indent, before) ==
      SpansAll(t.children, indent + 2, Separator(t, indent), before + "(")[t.id := SpanOf(t.id, before, Canonical(t, indent))];
    hide Spans;
    assert IdSet(t) == {t.id} + IdSetOf(t.children) by {
      IdSetIs(t);
    }
  }

  /** The text before the i-th child. */
  function ChildStart(t: Tree, i: nat, indent: nat, before: string): string
    requires t.List? && i < |t.children|
  {
    before + "(" + Lead(t.children[..i], indent + 2, Separator(t, indent))
  }

  lemma {:induction false} BodyPrefix(ts: seq<Tree>, k: nat, indent: nat, sep: string)
    requires k <= |ts|
    ensures Body(ts[..k], indent, sep) <= Body(ts, indent, sep)
    decreases |ts|
  {
    if k == |ts| {
      assert ts[..k] == ts;
    } else if k == 0 {
      assert ts[..0] == [];
    } else {
      var init := ts[..|ts| - 1];
      BodyPrefix(init, k, indent, sep);
      assert init[..k] == ts[..k];
      BodySnoc(ts, |ts| - 1, indent, sep);
      assert ts[..|ts|] == ts;
    }
  }

  lemma PrefixLength(a: string, b: string)
    requires a <= b
    ensures Utf8(a) <= Utf8(b)
  {
    Utf8Prefix(a, b[|a|..]);
    assert b == a + b[|a|..];
  }

  // Part of a bracketed text, strictly inside it.
  lemma WithinBrackets(before: string, lead: string, own: string, body: string)
    requires lead + own <= body
    ensures before + "(" + lead + own <= before + ("(" + body + ")")
    ensures Utf8(before) < Utf8(before + "(" + lead)
    ensures Utf8(before + "(" + lead + own) < Utf8(before + ("(" + body + ")"))
  {
    var rest := body[|lead + own|..];
    assert body == lead + own + rest;
    assert before + ("(" + body + ")") == before + "(" + lead + own + rest + ")";
    assert before + "(" + lead + own + rest + ")" == before + "(" + lead + own + (rest + ")");
    Utf8Concat(before, "(");
    Utf8Concat(before + "(", lead);
    Utf8Concat(before + "(" + lead + own + rest, ")");
    Utf8Concat(before + "(" + lead + own, rest);
  }

  lemma ChildWithin(t: Tree, i: nat, indent: nat, before: string)
    requires t.List? && i < |t.children|
    ensures var start := ChildStart(t, i, indent, before);
      var end := start + Canonical(t.children[i], indent + 2);
      && end <= before + Canonical(t, indent)
      && Utf8(before) < Utf8(start) && Utf8(end) < Utf8(before + Canonical(t, indent))
  {
    var sep := Separator(t, indent);
    CanonicalBody(t, indent);
    BodySnoc(t.children, i, indent + 2, sep);
    BodyPrefix(t.children, i + 1, indent + 2, sep);
    WithinBrackets(before, Lead(t.children[..i], indent + 2, sep), Canonical(t.children[i], indent + 2),
                   Body(t.children, indent + 2, sep));
  }

  lemma SiblingsApart(t: Tree, i: nat, j: nat, indent: nat, before: string)
    requires t.List? && i < j < |t.children|
    ensures Utf8(ChildStart(t, i, indent, before) + Canonical(t.children[i], indent + 2)) < Utf8(ChildStart(t, j, indent, before))
  {
    var sep, ts := Separator(t, indent), t.children;
    BodySnoc(ts, i, indent + 2, sep);
    BodyPrefix(ts[..j], i + 1, indent + 2, sep);
    assert ts[..j][..i + 1] == ts[..i + 1];
    assert Lead(ts[..j], indent + 2, sep) == Body(ts[..j], indent + 2, sep) + sep;
    assert sep != "";
    hide Lead;
    hide Body;
    hide Canonical;
    hide Utf8;
    PartBefore(before + "(", Lead(ts[..i], indent + 2, sep), Canonical(ts[i], indent + 2), Body(ts[..j], indent + 2, sep), sep);
  }

  lemma PartBefore(before: string, lead: string, own: string, body: string, sep: string)
    requires lead + own <= body && sep != ""
    ensures Utf8(before + lead + own) < Utf8(before + (body + sep))
  {
    assert before + (body + sep) == before + body + sep;
    assert before + lead + own == before + (lead + own) <= before + body;
    PrefixLength(before + lead + own, before + body);
    Utf8Concat(before + body, sep);
    Utf8AtLeast(sep);
  }

  /** The spans of a printed tree show each node and are nested. */
  lemma {:induction false} SpansMap(t: Tree, indent: nat, before: string, text: string, m: map<NodeId, Span>)
    requires Unique(t) && Holds(m, t, indent, before) && before + Canonical(t, indent) <= text
    ensures Shown(t, m, text) && Nested(t, m)
    ensures t.id in m && m[t.id] == SpanOf(t.id, before, Canonical(t, indent))
    decreases t
  {
    OwnSpan(t, indent, before, text, m);
    if t.List? {
      forall i | 0 <= i < |t.children|
        ensures Shown(t.children[i], m, text) && Nested(t.children[i], m)
        ensures m[t.children[i].id] == SpanOf(t.children[i].id, ChildStart(t, i, indent, before), Canonical(t.children[i], indent + 2))
        ensures Inside(m[t.children[i].id], m[t.id])
      {
        HoldsChild(m, t, i, indent, before);
        ChildWithin(t, i, indent, before);
        SpansMap(t.children[i], indent + 2, ChildStart(t, i, indent, before), text, m);
      }
      forall i, j | 0 <= i < j < |t.children| ensures m[t.children[i].id].end.byte < m[t.children[j].id].start.byte {
        SiblingsApart(t, i, j, indent, before);
      }
    }
  }

  lemma OwnSpan(t: Tree, indent: nat, before: string, text: string, m: map<NodeId, Span>)
    requires Holds(m, t, indent, before) && before + Canonical(t, indent) <= text
    ensures t.id in m && m[t.id] == SpanOf(t.id, before, Canonical(t, indent))
    ensures ShownAt(t, m, text, |before|, |before + Canonical(t, indent)|, indent) && Ordered(t, m)
  {
    assert t.id in IdSet(t);
    PrefixLength(before, before + Canonical(t, indent));
    assert text[..|before|] == before && text[..|before + Canonical(t, indent)|] == before + Canonical(t, indent);
  }

  /** The node map of a valid tree: a span for each node and no other, each over that node's rendering
      in the source, children strictly inside their parent and siblings apart. */
  lemma NodeMapCorrect(root: Tree)
    requires ValidTree(root)
    ensures var m := Spans(root, 0, "");
      m.Keys == IdSet(root) && Shown(root, m, Canonical(root, 0) + "\n") && Nested(root, m)
  {
    SpansKeys(root, 0, "");
    assert "" + Canonical(root, 0) <= Canonical(root, 0) + "\n";
    SpansMap(root, 0, "", Canonical(root, 0) + "\n", Spans(root, 0, ""));
  }

  // ----- the node a span belongs to

  predicate Contains(span: Span, start: int, end: int) {
    span.start.byte <= start && end <= span.end.byte
  }

  function Length(span: Span): int {
    span.end.byte - span.start.byte
  }

  lemma {:induction false} NestedIds(t: Tree, m: map<NodeId, Span>, x: NodeId)
    requires Nested(t, m) && x in IdSet(t)
    ensures x in m && m[x].id == x && m[t.id].start.byte <= m[x].start.byte && m[x].end.byte <= m[t.id].end.byte
    ensures x != t.id ==> Length(m[x]) < Length(m[t.id])
    decreases t
  {
    if x != t.id {
      var i :| 0 <= i < |t.children| && x in IdSet(t.children[i]);
      NestedIds(t.children[i], m, x);
    }
  }

  /** `x` is the deepest node that contains the bytes: it lies in every node that does, and is shorter
      than any other. */
  ghost predicate Deepest(t: Tree, m: map<NodeId, Span>, start: int, end: int, x: NodeId) {
    && x in IdSet(t) && x in m && Contains(m[x], start, end)
    && (forall u :: Subtree(u, t) && u.id in m && Contains(m[u.id], start, end) ==> x in IdSet(u))
    && (forall y :: y in IdSet(t) && y != x && y in m && Contains(m[y], start, end) ==> Length(m[x]) < Length(m[y]))
  }

  ghost predicate ChildContains(t: Tree, m: map<NodeId, Span>, start: int, end: int, i: nat) {
    t.List? && i < |t.children| && t.children[i].id in m && Contains(m[t.children[i].id], start, end)
  }

  lemma ChildrenApart(t: Tree, m: map<NodeId, Span>, start: int, end: int, i: nat, j: nat)
    requires Nested(t, m) && start <= end && ChildContains(t, m, start, end, i) && i != j
    ensures !ChildContains(t, m, start, end, j)
  {
  }

  lemma {:induction false} DeepestExists(t: Tree, m: map<NodeId, Span>, start: int, end: int) returns (x: NodeId)
    requires Nested(t, m) && start <= end && Contains(m[t.id], start, end)
    ensures Deepest(t, m, start, end, x)
    decreases t
  {
    if i: nat :| ChildContains(t, m, start, end, i) {
      x := DeepestExists(t.children[i], m, start, end);
      NestedIds(t.children[i], m, x);
      forall u | Subtree(u, t) && u.id in m && Contains(m[u.id], start, end) ensures x in IdSet(u) {
        DeepestInChild(t, m, start, end, i, x, u);
      }
      forall y | y in IdSet(t) && y != x && y in m && Contains(m[y], start, end) ensures Length(m[x]) < Length(m[y]) {
        if y != t.id {
          var j := OwnerOf(t, m, start, end, i, y);
        }
      }
    } else {
      x := t.id;
      forall y | y in IdSet(t) && y in m && Contains(m[y], start, end) ensures y == x {
        NestedBelow(t, m, start, end, y);
      }
      forall u | Subtree(u, t) && u.id in m && Contains(m[u.id], start, end) ensures x in IdSet(u) {
        SubtreeIds(u, t);
      }
    }
  }

  // A node under `t` that contains the bytes is in a child that does.
  lemma NestedBelow(t: Tree, m: map<NodeId, Span>, start: int, end: int, y: NodeId)
    requires Nested(t, m) && y in IdSet(t) && y in m && Contains(m[y], start, end)
    ensures y == t.id || exists j :: ChildContains(t, m, start, end, j)
  {
    if y != t.id {
      var j :| 0 <= j < |t.children| && y in IdSet(t.children[j]);
      NestedIds(t.children[j], m, y);
      assert ChildContains(t, m, start, end, j);
    }
  }

  // A node under `t` that contains the bytes is under the one child that does.
  lemma OwnerOf(t: Tree, m: map<NodeId, Span>, start: int, end: int, i: nat, y: NodeId) returns (j: nat)
    requires Nested(t, m) && start <= end && ChildContains(t, m, start, end, i)
    requires y in IdSet(t) && y != t.id && y in m && Contains(m[y], start, end)
    ensures j == i && y in IdSet(t.children[i])
  {
    j :| 0 <= j < |t.children| && y in IdSet(t.children[j]);
    if j != i {
      ChildrenApart(t, m, start, end, i, j);
      NestedIds(t.children[j], m, y);
      assert false;
    }
  }

  lemma DeepestInChild(t: Tree, m: map<NodeId, Span>, start: int, end: int, i: nat, x: NodeId, u: Tree)
    requires Nested(t, m) && start <= end && ChildContains(t, m, start, end, i)
    requires Deepest(t.children[i], m, start, end, x)
    requires Subtree(u, t) && u.id in m && Contains(m[u.id], start, end)
    ensures x in IdSet(u)
  {
    if u == t {
      assert x in IdSetOf(t.children);
    } else {
      var j :| 0 <= j < |t.children| && Subtree(u, t.children[j]);
      SubtreeIds(u, t.children[j]);
      if j != i {
        ChildrenApart(t, m, start, end, i, j);
        NestedIds(t.children[j], m, u.id);
        assert false;
      }
    }
  }

  /** The least span by length, a later start first, and the first listed of equals. */
  predicate Before(a: Span, b: Span) {
    Length(a) < Length(b) || (Length(a) == Length(b) && a.start.byte > b.start.byte)
  }

  method SmallestNodeForSpan(nodes: seq<Span>, start: int, end: int) returns (r: Option<NodeId>)
    ensures r.None? <==> forall k :: 0 <= k < |nodes| ==> !Contains(nodes[k], start, end)
    ensures r.Some? ==> exists k :: 0 <= k < |nodes| && Picked(nodes, start, end, k) && r.value == nodes[k].id
  {
    var best := -1;
    for n := 0 to |nodes|
      invariant -1 <= best < n
      invariant best == -1 ==> forall k :: 0 <= k < n ==> !Contains(nodes[k], start, end)
      invariant best >= 0 ==> Picked(nodes[..n], start, end, best)
    {
      assert nodes[..n + 1][n] == nodes[n];
      if Contains(nodes[n], start, end) && (best == -1 || Before(nodes[n], nodes[best])) {
        best := n;
      }
      assert forall k :: 0 <= k < n ==> nodes[..n + 1][k] == nodes[..n][k] == nodes[k];
    }
    assert nodes[..|nodes|] == nodes;
    return if best == -1 then None else Some(nodes[best].id);
  }

  ghost predicate Picked(nodes: seq<Span>, start: int, end: int, k: nat) {
    && k < |nodes| && Contains(nodes[k], start, end)
    && (forall i :: 0 <= i < |nodes| && Contains(nodes[i], start, end) ==> !Before(nodes[i], nodes[k]))
    && (forall i :: 0 <= i < k && Contains(nodes[i], start, end) ==> Before(nodes[k], nodes[i]))
  }

  ghost predicate Lists(nodes: seq<Span>, m: map<NodeId, Span>) {
    forall s :: s in nodes <==> s in m.Values
  }

  lemma ListedAt(root: Tree, m: map<NodeId, Span>, nodes: seq<Span>, k: nat)
    requires Nested(root, m) && m.Keys == IdSet(root) && Lists(nodes, m) && k < |nodes|
    ensures nodes[k].id in IdSet(root) && m[nodes[k].id] == nodes[k]
    ensures nodes[k].start.byte >= m[root.id].start.byte && nodes[k].end.byte <= m[root.id].end.byte
  {
    assert nodes[k] in m.Values;
    var y :| y in m && m[y] == nodes[k];
    NestedIds(root, m, y);
  }

  lemma PickedIsDeepest(root: Tree, m: map<NodeId, Span>, nodes: seq<Span>, start: int, end: int, k: nat)
    requires Nested(root, m) && m.Keys == IdSet(root) && Lists(nodes, m)
    requires start <= end && Picked(nodes, start, end, k)
    ensures Deepest(root, m, start, end, nodes[k].id)
  {
    ListedAt(root, m, nodes, k);
    var x := DeepestExists(root, m, start, end);
    assert m[x] in m.Values;
    var j :| 0 <= j < |nodes| && nodes[j] == m[x];
    ListedAt(root, m, nodes, j);
    NestedIds(root, m, x);
  }

  /** However the spans of a printed tree are listed, the one picked for a query that does not end before
      it starts is the deepest node containing it; there is none exactly when the query leaves the text
      of the root. */
  lemma SmallestIsDeepest(root: Tree, nodes: seq<Span>, start: int, end: int)
    requires ValidTree(root) && start <= end && Lists(nodes, Spans(root, 0, ""))
    ensures var m := Spans(root, 0, "");
      && (root.id in m && !Contains(m[root.id], start, end) <==> forall k :: 0 <= k < |nodes| ==> !Contains(nodes[k], start, end))
      && forall k: nat :: Picked(nodes, start, end, k) ==> Deepest(root, m, start, end, nodes[k].id)
  {
    var m := Spans(root, 0, "");
    NodeMapCorrect(root);
    hide Spans;
    hide ValidTree;
    hide Nested;
    hide IdSet;
    hide Picked;
    hide Lists;
    hide Deepest;
    hide Shown;
    assert root.id in m by {
      RootListed(root, m, nodes);
    }
    forall k: nat | Picked(nodes, start, end, k) ensures Deepest(root, m, start, end, nodes[k].id) {
      PickedIsDeepest(root, m, nodes, start, end, k);
    }
    assert !Contains(m[root.id], start, end) <==> forall k :: 0 <= k < |nodes| ==> !Contains(nodes[k], start, end) by {
      RootListed(root, m, nodes);
      forall k | 0 <= k < |nodes| ensures Contains(nodes[k], start, end) ==> Contains(m[root.id], start, end) {
        ListedAt(root, m, nodes, k);
      }
    }
  }

  lemma RootListed(root: Tree, m: map<NodeId, Span>, nodes: seq<Span>)
    requires Nested(root, m) && Lists(nodes, m)
    ensures root.id in m && m[root.id] in nodes
  {
    assert m[root.id] in m.Values;
  }

  /** In bytes: the node picked for a query encloses it, and lies in every node that does. */
  lemma PickedEncloses(root: Tree, nodes: seq<Span>, start: int, end: int, k: nat)
    requires ValidTree(root) && start <= end && Lists(nodes, Spans(root, 0, "")) && Picked(nodes, start, end, k)
    ensures var m := Spans(root, 0, "");
      && nodes[k].start.byte <= start && end <= nodes[k].end.byte && nodes[k].id in IdSet(root)
      && forall u :: Subtree(u, root) && u.id in m && m[u.id].start.byte <= start && end <= m[u.id].end.byte ==> nodes[k].id in IdSet(u)
  {
    var m := Spans(root, 0, "");
    NodeMapCorrect(root);
    PickedIsDeepest(root, m, nodes, start, end, k);
  }

  /** A query for a node's own span gives that node. */
  lemma OwnSpanFound(root: Tree, nodes: seq<Span>, x: NodeId)
    requires ValidTree(root) && x in IdSet(root) && Lists(nodes, Spans(root, 0, ""))
    ensures x in Spans(root, 0, "")
    ensures var own := Spans(root, 0, "")[x];
      && (exists k :: 0 <= k < |nodes| && Contains(nodes[k], own.start.byte, own.end.byte))
      && forall k: nat :: Picked(nodes, own.start.byte, own.end.byte, k) ==> nodes[k].id == x
  {
    var m := Spans(root, 0, "");
    NodeMapCorrect(root);
    hide ValidTree;
    hide Shown;
    hide Spans;
    assert m[x] in m.Values;
    assert m[x] in nodes;
    OwnOrdered(root, m, x);
    var start, end := m[x].start.byte, m[x].end.byte;
    assert Contains(m[x], start, end);
    forall k: nat | Picked(nodes, start, end, k) ensures nodes[k].id == x {
      PickedIsDeepest(root, m, nodes, start, end, k);
      OwnSpanDeepest(root, m, x, nodes[k].id);
    }
  }

  lemma {:induction false} OwnOrdered(t: Tree, m: map<NodeId, Span>, x: NodeId)
    requires Nested(t, m) && x in IdSet(t)
    ensures x in m && m[x].start.byte <= m[x].end.byte
    decreases t
  {
    if x != t.id {
      var i :| 0 <= i < |t.children| && x in IdSet(t.children[i]);
      OwnOrdered(t.children[i], m, x);
    }
  }

  // No shorter node encloses a node's span.
  lemma OwnSpanDeepest(t: Tree, m: map<NodeId, Span>, x: NodeId, y: NodeId)
    requires x in IdSet(t) && x in m && Deepest(t, m, m[x].start.byte, m[x].end.byte, y)
    ensures y == x
  {
  }
}
