/** Node diffs between two versions of a document (src/weave_frontend/revision_diff.py). */
module Diff {
  import opened Prelude
  import opened Trees
  import opened Validity
  import opened TreeTables
  import opened TreeWalk

  // ----- flat records

  datatype Payload = NoPayload | Chars(s: string) | Number(n: int) | Lexeme(lexeme: string) | Truth(b: bool)

  function PayloadOf(t: Tree): Payload {
    if t.List? then NoPayload
    else match t.atom
      case Symbol(s) => Chars(s)
      case Text(s) => Chars(s)
      case Integer(n) => Number(n)
      case Float(lexeme) => Lexeme(lexeme)
      case Boolean(b) => Truth(b)
  }

  function HeadSymbol(t: Tree): Option<string> {
    if t.List? && t.children != [] && t.children[0].Leaf? && t.children[0].atom.Symbol? then Some(t.children[0].atom.name) else None
  }

  datatype Record = Record(
    kind: Kind,
    head: Option<string>,
    value: Payload,
    parent: Option<NodeId>,
    position: Option<nat>,
    childCount: nat)

  type Records = map<NodeId, Record>

  function RecordOf(t: Tree, parent: Option<NodeId>, position: Option<nat>): Record {
    Record(KindOf(t), HeadSymbol(t), PayloadOf(t), parent, position, if t.List? then |t.children| else 0)
  }

  // `m` holds the record of every node of `t`, and no other.
  ghost predicate Flattened(t: Tree, m: Records) {
    && m.Keys == IdSet(t)
    && m[t.id] == RecordOf(t, None, None)
    && ChildRecords(t, m)
  }

  ghost predicate ChildRecords(t: Tree, m: Records) {
    forall p: Tree, i: nat :: Subtree(p, t) && p.List? && i < |p.children| ==>
      p.children[i].id in m && m[p.children[i].id] == RecordOf(p.children[i], Some(p.id), Some(i))
  }

  function Preorder(t: Tree): seq<NodeId>
    decreases t, 1
  {
    [t.id] + if t.List? then PreorderAll(t.children) else []
  }

  function PreorderAll(ts: seq<Tree>): seq<NodeId>
    decreases ts, 0
  {
    if ts == [] then [] else PreorderAll(ts[..|ts| - 1]) + Preorder(ts[|ts| - 1])
  }

  ghost predicate Listing(order: seq<NodeId>, ids: set<NodeId>) {
    && (forall x :: x in order <==> x in ids)
    && (forall i, j :: 0 <= i < j < |order| ==> order[i] != order[j])
  }

  lemma {:induction false} PreorderLists(t: Tree)
    requires Unique(t)
    ensures Listing(Preorder(t), IdSet(t))
    decreases t, 1
  {
    if t.List? {
      PreorderAllLists(t.children);
      ListingConcat([t.id], {t.id}, PreorderAll(t.children), IdSetOf(t.children));
    }
  }

  lemma {:induction false} PreorderAllLists(ts: seq<Tree>)
    requires UniqueAll(ts)
    ensures Listing(PreorderAll(ts), IdSetOf(ts))
    decreases ts, 0
  {
    if ts != [] {
      var init, last := ts[..|ts| - 1], ts[|ts| - 1];
      assert ts == init + [last] && [last][0] == last;
      PreorderAllLists(init);
      PreorderLists(last);
      IdSetOfConcat(init, [last]);
      PairIds(last, last);
      assert IdSetOf(init) !! IdSet(last);
      ListingConcat(PreorderAll(init), IdSetOf(init), Preorder(last), IdSet(last));
    } else {
      assert IdSetOf(ts) == {};
    }
  }

  lemma ListingConcat(a: seq<NodeId>, x: set<NodeId>, b: seq<NodeId>, y: set<NodeId>)
    requires Listing(a, x) && Listing(b, y) && x !! y
    ensures Listing(a + b, x + y)
  {
    var c := a + b;
    forall i, j | 0 <= i < j < |c| ensures c[i] != c[j] {
      if i < |a| <= j {
        assert c[i] in a && c[j] in b;
      }
    }
  }

  // ----- flattening

  // The records of a subtree that stands at the given place.
  ghost predicate Placed(t: Tree, parent: Option<NodeId>, position: Option<nat>, m: Records) {
    t.id in m && m[t.id] == RecordOf(t, parent, position) && ChildRecords(t, m)
  }

  class Flattener {
    var nodes: Records
    var order: seq<NodeId>

    constructor ()
      ensures nodes == map[] && order == []
    {
      nodes, order := map[], [];
    }

    /** Records a node and everything under it. */
    method Visit(node: Tree, parent: Option<NodeId>, position: Option<nat>)
      requires Unique(node) && nodes.Keys !! IdSet(node)
      modifies this
      ensures Extends(old(nodes), nodes, IdSet(node)) && Placed(node, parent, position, nodes)
      ensures order == old(order) + Preorder(node)
      decreases node
    {
      hide *;
      ghost var nodes0, order0 := nodes, order;
      VisitStart(node, nodes0, order0, RecordOf(node, parent, position));
      nodes := nodes[node.id := RecordOf(node, parent, position)];
      order := order + [node.id];
      if node.List? {
        var kids := node.children;
        for index := 0 to |kids|
          invariant Extends(nodes0, nodes, {node.id} + IdSetOf(kids[..index]))
          invariant node.id in nodes && nodes[node.id] == RecordOf(node, parent, position)
          invariant order == order0 + [node.id] + PreorderAll(kids[..index])
          invariant VisitedKids(node, index, nodes)
        {
          ghost var before := nodes;
          VisitNext(node, index, nodes0, before);
          Visit(kids[index], Some(node.id), Some(index));
          VisitStep(node, index, nodes0, before, nodes);
        }
      }
      VisitEnd(node, parent, position, nodes0, nodes, order0);
    }
  }

  // `after` adds records for the ids and changes none of those before.
  ghost predicate Extends(before: Records, after: Records, ids: set<NodeId>) {
    after.Keys == before.Keys + ids && forall x :: x in before ==> after[x] == before[x]
  }

  ghost predicate VisitedKids(node: Tree, n: nat, m: Records) {
    node.List? && n <= |node.children| && forall i: nat :: i < n ==> Placed(node.children[i], Some(node.id), Some(i), m)
  }

  lemma VisitStart(node: Tree, nodes: Records, order: seq<NodeId>, own: Record)
    requires nodes.Keys !! IdSet(node)
    ensures node.List? ==> VisitedKids(node, 0, nodes[node.id := own])
    ensures node.List? ==> Extends(nodes, nodes[node.id := own], {node.id} + IdSetOf(node.children[..0]))
    ensures node.Leaf? ==> Extends(nodes, nodes[node.id := own], {node.id})
    ensures node.List? ==> order + [node.id] == order + [node.id] + PreorderAll(node.children[..0])
  {
    if node.List? {
      assert IdSetOf(node.children[..0]) == {};
    }
  }

  lemma VisitNext(node: Tree, i: nat, nodes0: Records, nodes: Records)
    requires Unique(node) && node.List? && i < |node.children| && nodes0.Keys !! IdSet(node)
    requires Extends(nodes0, nodes, {node.id} + IdSetOf(node.children[..i]))
    ensures Unique(node.children[i]) && nodes.Keys !! IdSet(node.children[i])
    ensures forall order: seq<NodeId> :: (order + PreorderAll(node.children[..i]) + Preorder(node.children[i]) == order + PreorderAll(node.children[..i + 1]))
  {
    var kids := node.children;
    assert UniqueAll(kids);
    ChildRow(node, i, kids[i].id);
    assert IdSet(kids[i]) <= IdSetOf(kids);
    assert kids[..i + 1][..i] == kids[..i];
    forall order: seq<NodeId> ensures order + PreorderAll(kids[..i]) + Preorder(kids[i]) == order + PreorderAll(kids[..i + 1]) {
      var a, b := PreorderAll(kids[..i]), Preorder(kids[i]);
      assert PreorderAll(kids[..i + 1]) == a + b;
      assert order + a + b == order + (a + b);
    }
  }

  // Records already made stay as they are.
  lemma VisitStep(node: Tree, i: nat, nodes0: Records, before: Records, after: Records)
    requires VisitedKids(node, i, before) && i < |node.children| && node.id in before
    requires Extends(nodes0, before, {node.id} + IdSetOf(node.children[..i]))
    requires Extends(before, after, IdSet(node.children[i])) && Placed(node.children[i], Some(node.id), Some(i), after)
    ensures VisitedKids(node, i + 1, after) && node.id in after && after[node.id] == before[node.id]
    ensures Extends(nodes0, after, {node.id} + IdSetOf(node.children[..i + 1]))
  {
    hide IdSet;
    hide IdSetOf;
    hide Placed;
    IdSetOfNext(node.children, i);
    forall k: nat | k < i ensures Placed(node.children[k], Some(node.id), Some(k), after) {
      PlacedGrows(node.children[k], Some(node.id), Some(k), before, after, IdSet(node.children[i]));
    }
  }

  lemma IdSetOfNext(kids: seq<Tree>, i: nat)
    requires i < |kids|
    ensures IdSetOf(kids[..i + 1]) == IdSetOf(kids[..i]) + IdSet(kids[i])
  {
    hide IdSet;
    assert kids[..i + 1] == kids[..i] + [kids[i]];
    IdSetOfConcat(kids[..i], [kids[i]]);
    PairIds(kids[i], kids[i]);
  }

  lemma PlacedGrows(t: Tree, parent: Option<NodeId>, position: Option<nat>, before: Records, after: Records, ids: set<NodeId>)
    requires Placed(t, parent, position, before) && Extends(before, after, ids)
    ensures Placed(t, parent, position, after)
  {
  }

  lemma VisitEnd(node: Tree, parent: Option<NodeId>, position: Option<nat>, nodes0: Records, m: Records, order0: seq<NodeId>)
    requires node.id in m && m[node.id] == RecordOf(node, parent, position)
    requires node.List? ==> VisitedKids(node, |node.children|, m) && Extends(nodes0, m, {node.id} + IdSetOf(node.children[..|node.children|]))
    requires node.Leaf? ==> Extends(nodes0, m, {node.id})
    ensures Placed(node, parent, position, m) && Extends(nodes0, m, IdSet(node))
    ensures node.List? ==> order0 + [node.id] + PreorderAll(node.children[..|node.children|]) == order0 + Preorder(node)
    ensures node.Leaf? ==> order0 + [node.id] == order0 + Preorder(node)
  {
    hide Placed;
    hide ChildRecords;
    hide VisitedKids;
    if node.List? {
      assert node.children[..|node.children|] == node.children;
      PreorderEnd(node, order0);
    }
    VisitedAll(node, m);
    OwnPlaced(node, parent, position, m);
  }

  lemma PreorderEnd(node: Tree, order0: seq<NodeId>)
    requires node.List?
    ensures order0 + [node.id] + PreorderAll(node.children) == order0 + Preorder(node)
  {
    var rest := PreorderAll(node.children);
    assert order0 + [node.id] + rest == order0 + ([node.id] + rest);
  }

  lemma OwnPlaced(node: Tree, parent: Option<NodeId>, position: Option<nat>, m: Records)
    requires node.id in m && m[node.id] == RecordOf(node, parent, position) && ChildRecords(node, m)
    ensures Placed(node, parent, position, m)
  {
  }

  lemma VisitedAll(node: Tree, m: Records)
    requires node.List? ==> VisitedKids(node, |node.children|, m)
    ensures ChildRecords(node, m)
  {
    forall p: Tree, i: nat | Subtree(p, node) && p.List? && i < |p.children|
      ensures p.children[i].id in m && m[p.children[i].id] == RecordOf(p.children[i], Some(p.id), Some(i))
    {
      if p != node {
        var k :| 0 <= k < |node.children| && Subtree(p, node.children[k]);
        assert Placed(node.children[k], Some(node.id), Some(k), m);
      } else {
        assert Placed(node.children[i], Some(node.id), Some(i), m);
      }
    }
  }

  /** The records of a document, none when it is absent, and their order. */
  method Flatten(root: Option<Tree>) returns (nodes: Records, order: seq<NodeId>)
    requires root.Some? ==> Unique(root.value)
    ensures FlatOf(root, nodes, order)
  {
    var flattener := new Flattener();
    if root.Some? {
      flattener.Visit(root.value, None, None);
      PreorderLists(root.value);
      assert [] + Preorder(root.value) == Preorder(root.value);
    }
    return flattener.nodes, flattener.order;
  }

  ghost predicate FlatOf(root: Option<Tree>, nodes: Records, order: seq<NodeId>) {
    if root.None? then nodes == map[] && order == []
    else Flattened(root.value, nodes) && order == Preorder(root.value) && Listing(order, nodes.Keys)
  }

  // ----- the records determine the tree

  // Every node's record shows the node itself; only the root's has no parent.
  lemma NodeRecord(t: Tree, u: Tree, m: Records)
    requires Unique(t) && Flattened(t, m) && Subtree(u, t)
    ensures u.id in m && m[u.id] == RecordOf(u, m[u.id].parent, m[u.id].position)
    ensures m[u.id].parent == None <==> u == t
  {
    SubtreeIds(u, t);
    if u.id == t.id {
      RootNode(u, t);
    } else {
      var p, k := ParentAt(t, u.id);
      assert m[p.children[k].id] == RecordOf(p.children[k], Some(p.id), Some(k));
      assert Subtree(p.children[k], p);
      SubtreeTrans(p.children[k], p, t);
      OneNode(u, p.children[k], t);
    }
  }

  lemma ParentAt(t: Tree, x: NodeId) returns (p: Tree, k: nat)
    requires x in IdSet(t) && x != t.id
    ensures Subtree(p, t) && p.List? && k < |p.children| && p.children[k].id == x
  {
    p := HasParent(t, x);
    k :| 0 <= k < |p.children| && p.children[k].id == x;
  }

  // Equal records put a list's children at the same places.
  lemma SameKid(a: Tree, b: Tree, m: Records, u: Tree, v: Tree, i: nat)
    requires Unique(a) && Unique(b) && Flattened(a, m) && Flattened(b, m)
    requires Subtree(u, a) && Subtree(v, b) && u.id == v.id && u.List? && i < |u.children|
    ensures v.List? && i < |v.children| && v.children[i].id == u.children[i].id
  {
    var x := u.children[i].id;
    assert m[x] == RecordOf(u.children[i], Some(u.id), Some(i));
    assert x != b.id;
    var p, k := ParentAt(b, x);
    assert m[p.children[k].id] == RecordOf(p.children[k], Some(p.id), Some(k));
    OneNode(p, v, b);
  }

  lemma SameRow(a: Tree, b: Tree, m: Records, x: NodeId)
    requires Unique(a) && Unique(b) && Flattened(a, m) && Flattened(b, m) && x in IdSet(a)
    ensures x in IdSet(b) && RowOf(a, x) == RowOf(b, x)
  {
    hide Unique;
    hide IdSet;
    hide Subtree;
    hide ChildRecords;
    hide OwnRow;
    hide RowOf;
    hide HeadSymbol;
    var u := HasNode(a, x);
    var v := HasNode(b, x);
    NodeRecord(a, u, m);
    NodeRecord(b, v, m);
    FoundRow(a, u);
    FoundRow(b, v);
    RowsAt(a, x);
    RowsAt(b, x);
    SameOwnRow(a, b, m, u, v);
  }

  lemma SameOwnRow(a: Tree, b: Tree, m: Records, u: Tree, v: Tree)
    requires Unique(a) && Unique(b) && Flattened(a, m) && Flattened(b, m)
    requires Subtree(u, a) && Subtree(v, b) && u.id == v.id
    requires KindOf(u) == KindOf(v) && PayloadOf(u) == PayloadOf(v) && (u.List? && v.List? ==> |u.children| == |v.children|)
    ensures OwnRow(u) == OwnRow(v)
  {
    hide Unique;
    hide Flattened;
    hide Subtree;
    hide IdSet;
    hide Rows;
    if u.List? {
      forall i | 0 <= i < |u.children| ensures i < |v.children| && v.children[i].id == u.children[i].id {
        SameKid(a, b, m, u, v, i);
      }
      assert Ids(u.children) == Ids(v.children);
    }
  }

  /** The parent and position of every node, with its kind, value and child count, give the tree back. */
  lemma RecordsDetermine(a: Tree, b: Tree, m: Records)
    requires Unique(a) && Unique(b) && Flattened(a, m) && Flattened(b, m)
    ensures a == b
  {
    NodeRecord(a, a, m);
    NodeRecord(b, b, m);
    var u := HasNode(a, b.id);
    NodeRecord(a, u, m);
    forall x | x in IdSet(a) ensures Rows(a)[x] == Rows(b)[x] {
      SameRow(a, b, m, x);
    }
    RowsKeys(a);
    RowsKeys(b);
    TableDetermines(a, b);
  }

  // ----- the changes

  datatype ChangeKind =
    | Added | Removed | KindChanged | HeadChanged | ValueChanged | ParentChanged | PositionChanged | ChildCountChanged

  datatype Change = Change(id: NodeId, kinds: seq<ChangeKind>, before: Option<Record>, after: Option<Record>)

  function When(c: bool, kind: ChangeKind): seq<ChangeKind> {
    if c then [kind] else []
  }

  function FieldChanges(b: Record, a: Record): seq<ChangeKind> {
    When(b.kind != a.kind, KindChanged) + When(b.head != a.head, HeadChanged) + When(b.value != a.value, ValueChanged) +
    When(b.parent != a.parent, ParentChanged) + When(b.position != a.position, PositionChanged) +
    When(b.childCount != a.childCount, ChildCountChanged)
  }

  lemma FieldChangesExactly(b: Record, a: Record)
    ensures FieldChanges(b, a) == [] <==> b == a
  {
  }

  function At(m: Records, x: NodeId): Option<Record> {
    if x in m then Some(m[x]) else None
  }

  /** The ids whose record differs, counting an absent one as different from any. */
  function Changed(before: Records, after: Records): set<NodeId> {
    set x | x in before.Keys + after.Keys && At(before, x) != At(after, x)
  }

  function ChangeOf(x: NodeId, before: Records, after: Records): Change {
    var b, a := At(before, x), At(after, x);
    var kinds := if b.None? then [Added] else if a.None? then [Removed] else FieldChanges(b.value, a.value);
    Change(x, kinds, b, a)
  }

  function Selected(order: seq<NodeId>, keep: set<NodeId>): seq<NodeId> {
    if order == [] then []
    else Selected(order[..|order| - 1], keep) + if order[|order| - 1] in keep then [order[|order| - 1]] else []
  }

  lemma {:induction false} SelectedLists(order: seq<NodeId>, ids: set<NodeId>, keep: set<NodeId>)
    requires Listing(order, ids)
    ensures Listing(Selected(order, keep), ids * keep)
    decreases |order|
  {
    if order != [] {
      var init, last := order[..|order| - 1], order[|order| - 1];
      assert order == init + [last];
      assert Listing(init, ids - {last}) by {
        forall x | x in ids - {last} ensures x in init {
          assert x in order;
        }
        assert forall i :: 0 <= i < |init| ==> init[i] == order[i] && order[i] in order;
      }
      SelectedLists(init, ids - {last}, keep);
      assert last in ids;
      if last in keep {
        ListingConcat(Selected(init, keep), (ids - {last}) * keep, [last], {last});
        assert (ids - {last}) * keep + {last} == ids * keep;
      } else {
        assert (ids - {last}) * keep == ids * keep;
      }
    } else {
      assert ids == {};
    }
  }

  lemma SelectedStep(order: seq<NodeId>, k: nat, keep: set<NodeId>)
    requires k < |order|
    ensures Selected(order[..k + 1], keep) == Selected(order[..k], keep) + if order[k] in keep then [order[k]] else []
  {
    assert order[..k + 1][..k] == order[..k];
  }

  function ChangesOf(ids: seq<NodeId>, before: Records, after: Records): (r: seq<Change>)
    ensures |r| == |ids| && forall i :: 0 <= i < |ids| ==> r[i] == ChangeOf(ids[i], before, after)
  {
    seq(|ids|, i requires 0 <= i < |ids| => ChangeOf(ids[i], before, after))
  }

  /** The ids of the changes, in order: those of the later version in its order, then those gone from the
      earlier one in its own. */
  function ChangedOrder(before: Records, beforeOrder: seq<NodeId>, after: Records, afterOrder: seq<NodeId>): seq<NodeId> {
    Selected(afterOrder, Changed(before, after)) + Selected(beforeOrder, before.Keys - after.Keys)
  }

  /** A change for every node whose record differs, once each, and none for the others. */
  lemma ChangedOrderLists(before: Records, beforeOrder: seq<NodeId>, after: Records, afterOrder: seq<NodeId>)
    requires Listing(beforeOrder, before.Keys) && Listing(afterOrder, after.Keys)
    ensures Listing(ChangedOrder(before, beforeOrder, after, afterOrder), Changed(before, after))
  {
    var changed, gone := Changed(before, after), before.Keys - after.Keys;
    SelectedLists(afterOrder, after.Keys, changed);
    SelectedLists(beforeOrder, before.Keys, gone);
    ListingConcat(Selected(afterOrder, changed), after.Keys * changed, Selected(beforeOrder, gone), before.Keys * gone);
    assert after.Keys * changed + before.Keys * gone == changed;
  }

  method Changes(before: Records, beforeOrder: seq<NodeId>, after: Records, afterOrder: seq<NodeId>) returns (changes: seq<Change>)
    requires Listing(beforeOrder, before.Keys) && Listing(afterOrder, after.Keys)
    ensures changes == ChangesOf(ChangedOrder(before, beforeOrder, after, afterOrder), before, after)
  {
    hide *;
    changes := [];
    ghost var ids: seq<NodeId> := [];
    ghost var changed, gone := Changed(before, after), before.Keys - after.Keys;
    SelectedNone(afterOrder, changed, before, after);
    for k := 0 to |afterOrder|
      invariant ids == Selected(afterOrder[..k], changed) && changes == ChangesOf(ids, before, after)
    {
      var id := afterOrder[k];
      SelectedStep(afterOrder, k, changed);
      LaterChange(afterOrder, k, before, after);
      ChangesSnoc(ids, id, before, after);
      if id !in before {
        ids := ids + [id];
        changes := changes + [Change(id, [Added], None, Some(after[id]))];
      } else {
        var kinds := FieldChanges(before[id], after[id]);
        if kinds != [] {
          ids := ids + [id];
          changes := changes + [Change(id, kinds, Some(before[id]), Some(after[id]))];
        }
      }
    }
    assert afterOrder[..|afterOrder|] == afterOrder;
    ghost var first := ids;
    SelectedNone(beforeOrder, gone, before, after);
    for k := 0 to |beforeOrder|
      invariant ids == first + Selected(beforeOrder[..k], gone) && changes == ChangesOf(ids, before, after)
    {
      var id := beforeOrder[k];
      SelectedStep(beforeOrder, k, gone);
      GoneChange(beforeOrder, k, before, after);
      ChangesSnoc(ids, id, before, after);
      if id !in after {
        ids := ids + [id];
        changes := changes + [Change(id, [Removed], Some(before[id]), None)];
      }
    }
    assert beforeOrder[..|beforeOrder|] == beforeOrder;
    ChangedOrderIs(before, beforeOrder, after, afterOrder);
  }

  lemma SelectedNone(order: seq<NodeId>, keep: set<NodeId>, before: Records, after: Records)
    ensures Selected(order[..0], keep) == [] && ChangesOf([], before, after) == []
  {
  }

  lemma ChangesSnoc(ids: seq<NodeId>, x: NodeId, before: Records, after: Records)
    ensures ChangesOf(ids + [x], before, after) == ChangesOf(ids, before, after) + [ChangeOf(x, before, after)]
  {
  }

  lemma LaterChange(order: seq<NodeId>, k: nat, before: Records, after: Records)
    requires Listing(order, after.Keys) && k < |order|
    ensures var x := order[k];
      && x in after && (x !in before ==> x in Changed(before, after) && ChangeOf(x, before, after) == Change(x, [Added], None, Some(after[x])))
      && (x in before ==> (x in Changed(before, after) <==> FieldChanges(before[x], after[x]) != []))
      && (x in before ==> ChangeOf(x, before, after) == Change(x, FieldChanges(before[x], after[x]), Some(before[x]), Some(after[x])))
  {
    var x := order[k];
    assert x in order;
    if x in before {
      FieldChangesExactly(before[x], after[x]);
    }
  }

  lemma GoneChange(order: seq<NodeId>, k: nat, before: Records, after: Records)
    requires Listing(order, before.Keys) && k < |order|
    ensures var x := order[k];
      x in before && (x !in after ==> ChangeOf(x, before, after) == Change(x, [Removed], Some(before[x]), None))
  {
    assert order[k] in order;
  }

  lemma ChangedOrderIs(before: Records, beforeOrder: seq<NodeId>, after: Records, afterOrder: seq<NodeId>)
    ensures ChangedOrder(before, beforeOrder, after, afterOrder) ==
      Selected(afterOrder, Changed(before, after)) + Selected(beforeOrder, before.Keys - after.Keys)
  {
  }

  /** No node's record differs exactly when the two versions are the same. */
  lemma EmptyDiff(base: Option<Tree>, before: Records, beforeOrder: seq<NodeId>, target: Option<Tree>, after: Records, afterOrder: seq<NodeId>)
    requires (base.Some? ==> Unique(base.value)) && (target.Some? ==> Unique(target.value))
    requires FlatOf(base, before, beforeOrder) && FlatOf(target, after, afterOrder)
    ensures Changed(before, after) == {} <==> base == target
  {
    if Changed(before, after) == {} {
      forall x | x in before.Keys + after.Keys ensures At(before, x) == At(after, x) {
        assert x !in Changed(before, after);
      }
      assert before.Keys == after.Keys;
      assert before == after;
      if base.Some? && target.Some? {
        RecordsDetermine(base.value, target.value, before);
      }
    } else if base == target {
      SameRecords(base, before, after);
    }
  }

  lemma SameRecords(root: Option<Tree>, m: Records, n: Records)
    requires root.Some? ==> Unique(root.value) && Flattened(root.value, m) && Flattened(root.value, n)
    requires root.None? ==> m == map[] == n
    ensures Changed(m, n) == {}
  {
    if root.Some? {
      forall x | x in m.Keys + n.Keys ensures At(m, x) == At(n, x) {
        if x != root.value.id {
          var p, k := ParentAt(root.value, x);
          assert m[p.children[k].id] == RecordOf(p.children[k], Some(p.id), Some(k));
          assert n[p.children[k].id] == RecordOf(p.children[k], Some(p.id), Some(k));
        }
      }
    }
  }

  // ----- pages

  const MAX_PAGE_SIZE := 200

  datatype Page = Page(changes: seq<Change>, total: nat, next: Option<nat>)
  datatype DiffError = InvalidIndex | InvalidLimit | DocumentAbsent

  function Slice<T>(s: seq<T>, start: nat, end: nat): seq<T>
    requires start <= end
  {
    if start >= |s| then [] else if end >= |s| then s[start..] else s[start..end]
  }

  function PageOf(changes: seq<Change>, start: nat, limit: nat): Page {
    var items := Slice(changes, start, start + limit);
    var next := start + |items|;
    Page(items, |changes|, if next < |changes| then Some(next) else None)
  }

  /** Everything read by following the pages from `start`. */
  function Followed(changes: seq<Change>, start: nat, limit: nat): seq<Change>
    requires limit >= 1
    decreases |changes| - start
  {
    var page := PageOf(changes, start, limit);
    page.changes + if page.next.Some? then Followed(changes, page.next.value, limit) else []
  }

  /** Pages of any size follow on from each other and miss nothing. */
  lemma {:induction false} PagesConcatenate(changes: seq<Change>, start: nat, limit: nat)
    requires limit >= 1 && start <= |changes|
    ensures Followed(changes, start, limit) == changes[start..]
    decreases |changes| - start
  {
    var page := PageOf(changes, start, limit);
    if page.next.Some? {
      PagesConcatenate(changes, page.next.value, limit);
    }
  }

  /** One page of the diff between two versions of a document. */
  method DiffPage(base: Option<Tree>, target: Option<Tree>, start: int, limit: int) returns (r: Result<Page, DiffError>)
    requires (base.Some? ==> Unique(base.value)) && (target.Some? ==> Unique(target.value))
    ensures start < 0 ==> r == Err(InvalidIndex)
    ensures start >= 0 && !(1 <= limit <= MAX_PAGE_SIZE) ==> r == Err(InvalidLimit)
    ensures start >= 0 && 1 <= limit <= MAX_PAGE_SIZE ==> (r.Err? <==> base.None? && target.None?)
    ensures r.Ok? ==> exists before, beforeOrder, after, afterOrder ::
      && FlatOf(base, before, beforeOrder) && FlatOf(target, after, afterOrder)
      && r.value == PageOf(ChangesOf(ChangedOrder(before, beforeOrder, after, afterOrder), before, after), start, limit)
    ensures r.Ok? ==> (r.value.total == 0 <==> base == target)
  {
    if start < 0 {
      return Err(InvalidIndex);
    }
    if !(1 <= limit <= MAX_PAGE_SIZE) {
      return Err(InvalidLimit);
    }
    if base.None? && target.None? {
      return Err(DocumentAbsent);
    }
    var before, beforeOrder := Flatten(base);
    var after, afterOrder := Flatten(target);
    var changes := Changes(before, beforeOrder, after, afterOrder);
    ChangedOrderLists(before, beforeOrder, after, afterOrder);
    EmptyDiff(base, before, beforeOrder, target, after, afterOrder);
    ghost var order := ChangedOrder(before, beforeOrder, after, afterOrder);
    assert order != [] ==> order[0] in Changed(before, after);
    return Ok(PageOf(changes, start, limit));
  }
}
