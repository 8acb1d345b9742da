/** The order of a diff, the fields it names and the size of its pages (src/weave_frontend/revision_diff.py). */
module DiffLaws {
  import opened Prelude
  import opened Trees
  import opened TreeTables
  import opened Diff

  // ----- order

  /** `x` stands before `y`. */
  ghost predicate StandsBefore<T>(order: seq<T>, x: T, y: T) {
    exists a, b :: 0 <= a < b < |order| && order[a] == x && order[b] == y
  }

  lemma {:induction false} PreorderHolds(t: Tree, x: NodeId)
    ensures x in Preorder(t) <==> x in IdSet(t)
    decreases t, 1
  {
    if t.List? {
      PreorderAllHolds(t.children, x);
    }
  }

  lemma {:induction false} PreorderAllHolds(ts: seq<Tree>, x: NodeId)
    ensures x in PreorderAll(ts) <==> x in IdSetOf(ts)
    decreases ts, 0
  {
    if ts != [] {
      var init, last := ts[..|ts| - 1], ts[|ts| - 1];
      assert ts == init + [last] && [last][0] == last;
      PreorderAllHolds(init, x);
      PreorderHolds(last, x);
      IdSetOfConcat(init, [last]);
      PairIds(last, last);
    }
  }

  lemma Across<T>(a: seq<T>, b: seq<T>, x: T, y: T)
    requires x in a && y in b
    ensures StandsBefore(a + b, x, y)
  {
    var i :| 0 <= i < |a| && a[i] == x;
    var j :| 0 <= j < |b| && b[j] == y;
    assert (a + b)[i] == x && (a + b)[|a| + j] == y;
  }

  lemma Within<T>(a: seq<T>, b: seq<T>, c: seq<T>, x: T, y: T)
    requires StandsBefore(b, x, y)
    ensures StandsBefore(a + b + c, x, y)
  {
    var i, j :| 0 <= i < j < |b| && b[i] == x && b[j] == y;
    assert (a + b + c)[|a| + i] == x && (a + b + c)[|a| + j] == y;
  }

  /** A node is listed before everything under it. */
  lemma ParentFirst(t: Tree, x: NodeId)
    requires t.List? && x in IdSetOf(t.children)
    ensures StandsBefore(Preorder(t), t.id, x)
  {
    PreorderAllHolds(t.children, x);
    Across([t.id], PreorderAll(t.children), t.id, x);
  }

  /** Everything under one child is listed before everything under a later one. */
  lemma SiblingsInTurn(t: Tree, i: nat, j: nat, x: NodeId, y: NodeId)
    requires t.List? && i < j < |t.children| && x in IdSet(t.children[i]) && y in IdSet(t.children[j])
    ensures StandsBefore(Preorder(t), x, y)
  {
    var ts := t.children;
    PreorderSplit(ts, j);
    assert x in IdSetOf(ts[..j]) by {
      assert ts[..j][i] == ts[i];
    }
    assert y in IdSetOf(ts[j..]) by {
      assert ts[j..][0] == ts[j];
    }
    PreorderAllHolds(ts[..j], x);
    PreorderAllHolds(ts[j..], y);
    Across(PreorderAll(ts[..j]), PreorderAll(ts[j..]), x, y);
    Within([t.id], PreorderAll(ts), [], x, y);
    assert Preorder(t) == [t.id] + PreorderAll(ts) + [];
  }

  lemma {:induction false} PreorderSplit(ts: seq<Tree>, k: nat)
    requires k <= |ts|
    ensures PreorderAll(ts) == PreorderAll(ts[..k]) + PreorderAll(ts[k..])
    decreases |ts|
  {
    if k == |ts| {
      assert ts[..k] == ts && ts[k..] == [];
    } else {
      var init, last := ts[..|ts| - 1], ts[|ts| - 1];
      PreorderSplit(init, k);
      assert init[..k] == ts[..k] && init[k..] == ts[k..][..|ts[k..]| - 1];
    }
  }

  /** What holds of a node's own listing holds of the whole document's. */
  lemma {:induction false} PartInOrder(u: Tree, t: Tree, x: NodeId, y: NodeId)
    requires Subtree(u, t) && StandsBefore(Preorder(u), x, y)
    ensures StandsBefore(Preorder(t), x, y)
    decreases t
  {
    if u != t {
      var i :| 0 <= i < |t.children| && Subtree(u, t.children[i]);
      PartInOrder(u, t.children[i], x, y);
      ChildInOrder(t, i, x, y);
    }
  }

  lemma ChildInOrder(t: Tree, i: nat, x: NodeId, y: NodeId)
    requires t.List? && i < |t.children| && StandsBefore(Preorder(t.children[i]), x, y)
    ensures StandsBefore(Preorder(t), x, y)
  {
    hide *;
    var ts := t.children;
    var a, b, c := PreorderAll(ts[..i]), Preorder(ts[i]), PreorderAll(ts[i + 1..]);
    PreorderSplit(ts, i);
    PreorderFront(ts[i..]);
    assert ts[i..][1..] == ts[i + 1..];
    Within([t.id] + a, b, c, x, y);
    PreorderList(t);
    assert [t.id] + (a + (b + c)) == [t.id] + a + b + c;
  }

  lemma PreorderList(t: Tree)
    requires t.List?
    ensures Preorder(t) == [t.id] + PreorderAll(t.children)
  {
  }

  lemma PreorderFront(ts: seq<Tree>)
    requires ts != []
    ensures PreorderAll(ts) == Preorder(ts[0]) + PreorderAll(ts[1..])
  {
    PreorderSplit(ts, 1);
    assert ts[..1] == [ts[0]] && [ts[0]][..0] == [];
    assert PreorderAll([]) == [];
  }

  lemma {:induction false} SelectedInOrder(order: seq<NodeId>, keep: set<NodeId>, i: nat, j: nat)
    requires i < j < |Selected(order, keep)|
    ensures StandsBefore(order, Selected(order, keep)[i], Selected(order, keep)[j])
    decreases |order|
  {
    var n := |order| - 1;
    var init, before := order[..n], Selected(order[..n], keep);
    if j < |before| {
      SelectedInOrder(init, keep, i, j);
      Within([], init, [order[n]], before[i], before[j]);
      assert order == [] + init + [order[n]];
    } else {
      SelectedFrom(init, keep, before[i]);
      Across(init, [order[n]], before[i], order[n]);
      assert order == init + [order[n]];
    }
  }

  lemma {:induction false} SelectedFrom(order: seq<NodeId>, keep: set<NodeId>, x: NodeId)
    ensures x in Selected(order, keep) <==> x in order && x in keep
  {
    if order != [] {
      SelectedFrom(order[..|order| - 1], keep, x);
      assert order == order[..|order| - 1] + [order[|order| - 1]];
    }
  }

  /** The changes come in the order of the later version, and the nodes gone from it behind them in the order of the
      earlier one. */
  lemma ChangesInOrder(before: Records, beforeOrder: seq<NodeId>, after: Records, afterOrder: seq<NodeId>, i: nat, j: nat)
    requires Listing(beforeOrder, before.Keys) && Listing(afterOrder, after.Keys)
    requires i < j < |ChangedOrder(before, beforeOrder, after, afterOrder)|
    ensures var r := ChangedOrder(before, beforeOrder, after, afterOrder);
      (r[i] in after && (r[j] in after ==> StandsBefore(afterOrder, r[i], r[j]))) ||
      (r[i] !in after && r[j] !in after && StandsBefore(beforeOrder, r[i], r[j]))
  {
    var changed, gone := Selected(afterOrder, Changed(before, after)), Selected(beforeOrder, before.Keys - after.Keys);
    var r := changed + gone;
    hide Changed;
    if i < |changed| {
      SelectedFrom(afterOrder, Changed(before, after), r[i]);
      if j < |changed| {
        SelectedInOrder(afterOrder, Changed(before, after), i, j);
      } else {
        SelectedFrom(beforeOrder, before.Keys - after.Keys, r[j]);
      }
    } else {
      SelectedFrom(beforeOrder, before.Keys - after.Keys, r[i]);
      SelectedFrom(beforeOrder, before.Keys - after.Keys, r[j]);
      SelectedInOrder(beforeOrder, before.Keys - after.Keys, i - |changed|, j - |changed|);
    }
  }

  // ----- fields

  /** The head of a record is the symbol that a list begins with. */
  lemma HeadExactly(t: Tree, name: string)
    ensures HeadSymbol(t) == Some(name) <==> t.List? && t.children != [] && exists id :: t.children[0] == Leaf(id, Symbol(name))
  {
    if HeadSymbol(t) == Some(name) {
      assert t.children[0] == Leaf(t.children[0].id, Symbol(name));
    }
  }

  function Turn(k: ChangeKind): nat {
    match k
    case Added => 0
    case Removed => 1
    case KindChanged => 2
    case HeadChanged => 3
    case ValueChanged => 4
    case ParentChanged => 5
    case PositionChanged => 6
    case ChildCountChanged => 7
  }

  predicate Rising(kinds: seq<ChangeKind>, low: nat, high: nat) {
    && (forall i :: 0 <= i < |kinds| ==> low <= Turn(kinds[i]) < high)
    && (forall i, j :: 0 <= i < j < |kinds| ==> Turn(kinds[i]) < Turn(kinds[j]))
  }

  function Listed(kinds: seq<ChangeKind>): set<ChangeKind> {
    set k | k in kinds
  }

  function If(c: bool, k: ChangeKind): set<ChangeKind> {
    if c then {k} else {}
  }

  lemma OneMoreKind(kinds: seq<ChangeKind>, c: bool, kind: ChangeKind)
    requires Rising(kinds, 2, Turn(kind)) && 2 <= Turn(kind)
    ensures Rising(kinds + When(c, kind), 2, Turn(kind) + 1) && Listed(kinds + When(c, kind)) == Listed(kinds) + If(c, kind)
  {
  }

  lemma KindsListed(c1: bool, c2: bool, c3: bool, c4: bool, c5: bool, c6: bool)
    ensures var kinds := When(c1, KindChanged) + When(c2, HeadChanged) + When(c3, ValueChanged) + When(c4, ParentChanged) +
                         When(c5, PositionChanged) + When(c6, ChildCountChanged);
      && Rising(kinds, 2, 8)
      && Listed(kinds) == If(c1, KindChanged) + If(c2, HeadChanged) + If(c3, ValueChanged) + If(c4, ParentChanged) +
                          If(c5, PositionChanged) + If(c6, ChildCountChanged)
  {
    hide When;
    hide Rising;
    hide Listed;
    hide If;
    NoKinds();
    OneMoreKind([], c1, KindChanged);
    assert [] + When(c1, KindChanged) == When(c1, KindChanged) && {} + If(c1, KindChanged) == If(c1, KindChanged);
    var k1 := When(c1, KindChanged);
    OneMoreKind(k1, c2, HeadChanged);
    var k2 := k1 + When(c2, HeadChanged);
    OneMoreKind(k2, c3, ValueChanged);
    var k3 := k2 + When(c3, ValueChanged);
    OneMoreKind(k3, c4, ParentChanged);
    var k4 := k3 + When(c4, ParentChanged);
    OneMoreKind(k4, c5, PositionChanged);
    var k5 := k4 + When(c5, PositionChanged);
    OneMoreKind(k5, c6, ChildCountChanged);
  }

  /** A change names exactly the fields that differ, once each and always in the same order. */
  lemma FieldsExactly(b: Record, a: Record)
    ensures var kinds := FieldChanges(b, a);
      && (KindChanged in kinds <==> b.kind != a.kind) && (HeadChanged in kinds <==> b.head != a.head)
      && (ValueChanged in kinds <==> b.value != a.value) && (ParentChanged in kinds <==> b.parent != a.parent)
      && (PositionChanged in kinds <==> b.position != a.position) && (ChildCountChanged in kinds <==> b.childCount != a.childCount)
      && Rising(kinds, Turn(KindChanged), Turn(ChildCountChanged) + 1)
  {
    hide When;
    hide Rising;
    KindsListed(b.kind != a.kind, b.head != a.head, b.value != a.value, b.parent != a.parent, b.position != a.position,
                b.childCount != a.childCount);
    var kinds := FieldChanges(b, a);
    assert forall k :: k in kinds <==> k in Listed(kinds);
  }

  lemma NoKinds()
    ensures Rising([], 2, 2) && Listed([]) == {}
  {
  }

  // ----- pages

  /** A page holds as many changes as were asked for, or those that are left, and names the next one exactly when
      there is one. */
  lemma PageExactly(changes: seq<Change>, start: nat, limit: nat)
    requires limit >= 1
    ensures var page := PageOf(changes, start, limit);
      && page.total == |changes|
      && (start + limit < |changes| ==> page.changes == changes[start..start + limit] && page.next == Some(start + limit))
      && (start <= |changes| <= start + limit ==> page.changes == changes[start..] && page.next == None)
      && (|changes| < start ==> page.changes == [] && page.next == None)
  {
  }
}
