/** Which conflicts a merge reports: exactly the places where both sides changed one thing in two ways. */
module MergeConflicts {
  import opened Prelude
  import opened Trees
  import opened Merge
  import opened MergePaths

  /** The node that child ids lead to. */
  ghost function Down(t: Option<Tree>, q: seq<NodeId>): Option<Tree>
    decreases |q|
  {
    if q == [] then t
    else if t.None? || t.value.Leaf? then None
    else Down(Find(t.value.children, q[0]), q[1..])
  }

  /** Two children that both lists have stand in one order here and in the other there. */
  ghost predicate Misordered(bs: seq<Tree>, cs: seq<Tree>) {
    exists i, j, x, y ::
      0 <= i < j < |cs| && 0 <= y < x < |bs| && cs[i].id == bs[x].id && cs[j].id == bs[y].id
  }

  /** Both sides changed the node, and not alike. */
  predicate BothChanged(b: Option<Tree>, o: Option<Tree>, t: Option<Tree>) {
    o != b && t != b && o != t
  }

  predicate SameNode(b: Option<Tree>, o: Option<Tree>, t: Option<Tree>) {
    b.Some? && o.Some? && t.Some? && o.value.id == b.value.id == t.value.id
  }

  predicate SameList(b: Option<Tree>, o: Option<Tree>, t: Option<Tree>) {
    SameNode(b, o, t) && b.value.List? && o.value.List? && t.value.List?
  }

  /** What is reported of one node that both sides changed: that it is missing, new or another node on a
      side, that its kind changed, that an atom has two new values, or that base children changed places. */
  ghost predicate Reported(b: Option<Tree>, o: Option<Tree>, t: Option<Tree>, path: string, s: string) {
    && BothChanged(b, o, t)
    && if !SameNode(b, o, t) then s == path
       else if !(KindOf(b.value) == KindOf(o.value) == KindOf(t.value)) then s == path + ":" + b.value.id + ":kind"
       else if b.value.Leaf? then s == path + ":" + b.value.id + ":value"
       else
         && (Misordered(b.value.children, o.value.children) || Misordered(b.value.children, t.value.children))
         && s == path + ":" + b.value.id + ":reorder"
  }

  /** The same at the node that ids of base children lead to, through lists that all three have. */
  ghost predicate ReportedAt(b: Option<Tree>, o: Option<Tree>, t: Option<Tree>, path: string, q: seq<NodeId>, s: string)
    decreases |q|
  {
    if q == [] then Reported(b, o, t, path, s)
    else
      && SameList(b, o, t) && q[0] in Names(b.value.children)
      && ReportedAt(Find(b.value.children, q[0]), Find(o.value.children, q[0]), Find(t.value.children, q[0]), path + "/" + q[0], q[1..], s)
  }

  // ----- order of children

  lemma {:induction false} KeepAt(ids: seq<NodeId>, wanted: set<NodeId>, p: nat) returns (i: nat)
    requires p < |Keep(ids, wanted)|
    ensures i < |ids| && ids[i] == Keep(ids, wanted)[p] && ids[i] in wanted && |Keep(ids[..i], wanted)| == p
    decreases |ids|
  {
    var n := |ids| - 1;
    var init := ids[..n];
    if p < |Keep(init, wanted)| {
      i := KeepAt(init, wanted, p);
      assert init[..i] == ids[..i];
    } else {
      i := n;
    }
  }

  lemma {:induction false} KeepGrows(ids: seq<NodeId>, wanted: set<NodeId>, i: nat)
    requires i <= |ids|
    ensures |Keep(ids[..i], wanted)| <= |Keep(ids, wanted)|
    ensures i < |ids| && ids[i] in wanted ==>
      |Keep(ids[..i], wanted)| < |Keep(ids, wanted)| && Keep(ids, wanted)[|Keep(ids[..i], wanted)|] == ids[i]
    decreases |ids|
  {
    if i == |ids| {
      assert ids[..i] == ids;
    } else {
      var init := ids[..|ids| - 1];
      KeepGrows(init, wanted, i);
      assert init[..i] == ids[..i];
    }
  }

  // The place of a wanted id among the wanted ones.
  lemma KeptBefore(ids: seq<NodeId>, wanted: set<NodeId>, i: nat, j: nat)
    requires i < j < |ids| && ids[i] in wanted
    ensures |Keep(ids[..i], wanted)| < |Keep(ids[..j], wanted)|
  {
    KeepGrows(ids[..j], wanted, i);
    assert ids[..j][..i] == ids[..i];
  }

  lemma SameElements(bs: seq<Tree>, cs: seq<Tree>, p: nat)
    requires p < |Keep(Ids(cs), Names(bs))|
    ensures Keep(Ids(cs), Names(bs))[p] in Keep(Ids(bs), Names(cs))
  {
    var i := KeepAt(Ids(cs), Names(bs), p);
    var x :| 0 <= x < |bs| && bs[x].id == cs[i].id;
    KeepGrows(Ids(bs), Names(cs), x);
  }

  ghost predicate Distinct(a: seq<NodeId>) {
    forall p, q :: 0 <= p < q < |a| ==> a[p] != a[q]
  }

  ghost predicate InOrder(a: seq<NodeId>, b: seq<NodeId>) {
    forall p, q, x, y :: 0 <= p < q < |a| && 0 <= x < |b| && 0 <= y < |b| && a[p] == b[x] && a[q] == b[y] ==> x < y
  }

  ghost predicate Within(a: seq<NodeId>, b: seq<NodeId>) {
    forall p :: 0 <= p < |a| ==> a[p] in b
  }

  lemma LastsAgree(a: seq<NodeId>, b: seq<NodeId>)
    requires Distinct(a) && Distinct(b) && Within(a, b) && Within(b, a) && InOrder(a, b) && a != []
    ensures b != [] && a[|a| - 1] == b[|b| - 1]
  {
    var n := |a| - 1;
    assert a[n] in b;
    var x :| 0 <= x < |b| && b[x] == a[n];
    var p :| 0 <= p < |a| && a[p] == b[|b| - 1];
  }

  lemma InitsWithin(a: seq<NodeId>, b: seq<NodeId>)
    requires Distinct(a) && Within(a, b) && a != [] && b != [] && a[|a| - 1] == b[|b| - 1]
    ensures Within(a[..|a| - 1], b[..|b| - 1])
  {
    forall k | 0 <= k < |a| - 1 ensures a[k] in b[..|b| - 1] {
      var y :| 0 <= y < |b| && b[y] == a[k];
      assert b[..|b| - 1][y] == a[k];
    }
  }

  lemma InitsInOrder(a: seq<NodeId>, b: seq<NodeId>)
    requires InOrder(a, b) && a != [] && b != []
    ensures InOrder(a[..|a| - 1], b[..|b| - 1])
  {
  }

  lemma WithinAt(a: seq<NodeId>, b: seq<NodeId>, p: nat)
    requires Within(a, b) && p < |a|
    ensures a[p] in b
  {
  }

  /** Lists of the same distinct ids in the same order are equal. */
  lemma {:induction false} OrderedEqual(a: seq<NodeId>, b: seq<NodeId>)
    requires Distinct(a) && Distinct(b) && Within(a, b) && Within(b, a) && InOrder(a, b)
    ensures a == b
    decreases |a|
  {
    hide InOrder;
    hide Within;
    if a == [] {
      if b != [] {
        WithinAt(b, a, 0);
      }
    } else {
      LastsAgree(a, b);
      InitsWithin(a, b);
      InitsWithin(b, a);
      InitsInOrder(a, b);
      OrderedEqual(a[..|a| - 1], b[..|b| - 1]);
      assert a == a[..|a| - 1] + [a[|a| - 1]] && b == b[..|b| - 1] + [b[|b| - 1]];
    }
  }

  lemma KeptDistinct(cs: seq<Tree>, wanted: set<NodeId>, p: nat, q: nat)
    requires DistinctIds(cs) && p < q < |Keep(Ids(cs), wanted)|
    ensures Keep(Ids(cs), wanted)[p] != Keep(Ids(cs), wanted)[q]
  {
    var i := KeepAt(Ids(cs), wanted, p);
    var j := KeepAt(Ids(cs), wanted, q);
    assert cs[i].id == Keep(Ids(cs), wanted)[p] && cs[j].id == Keep(Ids(cs), wanted)[q];
  }

  /** An order conflict is reported exactly when two surviving base children changed places. */
  lemma ReorderExactly(bs: seq<Tree>, cs: seq<Tree>, path: string, id: NodeId)
    requires DistinctIds(bs) && DistinctIds(cs)
    ensures Reorder(bs, cs, path, id) == if Misordered(bs, cs) then [path + ":" + id + ":reorder"] else []
  {
    hide Keep;
    hide DistinctIds;
    if Misordered(bs, cs) {
      var i, j, x, y :| 0 <= i < j < |cs| && 0 <= y < x < |bs| && cs[i].id == bs[x].id && cs[j].id == bs[y].id;
      MisorderedKept(bs, cs, i, j, x, y);
    } else {
      OrderedKept(bs, cs);
    }
  }

  lemma KeptOnce(cs: seq<Tree>, wanted: set<NodeId>, p: nat, q: nat)
    requires DistinctIds(cs) && p < |Keep(Ids(cs), wanted)| && q < |Keep(Ids(cs), wanted)|
    requires Keep(Ids(cs), wanted)[p] == Keep(Ids(cs), wanted)[q]
    ensures p == q
  {
    if p < q {
      KeptDistinct(cs, wanted, p, q);
    } else if q < p {
      KeptDistinct(cs, wanted, q, p);
    }
  }

  lemma MisorderedKept(bs: seq<Tree>, cs: seq<Tree>, i: nat, j: nat, x: nat, y: nat)
    requires DistinctIds(bs) && DistinctIds(cs)
    requires i < j < |cs| && y < x < |bs| && cs[i].id == bs[x].id && cs[j].id == bs[y].id
    ensures Keep(Ids(cs), Names(bs)) != Keep(Ids(bs), Names(cs))
  {
    hide Keep;
    KeepGrows(Ids(cs), Names(bs), i);
    KeepGrows(Ids(cs), Names(bs), j);
    KeepGrows(Ids(bs), Names(cs), x);
    KeepGrows(Ids(bs), Names(cs), y);
    KeptBefore(Ids(cs), Names(bs), i, j);
    KeptBefore(Ids(bs), Names(cs), y, x);
    if Keep(Ids(cs), Names(bs)) == Keep(Ids(bs), Names(cs)) {
      KeptOnce(cs, Names(bs), |Keep(Ids(cs)[..i], Names(bs))|, |Keep(Ids(bs)[..x], Names(cs))|);
      KeptOnce(cs, Names(bs), |Keep(Ids(cs)[..j], Names(bs))|, |Keep(Ids(bs)[..y], Names(cs))|);
    }
  }

  lemma OrderedKept(bs: seq<Tree>, cs: seq<Tree>)
    requires DistinctIds(bs) && DistinctIds(cs) && !Misordered(bs, cs)
    ensures Keep(Ids(cs), Names(bs)) == Keep(Ids(bs), Names(cs))
  {
    hide Keep;
    var a, b := Keep(Ids(cs), Names(bs)), Keep(Ids(bs), Names(cs));
    forall p, q | 0 <= p < q < |a| ensures a[p] != a[q] {
      KeptDistinct(cs, Names(bs), p, q);
    }
    forall p, q | 0 <= p < q < |b| ensures b[p] != b[q] {
      KeptDistinct(bs, Names(cs), p, q);
    }
    forall p | 0 <= p < |a| ensures a[p] in b {
      SameElements(bs, cs, p);
    }
    forall p | 0 <= p < |b| ensures b[p] in a {
      SameElements(cs, bs, p);
    }
    forall p, q, x, y | 0 <= p < q < |a| && 0 <= x < |b| && 0 <= y < |b| && a[p] == b[x] && a[q] == b[y] ensures x < y {
      KeptPlaces(bs, cs, p, q, x, y);
    }
    OrderedEqual(a, b);
  }

  // Ids kept in one order stand in that order.
  lemma KeptAfter(cs: seq<Tree>, wanted: set<NodeId>, p: nat, q: nat) returns (i: nat, j: nat)
    requires p < q < |Keep(Ids(cs), wanted)|
    ensures i < j < |cs| && cs[i].id == Keep(Ids(cs), wanted)[p] && cs[j].id == Keep(Ids(cs), wanted)[q]
  {
    hide Keep;
    i := KeepAt(Ids(cs), wanted, p);
    j := KeepAt(Ids(cs), wanted, q);
    if j < i {
      KeptBefore(Ids(cs), wanted, j, i);
    }
  }

  lemma KeptPlaces(bs: seq<Tree>, cs: seq<Tree>, p: nat, q: nat, x: nat, y: nat)
    requires DistinctIds(bs) && DistinctIds(cs) && !Misordered(bs, cs)
    requires p < q < |Keep(Ids(cs), Names(bs))| && x < |Keep(Ids(bs), Names(cs))| && y < |Keep(Ids(bs), Names(cs))|
    requires Keep(Ids(cs), Names(bs))[p] == Keep(Ids(bs), Names(cs))[x] && Keep(Ids(cs), Names(bs))[q] == Keep(Ids(bs), Names(cs))[y]
    ensures x < y
  {
    hide Keep;
    KeptDistinct(cs, Names(bs), p, q);
    if y < x {
      var i, j := KeptAfter(cs, Names(bs), p, q);
      var l, k := KeptAfter(bs, Names(cs), y, x);
    }
  }

  // ----- the conflicts

  ghost predicate ChildConflict(bs: seq<Tree>, os: seq<Tree>, ts: seq<Tree>, path: string, j: nat, s: string) {
    j < |bs| && s in MergeChild(bs, os, ts, path, j).conflicts
  }

  lemma {:induction false} FromReports(bs: seq<Tree>, os: seq<Tree>, ts: seq<Tree>, path: string, k: nat, s: string)
    requires k <= |bs|
    ensures s in MergeFrom(bs, os, ts, path, k).conflicts <==> exists j: nat :: k <= j && ChildConflict(bs, os, ts, path, j, s)
    decreases |bs| - k
  {
    hide MergeSlot;
    if k < |bs| {
      FromReports(bs, os, ts, path, k + 1, s);
      assert ChildConflict(bs, os, ts, path, k, s) <==> s in MergeChild(bs, os, ts, path, k).conflicts;
      hide MergeChild;
      hide ChildConflict;
      assert MergeFrom(bs, os, ts, path, k).conflicts == MergeChild(bs, os, ts, path, k).conflicts + MergeFrom(bs, os, ts, path, k + 1).conflicts;
    }
  }

  ghost predicate Reports(b: Option<Tree>, o: Option<Tree>, t: Option<Tree>, path: string, s: string) {
    exists q :: ReportedAt(b, o, t, path, q, s)
  }

  /** The conflicts of a merge are exactly what is reported of the nodes that both sides changed. */
  lemma {:induction false} ConflictsExactly(b: Option<Tree>, o: Option<Tree>, t: Option<Tree>, path: string, s: string)
    requires Siblings(b) && Siblings(o) && Siblings(t)
    ensures s in MergeNode(b, o, t, path).conflicts <==> Reports(b, o, t, path, s)
    decreases Rank(b), 1
  {
    hide MergeChildren;
    hide Misordered;
    hide SiblingUnique;
    hide ReportedAt;
    if !BothChanged(b, o, t) {
      forall q ensures !ReportedAt(b, o, t, path, q, s) {
        UnchangedSilent(b, o, t, path, q, s);
      }
    } else if SameList(b, o, t) {
      KidsExactly(b.value, o.value, t.value, path, s);
    } else {
      OnlyHere(b, o, t, path, s);
    }
  }

  lemma OnlyHere(b: Option<Tree>, o: Option<Tree>, t: Option<Tree>, path: string, s: string)
    requires !SameList(b, o, t)
    ensures Reports(b, o, t, path, s) <==> Reported(b, o, t, path, s)
  {
    hide Reported;
    assert ReportedAt(b, o, t, path, [], s) <==> Reported(b, o, t, path, s);
  }

  lemma {:induction false} UnchangedSilent(b: Option<Tree>, o: Option<Tree>, t: Option<Tree>, path: string, q: seq<NodeId>, s: string)
    requires !BothChanged(b, o, t)
    ensures !ReportedAt(b, o, t, path, q, s)
    decreases |q|
  {
    if q != [] && SameList(b, o, t) {
      UnchangedSilent(Find(b.value.children, q[0]), Find(o.value.children, q[0]), Find(t.value.children, q[0]), path + "/" + q[0], q[1..], s);
    }
  }

  lemma {:induction false} KidsExactly(b: Tree, o: Tree, t: Tree, path: string, s: string)
    requires b.List? && o.List? && t.List? && b.id == o.id == t.id && BothChanged(Some(b), Some(o), Some(t))
    requires SiblingUnique(b) && SiblingUnique(o) && SiblingUnique(t)
    ensures s in MergeChildren(b, o, t, path).conflicts <==> Reports(Some(b), Some(o), Some(t), path, s)
    decreases b, 0
  {
    hide MergeFrom;
    hide MergeChild;
    hide Reorder;
    hide Misordered;
    hide Reported;
    hide ReportedAt;
    hide ReportsAtChild;
    hide Reports;
    hide ChildConflict;
    hide SiblingUnique;
    hide DistinctIds;
    var bs, os, ts := b.children, o.children, t.children;
    ListConflicts(b, o, t, path, s);
    FromReports(bs, os, ts, path, 0, s);
    forall j: nat | j < |bs| ensures ChildConflict(bs, os, ts, path, j, s) <==> ReportsAtChild(b, o, t, path, j, s) {
      ChildExactly(b, o, t, path, j, s);
    }
    ChildReported(b, o, t, path, s);
    ChildBound(b, o, t, path, s);
  }

  lemma {:induction false} ChildExactly(b: Tree, o: Tree, t: Tree, path: string, j: nat, s: string)
    requires b.List? && o.List? && t.List? && j < |b.children|
    requires SiblingUnique(b) && SiblingUnique(o) && SiblingUnique(t)
    ensures ChildConflict(b.children, o.children, t.children, path, j, s) <==> ReportsAtChild(b, o, t, path, j, s)
    decreases b, 0, 0
  {
    hide MergeNode;
    hide Reports;
    hide SiblingUnique;
    var id := b.children[j].id;
    FindSiblings(b, id);
    FindSiblings(o, id);
    FindSiblings(t, id);
    ConflictsExactly(Find(b.children, id), Find(o.children, id), Find(t.children, id), path + "/" + id, s);
  }

  lemma ListConflicts(b: Tree, o: Tree, t: Tree, path: string, s: string)
    requires b.List? && o.List? && t.List? && b.id == o.id == t.id && BothChanged(Some(b), Some(o), Some(t))
    requires SiblingUnique(b) && SiblingUnique(o) && SiblingUnique(t)
    ensures s in MergeChildren(b, o, t, path).conflicts <==>
      Reported(Some(b), Some(o), Some(t), path, s) || s in MergeFrom(b.children, o.children, t.children, path, 0).conflicts
  {
    hide MergeFrom;
    hide Reorder;
    hide Misordered;
    ReorderExactly(b.children, o.children, path, b.id);
    ReorderExactly(b.children, t.children, path, b.id);
    ListReported(b, o, t, path, s);
    hide Reported;
  }

  lemma ListReported(b: Tree, o: Tree, t: Tree, path: string, s: string)
    requires b.List? && o.List? && t.List? && b.id == o.id == t.id && BothChanged(Some(b), Some(o), Some(t))
    ensures Reported(Some(b), Some(o), Some(t), path, s) <==>
      (Misordered(b.children, o.children) || Misordered(b.children, t.children)) && s == path + ":" + b.id + ":reorder"
  {
    hide Misordered;
  }

  ghost predicate ReportsAtChild(b: Tree, o: Tree, t: Tree, path: string, j: nat, s: string)
    requires b.List? && o.List? && t.List?
  {
    j < |b.children| &&
    Reports(Find(b.children, b.children[j].id), Find(o.children, b.children[j].id), Find(t.children, b.children[j].id), path + "/" + b.children[j].id, s)
  }

  lemma ChildBound(b: Tree, o: Tree, t: Tree, path: string, s: string)
    requires b.List? && o.List? && t.List?
    ensures forall j: nat :: ReportsAtChild(b, o, t, path, j, s) || ChildConflict(b.children, o.children, t.children, path, j, s) ==> j < |b.children|
  {
  }

  // A report below a list is a report at one of its base children.
  lemma ChildReported(b: Tree, o: Tree, t: Tree, path: string, s: string)
    requires b.List? && o.List? && t.List? && b.id == o.id == t.id
    ensures Reports(Some(b), Some(o), Some(t), path, s) <==>
      Reported(Some(b), Some(o), Some(t), path, s) || exists j: nat :: ReportsAtChild(b, o, t, path, j, s)
  {
    hide ReportedAt;
    hide Reported;
    if Reports(Some(b), Some(o), Some(t), path, s) {
      var q :| ReportedAt(Some(b), Some(o), Some(t), path, q, s);
      var j := ReportUnfolds(b, o, t, path, q, s);
    }
    ReportHere(b, o, t, path, s);
    if j: nat :| ReportsAtChild(b, o, t, path, j, s) {
      ReportFolds(b, o, t, path, j, s);
    }
  }

  lemma ReportHere(b: Tree, o: Tree, t: Tree, path: string, s: string)
    ensures ReportedAt(Some(b), Some(o), Some(t), path, [], s) <==> Reported(Some(b), Some(o), Some(t), path, s)
  {
  }

  lemma ReportUnfolds(b: Tree, o: Tree, t: Tree, path: string, q: seq<NodeId>, s: string) returns (j: nat)
    requires b.List? && o.List? && t.List? && ReportedAt(Some(b), Some(o), Some(t), path, q, s)
    ensures Reported(Some(b), Some(o), Some(t), path, s) || ReportsAtChild(b, o, t, path, j, s)
  {
    hide Reported;
    j := 0;
    if q != [] {
      j :| j < |b.children| && b.children[j].id == q[0];
    }
  }

  lemma ReportFolds(b: Tree, o: Tree, t: Tree, path: string, j: nat, s: string)
    requires b.List? && o.List? && t.List? && b.id == o.id == t.id && ReportsAtChild(b, o, t, path, j, s)
    ensures Reports(Some(b), Some(o), Some(t), path, s)
  {
    hide Reported;
    var id := b.children[j].id;
    var q :| ReportedAt(Find(b.children, id), Find(o.children, id), Find(t.children, id), path + "/" + id, q, s);
    var r := [id] + q;
    assert r[1..] == q && r[0] in Names(b.children);
    assert ReportedAt(Some(b), Some(o), Some(t), path, r, s);
  }

  // ----- what follows

  /** A merge succeeds exactly when no node is changed by both sides in two ways. */
  lemma ConflictFreeExactly(b: Option<Tree>, o: Option<Tree>, t: Option<Tree>, path: string)
    requires Siblings(b) && Siblings(o) && Siblings(t)
    ensures MergeNode(b, o, t, path).conflicts == [] <==> forall s :: !Reports(b, o, t, path, s)
  {
    hide MergeNode;
    hide Reports;
    var cs := MergeNode(b, o, t, path).conflicts;
    forall s ensures s in cs <==> Reports(b, o, t, path, s) {
      ConflictsExactly(b, o, t, path, s);
    }
    if cs != [] {
      assert cs[0] in cs;
    }
  }

  /** Where one side deleted a node, the other left it and everything under it as it was, or deleted it too. */
  lemma {:induction false} DeletedUntouched(b: Option<Tree>, o: Option<Tree>, t: Option<Tree>, path: string, q: seq<NodeId>)
    requires MergeNode(b, o, t, path).conflicts == [] && Down(b, q).Some?
    ensures Down(o, q).None? ==> Down(t, q).None? || Down(t, q) == Down(b, q)
    ensures Down(t, q).None? ==> Down(o, q).None? || Down(o, q) == Down(b, q)
    decreases |q|
  {
    hide MergeChildren;
    hide MergeChild;
    if BothChanged(b, o, t) && q != [] {
      var bs, os, ts := b.value.children, o.value.children, t.value.children;
      var k :| 0 <= k < |bs| && bs[k].id == q[0];
      BelowClean(b.value, o.value, t.value, path, k);
      DeletedUntouched(Find(bs, q[0]), Find(os, q[0]), Find(ts, q[0]), path + "/" + q[0], q[1..]);
    }
  }

  lemma BelowClean(b: Tree, o: Tree, t: Tree, path: string, k: nat)
    requires b.List? && o.List? && t.List? && k < |b.children| && MergeChildren(b, o, t, path).conflicts == []
    ensures var id := b.children[k].id;
      MergeNode(Find(b.children, id), Find(o.children, id), Find(t.children, id), path + "/" + id).conflicts == []
  {
    hide MergeNode;
    ChildClean(b, o, t, path, k);
    hide MergeChildren;
  }

  /** A side that keeps two base children of a list that both sides changed keeps their order. */
  lemma KeepsOrder(b: Option<Tree>, o: Option<Tree>, t: Option<Tree>, path: string, q: seq<NodeId>)
    requires Siblings(b) && Siblings(o) && Siblings(t) && MergeNode(b, o, t, path).conflicts == []
    requires BothChanged(Down(b, q), Down(o, q), Down(t, q)) && SameList(Down(b, q), Down(o, q), Down(t, q))
    ensures !Misordered(Down(b, q).value.children, Down(o, q).value.children)
    ensures !Misordered(Down(b, q).value.children, Down(t, q).value.children)
    decreases |q|
  {
    hide MergeChildren;
    hide Misordered;
    hide SiblingUnique;
    if q == [] {
      ConflictsExactly(b, o, t, path, path + ":" + b.value.id + ":reorder");
      ReportHere(b.value, o.value, t.value, path, path + ":" + b.value.id + ":reorder");
    } else {
      ChangedAbove(b, o, t, q);
      var bs, os, ts := b.value.children, o.value.children, t.value.children;
      var k :| 0 <= k < |bs| && bs[k].id == q[0];
      BelowClean(b.value, o.value, t.value, path, k);
      FindSiblings(b.value, q[0]);
      FindSiblings(o.value, q[0]);
      FindSiblings(t.value, q[0]);
      KeepsOrder(Find(bs, q[0]), Find(os, q[0]), Find(ts, q[0]), path + "/" + q[0], q[1..]);
    }
  }

  lemma ChangedAbove(b: Option<Tree>, o: Option<Tree>, t: Option<Tree>, q: seq<NodeId>)
    requires BothChanged(Down(b, q), Down(o, q), Down(t, q))
    ensures BothChanged(b, o, t)
  {
  }
}
