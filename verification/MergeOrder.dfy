/** The order of merged siblings: base children keep the base order, additions stay behind the sibling
    they were added after, and swapping the sides moves additions of one slot only. */
module MergeOrder {
  import opened Prelude
  import opened Trees
  import opened Merge
  import opened MergePaths
  import opened MergeIds
  import opened MergeTheorems

  /** The slot in front of the k-th base child. */
  function SlotKey(bs: seq<Tree>, k: nat): Option<NodeId>
    requires k <= |bs|
  {
    if k == 0 then None else Some(bs[k - 1].id)
  }

  // The merged children up to the k-th base child, with the slot behind it.
  function Upto(bs: seq<Tree>, os: seq<Tree>, ts: seq<Tree>, path: string, k: nat): seq<Tree>
    requires k <= |bs|
    decreases k
  {
    if k == 0 then MergeSlot(os, ts, Names(bs), None)
    else Upto(bs, os, ts, path, k - 1) + OptSeq(MergeChild(bs, os, ts, path, k - 1).node) + MergeSlot(os, ts, Names(bs), SlotKey(bs, k))
  }

  /** The ids of the first k base children that the merge keeps. */
  function Survivors(bs: seq<Tree>, os: seq<Tree>, ts: seq<Tree>, path: string, k: nat): seq<NodeId>
    requires k <= |bs|
    decreases k
  {
    if k == 0 then []
    else Survivors(bs, os, ts, path, k - 1) + if MergeChild(bs, os, ts, path, k - 1).node.Some? then [bs[k - 1].id] else []
  }

  function LastOf(ids: seq<NodeId>): Option<NodeId> {
    if ids == [] then None else Some(ids[|ids| - 1])
  }

  lemma {:induction false} UptoFrom(b: Tree, o: Tree, t: Tree, path: string, k: nat)
    requires b.List? && o.List? && t.List? && k <= |b.children|
    ensures Upto(b.children, o.children, t.children, path, k) + MergeFrom(b.children, o.children, t.children, path, k).nodes ==
      MergeChildren(b, o, t, path).nodes
    decreases k
  {
    hide MergeChild;
    hide MergeSlot;
    var bs, os, ts := b.children, o.children, t.children;
    if k > 0 {
      UptoFrom(b, o, t, path, k - 1);
      var a, m, s := Upto(bs, os, ts, path, k - 1), OptSeq(MergeChild(bs, os, ts, path, k - 1).node), MergeSlot(os, ts, Names(bs), SlotKey(bs, k));
      Regrouped(a, m, s, MergeFrom(bs, os, ts, path, k).nodes);
    }
  }

  lemma Regrouped<T>(a: seq<T>, b: seq<T>, c: seq<T>, d: seq<T>)
    ensures a + b + c + d == a + (b + c + d)
  {
  }

  lemma UptoAll(b: Tree, o: Tree, t: Tree, path: string)
    requires b.List? && o.List? && t.List?
    ensures MergeChildren(b, o, t, path).nodes == Upto(b.children, o.children, t.children, path, |b.children|)
  {
    UptoFrom(b, o, t, path, |b.children|);
    var all := Upto(b.children, o.children, t.children, path, |b.children|);
    assert all + [] == all;
  }

  // ----- kept ids and anchors of concatenations

  lemma {:induction false} KeepConcat(a: seq<Tree>, b: seq<Tree>, base: set<NodeId>)
    ensures Keep(Ids(a + b), base) == Keep(Ids(a), base) + Keep(Ids(b), base)
    decreases |b|
  {
    hide Keep;
    if b == [] {
      assert a + b == a;
      KeepNone(base);
    } else {
      var init, last := b[..|b| - 1], b[|b| - 1];
      KeepConcat(a, init, base);
      assert a + b == a + init + [last] && b == init + [last];
      KeepSnoc(a + init, last, base);
      KeepSnoc(init, last, base);
    }
  }

  lemma KeepNone(base: set<NodeId>)
    ensures Keep(Ids([]), base) == []
  {
  }

  lemma KeepSnoc(a: seq<Tree>, x: Tree, base: set<NodeId>)
    ensures Keep(Ids(a + [x]), base) == Keep(Ids(a), base) + if x.id in base then [x.id] else []
  {
    assert Ids(a + [x]) == Ids(a) + [x.id];
    assert (Ids(a) + [x.id])[..|a|] == Ids(a);
  }

  ghost predicate Outside(s: seq<Tree>, base: set<NodeId>) {
    forall i :: 0 <= i < |s| ==> s[i].id !in base
  }

  lemma {:induction false} OutsideKeeps(a: seq<Tree>, s: seq<Tree>, base: set<NodeId>)
    requires Outside(s, base)
    ensures Keep(Ids(s), base) == [] && Anchor(a + s, base) == Anchor(a, base)
    decreases |s|
  {
    if s == [] {
      assert a + s == a;
    } else {
      var init := s[..|s| - 1];
      OutsideKeeps(a, init, base);
      assert Ids(s)[..|s| - 1] == Ids(init);
      assert (a + s)[..|a + s| - 1] == a + init;
    }
  }

  lemma SlotOutside(os: seq<Tree>, ts: seq<Tree>, base: set<NodeId>, a: Option<NodeId>)
    requires DistinctIds(os) && DistinctIds(ts)
    ensures Outside(MergeSlot(os, ts, base, a), base)
  {
    hide MergeSlot;
    var s := MergeSlot(os, ts, base, a);
    forall i | 0 <= i < |s| ensures s[i].id !in base {
      MergeSlotElem(os, ts, base, a, s[i]);
    }
  }

  // The k-th base child, if it is kept, keeps its id.
  lemma ChildId(bs: seq<Tree>, os: seq<Tree>, ts: seq<Tree>, path: string, k: nat)
    requires k < |bs|
    ensures var m := MergeChild(bs, os, ts, path, k).node; m.Some? ==> m.value.id == bs[k].id && bs[k].id in Names(bs)
  {
    var id := bs[k].id;
    MergedId(Find(bs, id), Find(os, id), Find(ts, id), path + "/" + id, id);
    hide MergeNode;
  }

  lemma {:induction false} UptoShape(bs: seq<Tree>, os: seq<Tree>, ts: seq<Tree>, path: string, k: nat)
    requires k <= |bs| && DistinctIds(os) && DistinctIds(ts)
    ensures Keep(Ids(Upto(bs, os, ts, path, k)), Names(bs)) == Survivors(bs, os, ts, path, k)
    ensures Anchor(Upto(bs, os, ts, path, k), Names(bs)) == LastOf(Survivors(bs, os, ts, path, k))
    decreases k
  {
    hide MergeChild;
    hide MergeSlot;
    hide Names;
    hide DistinctIds;
    hide Outside;
    hide Ids;
    hide Keep;
    hide Anchor;
    var slot := MergeSlot(os, ts, Names(bs), SlotKey(bs, k));
    SlotOutside(os, ts, Names(bs), SlotKey(bs, k));
    if k == 0 {
      OutsideKeeps([], slot, Names(bs));
      NoAnchor(Names(bs));
      assert [] + slot == slot;
    } else {
      var before, kept := Upto(bs, os, ts, path, k - 1), OptSeq(MergeChild(bs, os, ts, path, k - 1).node);
      UptoShape(bs, os, ts, path, k - 1);
      ChildId(bs, os, ts, path, k - 1);
      KeptShape(before, kept, slot, Names(bs));
      IdsOfOption(MergeChild(bs, os, ts, path, k - 1).node);
    }
  }

  lemma NoAnchor(base: set<NodeId>)
    ensures Anchor([], base) == None
  {
  }

  lemma IdsOfOption(m: Option<Tree>)
    ensures Ids(OptSeq(m)) == if m.Some? then [m.value.id] else []
  {
  }

  // At most one base child, then additions.
  lemma KeptShape(before: seq<Tree>, kept: seq<Tree>, slot: seq<Tree>, base: set<NodeId>)
    requires |kept| <= 1 && (kept != [] ==> kept[0].id in base) && Outside(slot, base)
    ensures Keep(Ids(before + kept + slot), base) == Keep(Ids(before), base) + Ids(kept)
    ensures Anchor(before + kept + slot, base) == if kept == [] then Anchor(before, base) else Some(kept[0].id)
  {
    KeepConcat(before + kept, slot, base);
    KeepConcat(before, kept, base);
    OutsideKeeps(before + kept, slot, base);
    if kept == [] {
      assert before + kept == before;
      assert Ids(kept) == [];
    } else {
      assert kept == [kept[0]] && Ids(kept) == [kept[0].id] && Ids(kept)[..0] == [];
      assert (before + kept)[..|before + kept| - 1] == before;
    }
  }

  // ----- where an addition stands

  /** An addition stands in its slot: behind the base sibling it was added after or, if that one is gone,
      behind the last one before it that is left. */
  ghost predicate Stands(bs: seq<Tree>, os: seq<Tree>, ts: seq<Tree>, path: string, nodes: seq<Tree>, i: nat, k: nat) {
    && i < |nodes| && k <= |bs|
    && nodes[i] in MergeSlot(os, ts, Names(bs), SlotKey(bs, k))
    && Anchor(nodes[..i], Names(bs)) == LastOf(Survivors(bs, os, ts, path, k))
  }

  lemma {:induction false} UptoStands(bs: seq<Tree>, os: seq<Tree>, ts: seq<Tree>, path: string, n: nat, i: nat) returns (k: nat)
    requires n <= |bs| && DistinctIds(os) && DistinctIds(ts)
    requires i < |Upto(bs, os, ts, path, n)| && Upto(bs, os, ts, path, n)[i].id !in Names(bs)
    ensures Stands(bs, os, ts, path, Upto(bs, os, ts, path, n), i, k)
    decreases n
  {
    hide MergeChild;
    hide MergeSlot;
    hide Names;
    hide DistinctIds;
    hide Anchor;
    hide Survivors;
    hide LastOf;
    var all, slot := Upto(bs, os, ts, path, n), MergeSlot(os, ts, Names(bs), SlotKey(bs, n));
    var head := all[..|all| - |slot|];
    assert all == head + slot by {
      UptoTail(bs, os, ts, path, n);
    }
    if i >= |head| {
      k := n;
      SlotOutside(os, ts, Names(bs), SlotKey(bs, n));
      UptoShape(bs, os, ts, path, n);
      InTail(head, slot, Names(bs), i);
    } else {
      var before := Upto(bs, os, ts, path, n - 1);
      UptoTail(bs, os, ts, path, n);
      ChildId(bs, os, ts, path, n - 1);
      assert i < |before| && before[i] == all[i] && before[..i] == all[..i];
      k := UptoStands(bs, os, ts, path, n - 1, i);
    }
  }

  lemma UptoTail(bs: seq<Tree>, os: seq<Tree>, ts: seq<Tree>, path: string, n: nat)
    requires n <= |bs|
    ensures var all, slot := Upto(bs, os, ts, path, n), MergeSlot(os, ts, Names(bs), SlotKey(bs, n));
      && |slot| <= |all| && all == all[..|all| - |slot|] + slot
      && if n == 0 then |all| == |slot|
         else all[..|all| - |slot|] == Upto(bs, os, ts, path, n - 1) + OptSeq(MergeChild(bs, os, ts, path, n - 1).node)
  {
    hide MergeChild;
    hide MergeSlot;
    hide Names;
  }

  // Additions at the end have the anchor of the whole.
  lemma InTail(head: seq<Tree>, slot: seq<Tree>, base: set<NodeId>, i: nat)
    requires Outside(slot, base) && |head| <= i < |head + slot|
    ensures (head + slot)[i] in slot && Anchor((head + slot)[..i], base) == Anchor(head + slot, base)
  {
    var part := slot[..i - |head|];
    assert (head + slot)[..i] == head + part;
    OutsideKeeps(head, part, base);
    OutsideKeeps(head, slot, base);
    assert (head + slot)[i] == slot[i - |head|];
  }

  // ----- the theorems

  /** The base children that survive a merge stay in base order, and every addition stands in its slot. */
  lemma SiblingsInOrder(b: Tree, o: Tree, t: Tree, path: string)
    requires b.List? && o.List? && t.List? && DistinctIds(o.children) && DistinctIds(t.children)
    ensures var nodes := MergeChildren(b, o, t, path).nodes;
      && Keep(Ids(nodes), Names(b.children)) == Survivors(b.children, o.children, t.children, path, |b.children|)
      && forall i: nat :: i < |nodes| && nodes[i].id !in Names(b.children) ==>
           exists k: nat :: Stands(b.children, o.children, t.children, path, nodes, i, k)
  {
    hide MergeChildren;
    hide Names;
    hide Upto;
    hide Stands;
    hide Survivors;
    hide Keep;
    hide DistinctIds;
    var bs, os, ts := b.children, o.children, t.children;
    UptoAll(b, o, t, path);
    UptoShape(bs, os, ts, path, |bs|);
    var nodes := MergeChildren(b, o, t, path).nodes;
    forall i: nat | i < |nodes| && nodes[i].id !in Names(bs) ensures exists k: nat :: Stands(bs, os, ts, path, nodes, i, k) {
      var k := UptoStands(bs, os, ts, path, |bs|, i);
    }
  }

  /** Ours come first in a slot, in their own order. */
  lemma OursFirst(os: seq<Tree>, ts: seq<Tree>, base: set<NodeId>, a: Option<NodeId>)
    requires DistinctIds(os)
    ensures Slot(os, base, a) <= MergeSlot(os, ts, base, a)
  {
    SlotDistinct(os, base, a);
    DedupPrefix(Slot(os, base, a), Slot(ts, base, a));
  }

  lemma {:induction false} DedupPrefix(a: seq<Tree>, b: seq<Tree>)
    requires DistinctIds(a)
    ensures a <= Dedup(a + b)
    decreases |a| + |b|
  {
    if b != [] {
      assert (a + b)[..|a + b| - 1] == a + b[..|b| - 1];
      DedupPrefix(a, b[..|b| - 1]);
    } else if a != [] {
      var init, last := a[..|a| - 1], a[|a| - 1];
      assert a + b == a && init + b == init;
      DedupPrefix(init, b);
      LastIsNew(a);
      DedupLength(init);
    }
  }

  lemma LastIsNew(a: seq<Tree>)
    requires DistinctIds(a) && a != []
    ensures a[|a| - 1].id !in Names(a[..|a| - 1])
  {
  }

  lemma {:induction false} DedupLength(a: seq<Tree>)
    ensures |Dedup(a)| <= |a|
  {
    if a != [] {
      DedupLength(a[..|a| - 1]);
    }
  }

  // A conflict-free merge keeps a node or not, whichever side is ours.
  lemma KeptEitherWay(b: Option<Tree>, o: Option<Tree>, t: Option<Tree>, path: string)
    requires MergeNode(b, o, t, path).conflicts == []
    ensures MergeNode(b, o, t, path).node.Some? <==> MergeNode(b, t, o, path).node.Some?
  {
    hide MergeChildren;
  }

  lemma {:induction false} SurvivorsEitherWay(b: Tree, o: Tree, t: Tree, path: string, k: nat)
    requires b.List? && o.List? && t.List? && k <= |b.children| && MergeChildren(b, o, t, path).conflicts == []
    ensures Survivors(b.children, o.children, t.children, path, k) == Survivors(b.children, t.children, o.children, path, k)
    decreases k
  {
    hide MergeChildren;
    hide MergeNode;
    if k > 0 {
      SurvivorsEitherWay(b, o, t, path, k - 1);
      ChildClean(b, o, t, path, k - 1);
      var id := b.children[k - 1].id;
      KeptEitherWay(Find(b.children, id), Find(o.children, id), Find(t.children, id), path + "/" + id);
    }
  }

  // One id has one slot, whichever side added it.
  lemma OneSlot(bs: seq<Tree>, os: seq<Tree>, ts: seq<Tree>, x: Tree, y: Tree, j: nat, k: nat)
    requires DistinctIds(bs) && DistinctIds(os) && DistinctIds(ts) && !SlotClash(bs, os, ts) && j <= |bs| && k <= |bs|
    requires x in MergeSlot(os, ts, Names(bs), SlotKey(bs, j)) && y in MergeSlot(ts, os, Names(bs), SlotKey(bs, k)) && x.id == y.id
    ensures j == k
  {
    hide MergeSlot;
    hide Anchor;
    hide Names;
    MergeSlotElem(os, ts, Names(bs), SlotKey(bs, j), x);
    MergeSlotElem(ts, os, Names(bs), SlotKey(bs, k), y);
    assert SlotKey(bs, j) == SlotKey(bs, k);
  }

  /** Swapping the sides of a conflict-free merge keeps the base children in the same order, and leaves
      every addition behind the same base sibling: only additions of one slot change places. */
  lemma SwapMovesWithinSlots(b: Tree, o: Tree, t: Tree, path: string, i: nat, j: nat)
    requires b.List? && o.List? && t.List?
    requires DistinctIds(b.children) && DistinctIds(o.children) && DistinctIds(t.children)
    requires !SlotClash(b.children, o.children, t.children) && MergeChildren(b, o, t, path).conflicts == []
    ensures var x, y, base := MergeChildren(b, o, t, path).nodes, MergeChildren(b, t, o, path).nodes, Names(b.children);
      && Keep(Ids(x), base) == Keep(Ids(y), base)
      && (i < |x| && j < |y| && x[i].id == y[j].id && x[i].id !in base ==> Anchor(x[..i], base) == Anchor(y[..j], base))
  {
    hide MergeChildren;
    hide Names;
    hide Upto;
    hide Survivors;
    hide Keep;
    hide DistinctIds;
    hide SlotClash;
    hide MergeSlot;
    var bs, os, ts := b.children, o.children, t.children;
    var x, y := MergeChildren(b, o, t, path).nodes, MergeChildren(b, t, o, path).nodes;
    SurvivorsEitherWay(b, o, t, path, |bs|);
    SiblingsInOrder(b, o, t, path);
    SiblingsInOrder(b, t, o, path);
    if i < |x| && j < |y| && x[i].id == y[j].id && x[i].id !in Names(bs) {
      var k: nat :| Stands(bs, os, ts, path, x, i, k);
      var m: nat :| Stands(bs, ts, os, path, y, j, m);
      OneSlot(bs, os, ts, x[i], y[j], k, m);
      SurvivorsEitherWay(b, o, t, path, k);
    }
  }

  // ----- whole trees

  /** The same order, up to additions of one slot. */
  ghost predicate SameOrder(base: set<NodeId>, xs: seq<Tree>, ys: seq<Tree>) {
    && Keep(Ids(xs), base) == Keep(Ids(ys), base)
    && forall i: nat, j: nat :: i < |xs| && j < |ys| && xs[i].id == ys[j].id && xs[i].id !in base ==> Anchor(xs[..i], base) == Anchor(ys[..j], base)
  }

  /** Two trees are equal up to the order of additions within a slot, at every list that base has. */
  ghost predicate Alike(b: Tree, x: Option<Tree>, y: Option<Tree>)
    decreases b
  {
    || x == y
    || (&& b.List? && x.Some? && y.Some? && x.value.List? && y.value.List? && x.value.id == y.value.id
        && AlikeKids(b, x.value.children, y.value.children))
  }

  ghost predicate AlikeKids(b: Tree, xs: seq<Tree>, ys: seq<Tree>)
    requires b.List?
    decreases b, 0
  {
    && SameOrder(Names(b.children), xs, ys)
    && (forall c :: c !in Names(b.children) ==> Find(xs, c) == Find(ys, c))
    && (forall k :: 0 <= k < |b.children| ==> Alike(b.children[k], Find(xs, b.children[k].id), Find(ys, b.children[k].id)))
  }

  /** Swapping the sides of a conflict-free merge without shared additions gives the same tree, up to the
      order of additions within a slot. */
  lemma {:induction false} SwapAlike(b: Option<Tree>, o: Option<Tree>, t: Option<Tree>, path: string)
    requires Siblings(b) && Siblings(o) && Siblings(t)
    requires MergeNode(b, o, t, path).conflicts == [] && NoSharedAddition(b, o, t)
    ensures var x, y := MergeNode(b, o, t, path).node, MergeNode(b, t, o, path).node;
      if b.Some? then Alike(b.value, x, y) else x == y
    decreases Rank(b), 1
  {
    hide MergeChildren;
    hide SiblingUnique;
    hide NoSharedAddition;
    hide AlikeKids;
    if o != b && t != b && o != t {
      SwapAlikeKids(b.value, o.value, t.value, path);
    }
  }

  lemma {:induction false} SwapAlikeKids(b: Tree, o: Tree, t: Tree, path: string)
    requires b.List? && o.List? && t.List? && b.id == o.id == t.id
    requires SiblingUnique(b) && SiblingUnique(o) && SiblingUnique(t)
    requires MergeChildren(b, o, t, path).conflicts == [] && NoSharedAddition(Some(b), Some(o), Some(t))
    ensures AlikeKids(b, MergeChildren(b, o, t, path).nodes, MergeChildren(b, t, o, path).nodes)
    decreases b, 0
  {
    hide MergeChildren;
    hide MergeNode;
    hide SiblingUnique;
    hide Alike;
    hide SameOrder;
    hide Find;
    hide Names;
    hide NoSharedAddition;
    var xs, ys, bs := MergeChildren(b, o, t, path).nodes, MergeChildren(b, t, o, path).nodes, b.children;
    SwapOrder(b, o, t, path);
    forall c | c !in Names(bs) ensures Find(xs, c) == Find(ys, c) {
      SwapAddition(b, o, t, path, c);
    }
    forall k | 0 <= k < |bs| ensures Alike(bs[k], Find(xs, bs[k].id), Find(ys, bs[k].id)) {
      var c := bs[k].id;
      SwapChild(b, o, t, path, k);
      BaseChildClean(b, o, t, path, c);
      SwapAlike(Find(bs, c), Find(o.children, c), Find(t.children, c), path + "/" + c);
    }
  }

  lemma SharedEitherWay(b: Tree, o: Tree, t: Tree)
    requires b.List? && o.List? && t.List? && b.id == o.id == t.id
    requires SiblingUnique(b) && SiblingUnique(o) && SiblingUnique(t) && NoSharedAddition(Some(b), Some(o), Some(t))
    ensures DistinctIds(b.children) && DistinctIds(o.children) && DistinctIds(t.children)
    ensures !SlotClash(b.children, o.children, t.children) && !SlotClash(b.children, t.children, o.children)
    ensures NoSharedAddition(Some(b), Some(t), Some(o))
  {
    hide SlotClash;
    DistinctSiblings(b);
    DistinctSiblings(o);
    DistinctSiblings(t);
    NoSlotClash(b, o, t);
    NoSlotClash(b, t, o);
  }

  lemma SwapOrder(b: Tree, o: Tree, t: Tree, path: string)
    requires b.List? && o.List? && t.List? && b.id == o.id == t.id
    requires SiblingUnique(b) && SiblingUnique(o) && SiblingUnique(t)
    requires MergeChildren(b, o, t, path).conflicts == [] && NoSharedAddition(Some(b), Some(o), Some(t))
    ensures SameOrder(Names(b.children), MergeChildren(b, o, t, path).nodes, MergeChildren(b, t, o, path).nodes)
  {
    hide MergeChildren;
    hide SiblingUnique;
    hide NoSharedAddition;
    hide SlotClash;
    hide DistinctIds;
    hide Keep;
    hide Anchor;
    hide Names;
    SharedEitherWay(b, o, t);
    SwapMovesWithinSlots(b, o, t, path, 0, 0);
    var xs, ys, base := MergeChildren(b, o, t, path).nodes, MergeChildren(b, t, o, path).nodes, Names(b.children);
    forall i: nat, j: nat | i < |xs| && j < |ys| && xs[i].id == ys[j].id && xs[i].id !in base
      ensures Anchor(xs[..i], base) == Anchor(ys[..j], base)
    {
      SwapMovesWithinSlots(b, o, t, path, i, j);
    }
  }

  // An addition is the same node either way.
  lemma SwapAddition(b: Tree, o: Tree, t: Tree, path: string, c: NodeId)
    requires b.List? && o.List? && t.List? && b.id == o.id == t.id
    requires SiblingUnique(b) && SiblingUnique(o) && SiblingUnique(t)
    requires NoSharedAddition(Some(b), Some(o), Some(t)) && c !in Names(b.children)
    ensures Find(MergeChildren(b, o, t, path).nodes, c) == Find(MergeChildren(b, t, o, path).nodes, c)
  {
    hide MergeChildren;
    hide SiblingUnique;
    hide NoSharedAddition;
    hide SlotClash;
    hide DistinctIds;
    hide Find;
    hide Names;
    SharedEitherWay(b, o, t);
    MergedFind(b, o, t, path, c);
    MergedFind(b, t, o, path, c);
    OneSidedAddition(b, o, t, c);
  }

  // A base child is the merge of its versions either way.
  lemma SwapChild(b: Tree, o: Tree, t: Tree, path: string, k: nat)
    requires b.List? && o.List? && t.List? && b.id == o.id == t.id && k < |b.children|
    requires SiblingUnique(b) && SiblingUnique(o) && SiblingUnique(t) && NoSharedAddition(Some(b), Some(o), Some(t))
    ensures var c := b.children[k].id;
      && c in Names(b.children) && Find(b.children, c) == Some(b.children[k])
      && Find(MergeChildren(b, o, t, path).nodes, c) ==
           MergeNode(Find(b.children, c), Find(o.children, c), Find(t.children, c), path + "/" + c).node
      && Find(MergeChildren(b, t, o, path).nodes, c) ==
           MergeNode(Find(b.children, c), Find(t.children, c), Find(o.children, c), path + "/" + c).node
  {
    hide MergeChildren;
    hide MergeNode;
    hide SiblingUnique;
    hide NoSharedAddition;
    hide SlotClash;
    hide Find;
    hide Names;
    var c := b.children[k].id;
    SharedEitherWay(b, o, t);
    NamesIn(b.children, b.children[k]);
    FindIn(b.children, b.children[k]);
    MergedFind(b, o, t, path, c);
    MergedFind(b, t, o, path, c);
  }
}
