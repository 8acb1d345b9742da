/** When a conflict-free merge keeps node ids unique, and what it loses. */
module MergeIds {
  import opened Prelude
  import opened Trees
  import opened TreePaths
  import opened Merge
  import opened MergePaths

  ghost predicate UniqueOpt(t: Option<Tree>) {
    t.Some? ==> Unique(t.value)
  }

  /** An id is relocated when it sits at a path that base does not have: it is new, or it moved. */
  ghost predicate Relocated(b: Option<Tree>, t: Option<Tree>, x: NodeId) {
    exists p :: Added(b, t, p) && Last(p) == x
  }

  /** One id placed by both sides, neither placement covering the other. */
  ghost predicate Clash(b: Option<Tree>, o: Option<Tree>, t: Option<Tree>) {
    exists p, q :: Added(b, o, p) && Added(b, t, q) && !Subsumed(b, o, t, q) && Last(p) == Last(q)
  }

  // ----- distinct sibling ids

  lemma DistinctConcat(x: seq<Tree>, y: seq<Tree>)
    ensures DistinctIds(x + y) <==> DistinctIds(x) && DistinctIds(y) && Names(x) !! Names(y)
  {
    var z := x + y;
    if DistinctIds(z) {
      assert forall i :: 0 <= i < |x| ==> z[i] == x[i];
      assert forall i :: 0 <= i < |y| ==> z[|x| + i] == y[i];
      forall i, j | 0 <= i < j < |y| ensures y[i].id != y[j].id {
        assert z[|x| + i].id != z[|x| + j].id;
      }
      forall i, j | 0 <= i < |x| && 0 <= j < |y| ensures x[i].id != y[j].id {
        assert z[i].id != z[|x| + j].id;
      }
    }
    if DistinctIds(x) && DistinctIds(y) && Names(x) !! Names(y) {
      forall i, j | 0 <= i < j < |z| ensures z[i].id != z[j].id {
        if i < |x| <= j {
          assert z[i].id in Names(x) && y[j - |x|].id in Names(y);
        }
      }
    }
  }

  lemma {:induction false} DedupDistinct(cs: seq<Tree>)
    ensures DistinctIds(Dedup(cs)) && Names(Dedup(cs)) == Names(cs)
  {
    if cs != [] {
      var init, last := cs[..|cs| - 1], cs[|cs| - 1];
      DedupDistinct(init);
      assert cs == init + [last];
      NamesConcat(init, [last]);
      NamesConcat(Dedup(init), [last]);
      assert Names([last]) == {last.id} by {
        assert [last][0] == last;
      }
      DistinctConcat(Dedup(init), [last]);
      assert Dedup(init) + [] == Dedup(init);
    }
  }

  // The ids of a slot, and of everything the slots and base children from k on contribute.
  ghost function SlotIds(os: seq<Tree>, ts: seq<Tree>, base: set<NodeId>, a: Option<NodeId>): set<NodeId> {
    Names(MergeSlot(os, ts, base, a))
  }

  lemma SlotIdsAre(os: seq<Tree>, ts: seq<Tree>, base: set<NodeId>, a: Option<NodeId>)
    ensures DistinctIds(MergeSlot(os, ts, base, a))
    ensures SlotIds(os, ts, base, a) == Names(Slot(os, base, a)) + Names(Slot(ts, base, a))
  {
    DedupDistinct(Slot(os, base, a) + Slot(ts, base, a));
    NamesConcat(Slot(os, base, a), Slot(ts, base, a));
  }

  /** Some id is added by one side behind one base sibling, by the other behind another. */
  ghost predicate SlotClash(bs: seq<Tree>, os: seq<Tree>, ts: seq<Tree>) {
    exists i, j ::
      && 0 <= i < |os| && 0 <= j < |ts| && os[i].id == ts[j].id && os[i].id !in Names(bs)
      && Anchor(os[..i], Names(bs)) != Anchor(ts[..j], Names(bs))
  }

  lemma SlotsDisjoint(bs: seq<Tree>, os: seq<Tree>, ts: seq<Tree>, a: Option<NodeId>, d: Option<NodeId>)
    requires DistinctIds(os) && DistinctIds(ts) && !SlotClash(bs, os, ts) && a != d
    ensures SlotIds(os, ts, Names(bs), a) !! SlotIds(os, ts, Names(bs), d)
  {
    var base := Names(bs);
    SlotIdsAre(os, ts, base, a);
    SlotIdsAre(os, ts, base, d);
    forall x | x in SlotIds(os, ts, base, a) && x in SlotIds(os, ts, base, d) ensures false {
      var oa, i := PlaceOf(os, ts, base, a, x);
      var od, j := PlaceOf(os, ts, base, d, x);
    }
  }

  // Where an id of a merged slot was added, by ours or by theirs.
  lemma PlaceOf(os: seq<Tree>, ts: seq<Tree>, base: set<NodeId>, a: Option<NodeId>, x: NodeId)
    returns (ours: bool, i: nat)
    requires x in Names(Slot(os, base, a)) + Names(Slot(ts, base, a))
    ensures x !in base
    ensures var cs := if ours then os else ts; i < |cs| && cs[i].id == x && Anchor(cs[..i], base) == a
  {
    ours := x in Names(Slot(os, base, a));
    var cs := if ours then os else ts;
    var slot := Slot(cs, base, a);
    var n :| 0 <= n < |slot| && slot[n].id == x;
    SlotElem(cs, base, a, slot[n]);
    i :| 0 <= i < |cs| && cs[i] == slot[n] && slot[n].id !in base && Anchor(cs[..i], base) == a;
  }

  ghost predicate InFrom(bs: seq<Tree>, os: seq<Tree>, ts: seq<Tree>, k: nat, x: NodeId)
    requires k <= |bs|
  {
    exists j :: k <= j < |bs| && (x == bs[j].id || x in SlotIds(os, ts, Names(bs), Some(bs[j].id)))
  }

  lemma SlotOutsideBase(os: seq<Tree>, ts: seq<Tree>, base: set<NodeId>, a: Option<NodeId>)
    ensures SlotIds(os, ts, base, a) !! base
  {
    SlotIdsAre(os, ts, base, a);
    forall x | x in SlotIds(os, ts, base, a) ensures x !in base {
      var ours, i := PlaceOf(os, ts, base, a, x);
    }
  }

  lemma {:induction false} FromDistinct(bs: seq<Tree>, os: seq<Tree>, ts: seq<Tree>, path: string, k: nat)
    requires DistinctIds(bs) && DistinctIds(os) && DistinctIds(ts) && !SlotClash(bs, os, ts)
    requires k <= |bs|
    ensures DistinctIds(MergeFrom(bs, os, ts, path, k).nodes)
    ensures forall x :: x in Names(MergeFrom(bs, os, ts, path, k).nodes) ==> InFrom(bs, os, ts, k, x)
    decreases |bs| - k
  {
    hide MergeChild;
    hide MergeSlot;
    hide SlotClash;
    if k < |bs| {
      var m := OptSeq(MergeChild(bs, os, ts, path, k).node);
      var slot := MergeSlot(os, ts, Names(bs), Some(bs[k].id));
      var rest := MergeFrom(bs, os, ts, path, k + 1).nodes;
      FromDistinct(bs, os, ts, path, k + 1);
      ChildNames(bs, os, ts, path, k);
      SlotIdsAre(os, ts, Names(bs), Some(bs[k].id));
      SlotOutsideBase(os, ts, Names(bs), Some(bs[k].id));
      NamesIn(bs, bs[k]);
      hide MergeFrom;
      forall x | x in Names(rest) ensures x != bs[k].id && x !in SlotIds(os, ts, Names(bs), Some(bs[k].id)) {
        assert InFrom(bs, os, ts, k + 1, x);
        var j :| k + 1 <= j < |bs| && (x == bs[j].id || x in SlotIds(os, ts, Names(bs), Some(bs[j].id)));
        NamesIn(bs, bs[j]);
        SlotOutsideBase(os, ts, Names(bs), Some(bs[j].id));
        SlotsDisjoint(bs, os, ts, Some(bs[k].id), Some(bs[j].id));
      }
      DistinctConcat(m, slot);
      DistinctConcat(m + slot, rest);
      NamesConcat(m, slot);
      NamesConcat(m + slot, rest);
      forall x | x in Names(m + slot + rest) ensures InFrom(bs, os, ts, k, x) {
        if x in Names(rest) {
          var j :| k + 1 <= j < |bs| && (x == bs[j].id || x in SlotIds(os, ts, Names(bs), Some(bs[j].id)));
        }
      }
    }
  }

  lemma ChildNames(bs: seq<Tree>, os: seq<Tree>, ts: seq<Tree>, path: string, k: nat)
    requires k < |bs|
    ensures var m := OptSeq(MergeChild(bs, os, ts, path, k).node); DistinctIds(m) && Names(m) <= {bs[k].id}
  {
    hide MergeNode;
    var id := bs[k].id;
    MergedId(Find(bs, id), Find(os, id), Find(ts, id), path + "/" + id, id);
  }

  lemma ChildrenDistinct(b: Tree, o: Tree, t: Tree, path: string)
    requires b.List? && o.List? && t.List?
    requires DistinctIds(b.children) && DistinctIds(o.children) && DistinctIds(t.children)
    requires !SlotClash(b.children, o.children, t.children)
    ensures DistinctIds(MergeChildren(b, o, t, path).nodes)
  {
    var bs, os, ts := b.children, o.children, t.children;
    hide MergeFrom;
    hide MergeSlot;
    hide SlotClash;
    FromDistinct(bs, os, ts, path, 0);
    SlotIdsAre(os, ts, Names(bs), None);
    SlotOutsideBase(os, ts, Names(bs), None);
    var rest := MergeFrom(bs, os, ts, path, 0).nodes;
    forall x | x in Names(rest) ensures x !in SlotIds(os, ts, Names(bs), None) {
      assert InFrom(bs, os, ts, 0, x);
      var j :| 0 <= j < |bs| && (x == bs[j].id || x in SlotIds(os, ts, Names(bs), Some(bs[j].id)));
      NamesIn(bs, bs[j]);
      SlotsDisjoint(bs, os, ts, None, Some(bs[j].id));
    }
    DistinctConcat(MergeSlot(os, ts, Names(bs), None), rest);
  }

  // ----- no clash: the merged tree is valid

  ghost predicate FromPart(bs: seq<Tree>, os: seq<Tree>, ts: seq<Tree>, path: string, j: nat, x: Tree)
    requires j < |bs|
  {
    MergeChild(bs, os, ts, path, j).node == Some(x) || x in MergeSlot(os, ts, Names(bs), Some(bs[j].id))
  }

  lemma {:induction false} FromMember(bs: seq<Tree>, os: seq<Tree>, ts: seq<Tree>, path: string, k: nat, x: Tree)
    requires k <= |bs|
    ensures x in MergeFrom(bs, os, ts, path, k).nodes <==> exists j :: k <= j < |bs| && FromPart(bs, os, ts, path, j, x)
    decreases |bs| - k
  {
    hide MergeChild;
    hide MergeSlot;
    if k < |bs| {
      FromMember(bs, os, ts, path, k + 1, x);
      assert FromPart(bs, os, ts, path, k, x) <==>
        x in OptSeq(MergeChild(bs, os, ts, path, k).node) + MergeSlot(os, ts, Names(bs), Some(bs[k].id));
      hide FromPart;
    }
  }

  lemma SlotMember(os: seq<Tree>, ts: seq<Tree>, base: set<NodeId>, a: Option<NodeId>, x: Tree)
    requires DistinctIds(os) && DistinctIds(ts) && x in MergeSlot(os, ts, base, a)
    ensures x in os || x in ts
  {
    MergeSlotElem(os, ts, base, a, x);
  }

  // A member of the merged children is a side's own node, or the merge of one base child.
  ghost predicate Sourced(bs: seq<Tree>, os: seq<Tree>, ts: seq<Tree>, path: string, x: Tree) {
    x in os || x in ts || exists j :: 0 <= j < |bs| && MergeChild(bs, os, ts, path, j).node == Some(x)
  }

  lemma ChildrenMember(b: Tree, o: Tree, t: Tree, path: string, x: Tree)
    requires b.List? && o.List? && t.List? && DistinctIds(o.children) && DistinctIds(t.children)
    requires x in MergeChildren(b, o, t, path).nodes
    ensures Sourced(b.children, o.children, t.children, path, x)
  {
    hide MergeChild;
    hide MergeSlot;
    hide MergeFrom;
    hide Reorder;
    if x in MergeSlot(o.children, t.children, Names(b.children), None) {
      SlotMember(o.children, t.children, Names(b.children), None, x);
    } else {
      FromSourced(b.children, o.children, t.children, path, x);
    }
  }

  lemma FromSourced(bs: seq<Tree>, os: seq<Tree>, ts: seq<Tree>, path: string, x: Tree)
    requires DistinctIds(os) && DistinctIds(ts)
    requires x in MergeFrom(bs, os, ts, path, 0).nodes
    ensures Sourced(bs, os, ts, path, x)
  {
    hide MergeChild;
    hide MergeSlot;
    hide MergeFrom;
    FromMember(bs, os, ts, path, 0, x);
    var j :| 0 <= j < |bs| && FromPart(bs, os, ts, path, j, x);
    if MergeChild(bs, os, ts, path, j).node != Some(x) {
      SlotMember(os, ts, Names(bs), Some(bs[j].id), x);
    }
  }

  lemma FindUnique(t: Tree, id: NodeId)
    requires t.List? && Unique(t)
    ensures UniqueOpt(Find(t.children, id))
  {
  }

  lemma AddedBelow(b: Tree, t: Tree, q: seq<NodeId>)
    requires b.List? && t.List? && b.id == t.id && DistinctIds(b.children) && DistinctIds(t.children)
    requires q != [] && Added(Find(b.children, q[0]), Find(t.children, q[0]), q)
    ensures Added(Some(b), Some(t), [b.id] + q) && Last([b.id] + q) == Last(q)
  {
    assert ([b.id] + q)[1..] == q;
    HasInFind(b.children, q);
    HasInFind(t.children, q);
  }

  lemma ClashBelow(b: Tree, o: Tree, t: Tree, c: NodeId)
    requires b.List? && o.List? && t.List? && b.id == o.id == t.id && o != t
    requires DistinctIds(b.children) && DistinctIds(o.children) && DistinctIds(t.children)
    requires c in Names(b.children)
    requires Clash(Find(b.children, c), Find(o.children, c), Find(t.children, c))
    ensures Clash(Some(b), Some(o), Some(t))
  {
    var bb, oo, tt := Find(b.children, c), Find(o.children, c), Find(t.children, c);
    var p, q :| Added(bb, oo, p) && Added(bb, tt, q) && !Subsumed(bb, oo, tt, q) && Last(p) == Last(q);
    AddedBelow(b, o, p);
    AddedBelow(b, t, q);
    assert ([b.id] + q)[1..] == q;
    assert !Subsumed(Some(b), Some(o), Some(t), [b.id] + q);
  }

  lemma AddedChild(b: Tree, t: Tree, i: nat)
    requires b.List? && t.List? && b.id == t.id && i < |t.children| && t.children[i].id !in Names(b.children)
    ensures Added(Some(b), Some(t), [b.id, t.children[i].id])
  {
    var p := [b.id, t.children[i].id];
    assert p[1..] == [t.children[i].id];
    assert t.children[i] in t.children && Has(t.children[i], p[1..]);
    forall c | c in b.children ensures c.id in Names(b.children) {
      NamesIn(b.children, c);
    }
    assert HasIn(t.children, p[1..]) && !HasIn(b.children, p[1..]);
    assert Has(t, p) && !Has(b, p);
  }

  lemma SlotClashIsClash(b: Tree, o: Tree, t: Tree)
    requires b.List? && o.List? && t.List? && b.id == o.id == t.id && o != t
    requires DistinctIds(o.children) && DistinctIds(t.children)
    requires SlotClash(b.children, o.children, t.children)
    ensures Clash(Some(b), Some(o), Some(t))
  {
    hide Anchor;
    hide Names;
    hide Added;
    hide SameSlot;
    var bs, os, ts := b.children, o.children, t.children;
    var i, j :| 0 <= i < |os| && 0 <= j < |ts| && os[i].id == ts[j].id && os[i].id !in Names(bs)
                && Anchor(os[..i], Names(bs)) != Anchor(ts[..j], Names(bs));
    AddedChild(b, o, i);
    AddedChild(b, t, j);
    NotSameSlot(os, ts, Names(bs), i, j);
    var p := [b.id, os[i].id];
    assert p[1..] == [os[i].id];
    assert !Subsumed(Some(b), Some(o), Some(t), p);
  }

  lemma NotSameSlot(os: seq<Tree>, ts: seq<Tree>, base: set<NodeId>, i: nat, j: nat)
    requires DistinctIds(os) && DistinctIds(ts) && i < |os| && j < |ts| && os[i].id == ts[j].id
    requires Anchor(os[..i], base) != Anchor(ts[..j], base)
    ensures !SameSlot(os, ts, base, os[i].id)
  {
    hide Anchor;
  }

  lemma {:induction false} MergedSiblings(b: Option<Tree>, o: Option<Tree>, t: Option<Tree>, path: string)
    requires UniqueOpt(b) && UniqueOpt(o) && UniqueOpt(t)
    requires MergeNode(b, o, t, path).conflicts == [] && !Clash(b, o, t)
    ensures Siblings(MergeNode(b, o, t, path).node)
    decreases Rank(b), 1
  {
    if o.Some? {
      UniqueIsSiblingUnique(o.value);
    }
    if t.Some? {
      UniqueIsSiblingUnique(t.value);
    }
    if o != b && t != b && o != t {
      UniqueIsSiblingUnique(b.value);
      MergedKidsSiblings(b.value, o.value, t.value, path);
    }
  }

  lemma {:induction false} MergedKidsSiblings(b: Tree, o: Tree, t: Tree, path: string)
    requires b.List? && o.List? && t.List? && b.id == o.id == t.id && o != t
    requires Unique(b) && Unique(o) && Unique(t) && SiblingUnique(b) && SiblingUnique(o) && SiblingUnique(t)
    requires MergeChildren(b, o, t, path).conflicts == [] && !Clash(Some(b), Some(o), Some(t))
    ensures DistinctIds(MergeChildren(b, o, t, path).nodes)
    ensures forall x :: x in MergeChildren(b, o, t, path).nodes ==> SiblingUnique(x)
    decreases b, 0
  {
    var bs, os, ts := b.children, o.children, t.children;
    hide Clash;
    if SlotClash(bs, os, ts) {
      SlotClashIsClash(b, o, t);
      assert false;
    }
    hide SlotClash;
    ChildrenDistinct(b, o, t, path);
    forall x | x in MergeChildren(b, o, t, path).nodes ensures SiblingUnique(x) {
      ChildrenMember(b, o, t, path, x);
      if x !in os && x !in ts {
        var j :| 0 <= j < |bs| && MergeChild(bs, os, ts, path, j).node == Some(x);
        var id := bs[j].id;
        ChildClean(b, o, t, path, j);
        hide MergeChildren;
        assert MergeChild(bs, os, ts, path, j) == MergeNode(Find(bs, id), Find(os, id), Find(ts, id), path + "/" + id);
        hide MergeNode;
        NamesIn(bs, bs[j]);
        FindUnique(b, id);
        FindUnique(o, id);
        FindUnique(t, id);
        if Clash(Find(bs, id), Find(os, id), Find(ts, id)) {
          ClashBelow(b, o, t, id);
          assert false;
        }
        MergedSiblings(Find(bs, id), Find(os, id), Find(ts, id), path + "/" + id);
      }
    }
  }

  lemma OnePath(o: Option<Tree>, p: seq<NodeId>, q: seq<NodeId>)
    requires UniqueOpt(o) && HasOpt(o, p) && HasOpt(o, q) && Last(p) == Last(q)
    ensures p == q
  {
    UniqueIsPathUnique(o.value, p, q);
  }

  lemma NoClashUnique(b: Option<Tree>, o: Option<Tree>, t: Option<Tree>, path: string)
    requires UniqueOpt(b) && UniqueOpt(o) && UniqueOpt(t)
    requires MergeNode(b, o, t, path).conflicts == [] && !Clash(b, o, t)
    ensures UniqueOpt(MergeNode(b, o, t, path).node)
  {
    hide MergeNode;
    var m := MergeNode(b, o, t, path).node;
    if m.Some? {
      MergedSiblings(b, o, t, path);
      SiblingsOf(b);
      SiblingsOf(o);
      SiblingsOf(t);
      forall p, q | Has(m.value, p) && Has(m.value, q) && Last(p) == Last(q) ensures p == q {
        PathsMerge(b, o, t, path, p);
        PathsMerge(b, o, t, path, q);
        if HasOpt(o, p) && HasOpt(o, q) {
          OnePath(o, p, q);
        } else if HasOpt(t, p) && HasOpt(t, q) {
          OnePath(t, p, q);
        }
      }
      PathUniqueIsUnique(m.value);
    }
  }

  lemma SiblingsOf(t: Option<Tree>)
    requires UniqueOpt(t)
    ensures Siblings(t)
  {
    if t.Some? {
      UniqueIsSiblingUnique(t.value);
    }
  }

  // ----- a clash: the merged tree repeats an id

  lemma FromNames(bs: seq<Tree>, os: seq<Tree>, ts: seq<Tree>, path: string, k: nat, j: nat, c: NodeId)
    requires k <= j < |bs| && c in SlotIds(os, ts, Names(bs), Some(bs[j].id))
    ensures c in Names(MergeFrom(bs, os, ts, path, k).nodes)
  {
    hide MergeFrom;
    hide MergeChild;
    hide MergeSlot;
    var slot := MergeSlot(os, ts, Names(bs), Some(bs[j].id));
    var n :| 0 <= n < |slot| && slot[n].id == c;
    assert FromPart(bs, os, ts, path, j, slot[n]);
    FromMember(bs, os, ts, path, k, slot[n]);
    NamesIn(MergeFrom(bs, os, ts, path, k).nodes, slot[n]);
  }

  lemma {:induction false} FromTwice(bs: seq<Tree>, os: seq<Tree>, ts: seq<Tree>, path: string, k: nat, i: nat, j: nat, c: NodeId)
    requires k <= i < j < |bs|
    requires c in SlotIds(os, ts, Names(bs), Some(bs[i].id)) && c in SlotIds(os, ts, Names(bs), Some(bs[j].id))
    ensures !DistinctIds(MergeFrom(bs, os, ts, path, k).nodes)
    decreases i - k
  {
    hide MergeChild;
    hide MergeSlot;
    var m := OptSeq(MergeChild(bs, os, ts, path, k).node);
    var slot := MergeSlot(os, ts, Names(bs), Some(bs[k].id));
    var rest := MergeFrom(bs, os, ts, path, k + 1).nodes;
    assert MergeFrom(bs, os, ts, path, k).nodes == m + slot + rest;
    DistinctConcat(m + slot, rest);
    if k == i {
      NamesConcat(m, slot);
      FromNames(bs, os, ts, path, k + 1, j, c);
    } else {
      FromTwice(bs, os, ts, path, k + 1, i, j, c);
    }
  }

  lemma SlotClashTwice(b: Tree, o: Tree, t: Tree, path: string, i: nat, j: nat)
    requires b.List? && o.List? && t.List? && i < |o.children| && j < |t.children|
    requires o.children[i].id == t.children[j].id && o.children[i].id !in Names(b.children)
    requires Anchor(o.children[..i], Names(b.children)) != Anchor(t.children[..j], Names(b.children))
    ensures !DistinctIds(MergeChildren(b, o, t, path).nodes)
  {
    var bs, os, ts, base := b.children, o.children, t.children, Names(b.children);
    var c := os[i].id;
    var a, d := Anchor(os[..i], base), Anchor(ts[..j], base);
    InSlotName(os, base, i);
    InSlotName(ts, base, j);
    SlotIdsAre(os, ts, base, a);
    SlotIdsAre(os, ts, base, d);
    AnchorIn(os[..i], base);
    AnchorIn(ts[..j], base);
    SlotTwice(b, o, t, path, a, d, c);
  }

  lemma SlotTwice(b: Tree, o: Tree, t: Tree, path: string, a: Option<NodeId>, d: Option<NodeId>, c: NodeId)
    requires b.List? && o.List? && t.List? && a != d
    requires (a.Some? ==> a.value in Names(b.children)) && (d.Some? ==> d.value in Names(b.children))
    requires c in SlotIds(o.children, t.children, Names(b.children), a)
    requires c in SlotIds(o.children, t.children, Names(b.children), d)
    ensures !DistinctIds(MergeChildren(b, o, t, path).nodes)
  {
    hide MergeFrom;
    hide MergeSlot;
    hide Reorder;
    var bs, os, ts, base := b.children, o.children, t.children, Names(b.children);
    DistinctConcat(MergeSlot(os, ts, base, None), MergeFrom(bs, os, ts, path, 0).nodes);
    if a.Some? && d.Some? {
      var k :| 0 <= k < |bs| && bs[k].id == a.value;
      var n :| 0 <= n < |bs| && bs[n].id == d.value;
      FromTwice(bs, os, ts, path, 0, if k < n then k else n, if k < n then n else k, c);
    } else {
      var e := if a.Some? then a.value else d.value;
      var k :| 0 <= k < |bs| && bs[k].id == e;
      FromNames(bs, os, ts, path, 0, k, c);
    }
  }

  lemma InSlotName(cs: seq<Tree>, base: set<NodeId>, i: nat)
    requires i < |cs| && cs[i].id !in base
    ensures cs[i].id in Names(Slot(cs, base, Anchor(cs[..i], base)))
  {
    SlotElem(cs, base, Anchor(cs[..i], base), cs[i]);
    NamesIn(Slot(cs, base, Anchor(cs[..i], base)), cs[i]);
  }

  lemma ChildInMerge(b: Tree, o: Tree, t: Tree, path: string, k: nat)
    requires b.List? && o.List? && t.List? && k < |b.children|
    requires MergeChild(b.children, o.children, t.children, path, k).node.Some?
    ensures MergeChild(b.children, o.children, t.children, path, k).node.value in MergeChildren(b, o, t, path).nodes
  {
    var bs, os, ts := b.children, o.children, t.children;
    hide MergeChild;
    hide MergeSlot;
    hide MergeFrom;
    hide Reorder;
    var x := MergeChild(bs, os, ts, path, k).node.value;
    assert FromPart(bs, os, ts, path, k, x);
    FromMember(bs, os, ts, path, 0, x);
  }

  // The same path placed twice, neither placement covering the other.
  lemma {:induction false} Twice(b: Option<Tree>, o: Option<Tree>, t: Option<Tree>, path: string, p: seq<NodeId>)
    requires Siblings(b) && Siblings(o) && Siblings(t)
    requires MergeNode(b, o, t, path).conflicts == []
    requires Added(b, o, p) && Added(b, t, p) && !Subsumed(b, o, t, p)
    ensures !UniqueOpt(MergeNode(b, o, t, path).node)
    decreases |p|, 1, 0
  {
    assert o != b && t != b && o != t && b.Some?;
    assert Has(b.value, [b.value.id]);
    assert |p| > 1 && p == [p[0]] + p[1..];
    TwiceBelow(b.value, o.value, t.value, path, p[1..]);
  }

  lemma {:induction false} TwiceBelow(b: Tree, o: Tree, t: Tree, path: string, q: seq<NodeId>)
    requires b.List? && o.List? && t.List? && SiblingUnique(b) && SiblingUnique(o) && SiblingUnique(t)
    requires MergeChildren(b, o, t, path).conflicts == [] && q != []
    requires !HasIn(b.children, q) && HasIn(o.children, q) && HasIn(t.children, q)
    requires !SubsumedIn(b.children, o.children, t.children, q)
    ensures !Unique(List(b.id, MergeChildren(b, o, t, path).nodes))
    decreases |q|, 2, 0
  {
    var bs, os, ts, id := b.children, o.children, t.children, q[0];
    var m := List(b.id, MergeChildren(b, o, t, path).nodes);
    if id in Names(bs) {
      var k :| 0 <= k < |bs| && bs[k].id == id;
      ChildClean(b, o, t, path, k);
      HasInFind(bs, q);
      HasInFind(os, q);
      HasInFind(ts, q);
      TwiceChild(b, o, t, path, k, q);
    } else {
      var c :| c in os && Has(c, q);
      var d :| d in ts && Has(d, q);
      var i :| 0 <= i < |os| && os[i] == c;
      var j :| 0 <= j < |ts| && ts[j] == d;
      hide MergeChildren;
      SlotClashTwice(b, o, t, path, i, j);
      if Unique(m) {
        UniqueIsSiblingUnique(m);
        assert false;
      }
    }
  }

  lemma {:induction false} TwiceChild(b: Tree, o: Tree, t: Tree, path: string, k: nat, q: seq<NodeId>)
    requires b.List? && o.List? && t.List? && SiblingUnique(b) && SiblingUnique(o) && SiblingUnique(t)
    requires k < |b.children| && q != [] && b.children[k].id == q[0]
    requires MergeChild(b.children, o.children, t.children, path, k).conflicts == []
    requires var bb, oo, tt := Find(b.children, q[0]), Find(o.children, q[0]), Find(t.children, q[0]);
      Added(bb, oo, q) && Added(bb, tt, q) && !Subsumed(bb, oo, tt, q)
    ensures !Unique(List(b.id, MergeChildren(b, o, t, path).nodes))
    decreases |q|, 1, 1
  {
    var bs, os, ts, id := b.children, o.children, t.children, q[0];
    hide Subsumed;
    hide MergeChildren;
    assert MergeChild(bs, os, ts, path, k) == MergeNode(Find(bs, id), Find(os, id), Find(ts, id), path + "/" + id);
    hide MergeNode;
    FindSiblings(b, id);
    FindSiblings(o, id);
    FindSiblings(t, id);
    Twice(Find(bs, id), Find(os, id), Find(ts, id), path + "/" + id, q);
    ChildInMerge(b, o, t, path, k);
    hide MergeChild;
  }

  lemma ClashNotUnique(b: Option<Tree>, o: Option<Tree>, t: Option<Tree>, path: string)
    requires UniqueOpt(b) && UniqueOpt(o) && UniqueOpt(t)
    requires MergeNode(b, o, t, path).conflicts == [] && Clash(b, o, t)
    ensures !UniqueOpt(MergeNode(b, o, t, path).node)
  {
    hide MergeNode;
    hide Subsumed;
    SiblingsOf(b);
    SiblingsOf(o);
    SiblingsOf(t);
    var p, q :| Added(b, o, p) && Added(b, t, q) && !Subsumed(b, o, t, q) && Last(p) == Last(q);
    var m := MergeNode(b, o, t, path).node;
    PathsMerge(b, o, t, path, p);
    PathsMerge(b, o, t, path, q);
    if p == q {
      Twice(b, o, t, path, p);
    } else if UniqueOpt(m) {
      UniqueIsPathUnique(m.value, p, q);
    }
  }

  // ----- the theorems

  /** A conflict-free merge of valid trees keeps node ids unique exactly when no id is placed by both
      sides at places that do not cover each other. */
  lemma UniqueExactly(b: Option<Tree>, o: Option<Tree>, t: Option<Tree>, path: string)
    requires UniqueOpt(b) && UniqueOpt(o) && UniqueOpt(t)
    requires MergeNode(b, o, t, path).conflicts == []
    ensures UniqueOpt(MergeNode(b, o, t, path).node) <==> !Clash(b, o, t)
  {
    if Clash(b, o, t) {
      ClashNotUnique(b, o, t, path);
    } else {
      NoClashUnique(b, o, t, path);
    }
  }

  /** Every id of a conflict-free merge comes from ours or theirs. */
  lemma IdsFromSides(b: Option<Tree>, o: Option<Tree>, t: Option<Tree>, path: string, x: NodeId)
    requires Siblings(b) && Siblings(o) && Siblings(t)
    requires MergeNode(b, o, t, path).conflicts == []
    requires MergeNode(b, o, t, path).node.Some? && x in IdSet(MergeNode(b, o, t, path).node.value)
    ensures (o.Some? && x in IdSet(o.value)) || (t.Some? && x in IdSet(t.value))
  {
    hide MergeNode;
    var p := IdPath(MergeNode(b, o, t, path).node.value, x);
    PathsMerge(b, o, t, path, p);
    PathId(if HasOpt(o, p) then o.value else t.value, p);
  }
}
