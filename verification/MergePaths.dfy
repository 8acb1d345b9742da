/** What a conflict-free merge contains, path by path. */
module MergePaths {
  import opened Prelude
  import opened Trees
  import opened Merge

  ghost predicate Siblings(t: Option<Tree>) {
    t.Some? ==> SiblingUnique(t.value)
  }

  /** Both sides add a child `c` behind the same base sibling. */
  ghost predicate SameSlot(os: seq<Tree>, ts: seq<Tree>, base: set<NodeId>, c: NodeId) {
    && c !in base
    && exists i, j ::
         && 0 <= i < |os| && 0 <= j < |ts|
         && os[i].id == c && ts[j].id == c
         && Anchor(os[..i], base) == Anchor(ts[..j], base)
  }

  /** Theirs at path `p` is covered by ours: an enclosing node is the same on both sides, or both
      sides add an enclosing child of one id to the same slot. */
  ghost predicate Subsumed(b: Option<Tree>, o: Option<Tree>, t: Option<Tree>, p: seq<NodeId>)
    decreases |p|, 0
  {
    || o == t
    || (&& b.Some? && o.Some? && t.Some? && b.value.List? && o.value.List? && t.value.List?
        && b.value.id == o.value.id == t.value.id
        && |p| > 1
        && SubsumedIn(b.value.children, o.value.children, t.value.children, p[1..]))
  }

  ghost predicate SubsumedIn(bs: seq<Tree>, os: seq<Tree>, ts: seq<Tree>, q: seq<NodeId>)
    requires q != []
    decreases |q|, 1
  {
    if q[0] in Names(bs) then Subsumed(Find(bs, q[0]), Find(os, q[0]), Find(ts, q[0]), q)
    else SameSlot(os, ts, Names(bs), q[0])
  }

  ghost predicate Added(b: Option<Tree>, t: Option<Tree>, p: seq<NodeId>) {
    HasOpt(t, p) && !HasOpt(b, p)
  }

  /** Three-way merge of path sets: what all three have, and what either side added. */
  ghost predicate MergedPath(b: Option<Tree>, o: Option<Tree>, t: Option<Tree>, p: seq<NodeId>) {
    || (HasOpt(b, p) && HasOpt(o, p) && HasOpt(t, p))
    || Added(b, o, p)
    || (Added(b, t, p) && !Subsumed(b, o, t, p))
  }

  // ----- sibling lists

  lemma NamesIn(ts: seq<Tree>, c: Tree)
    requires c in ts
    ensures c.id in Names(ts)
  {
    var i :| 0 <= i < |ts| && ts[i] == c;
  }

  lemma DistinctSame(ts: seq<Tree>, c: Tree, d: Tree)
    requires DistinctIds(ts) && c in ts && d in ts && c.id == d.id
    ensures c == d
  {
    var i :| 0 <= i < |ts| && ts[i] == c;
    var j :| 0 <= j < |ts| && ts[j] == d;
  }

  lemma HasInFind(ts: seq<Tree>, p: seq<NodeId>)
    requires DistinctIds(ts) && p != []
    ensures HasIn(ts, p) <==> HasOpt(Find(ts, p[0]), p)
  {
    if HasIn(ts, p) {
      var c :| c in ts && Has(c, p);
      assert c.id == p[0];
      DistinctSame(ts, c, Find(ts, p[0]).value);
    }
  }

  lemma HasInConcat(a: seq<Tree>, b: seq<Tree>, p: seq<NodeId>)
    ensures HasIn(a + b, p) <==> HasIn(a, p) || HasIn(b, p)
  {
    if HasIn(a, p) {
      var c :| c in a && Has(c, p);
      assert c in a + b;
    }
    if HasIn(b, p) {
      var c :| c in b && Has(c, p);
      assert c in a + b;
    }
  }

  lemma HasInOpt(x: Option<Tree>, p: seq<NodeId>)
    ensures HasIn(OptSeq(x), p) <==> HasOpt(x, p)
  {
    if x.Some? {
      assert x.value in OptSeq(x);
    }
  }

  lemma NamesConcat(a: seq<Tree>, b: seq<Tree>)
    ensures Names(a + b) == Names(a) + Names(b)
  {
    forall x | x in Names(a) + Names(b) ensures x in Names(a + b) {
      if x in Names(a) {
        var i :| 0 <= i < |a| && a[i].id == x;
        NamesIn(a + b, (a + b)[i]);
      } else {
        var i :| 0 <= i < |b| && b[i].id == x;
        NamesIn(a + b, (a + b)[|a| + i]);
      }
    }
    forall x | x in Names(a + b) ensures x in Names(a) + Names(b) {
      var i :| 0 <= i < |a + b| && (a + b)[i].id == x;
      NamesIn(if i < |a| then a else b, (a + b)[i]);
    }
  }

  // ----- slots

  ghost predicate InSlot(cs: seq<Tree>, base: set<NodeId>, a: Option<NodeId>, c: Tree) {
    exists i :: 0 <= i < |cs| && cs[i] == c && c.id !in base && Anchor(cs[..i], base) == a
  }

  lemma {:induction false} SlotElem(cs: seq<Tree>, base: set<NodeId>, a: Option<NodeId>, c: Tree)
    ensures c in Slot(cs, base, a) <==> InSlot(cs, base, a, c)
  {
    if cs != [] {
      var n := |cs| - 1;
      var init := cs[..n];
      SlotElem(init, base, a, c);
      assert forall i :: 0 <= i <= n ==> init[..i] == cs[..i];
      if InSlot(init, base, a, c) {
        var i :| 0 <= i < n && init[i] == c && c.id !in base && Anchor(init[..i], base) == a;
        assert cs[i] == c && Anchor(cs[..i], base) == a;
      }
      if InSlot(cs, base, a, c) {
        var i :| 0 <= i < |cs| && cs[i] == c && c.id !in base && Anchor(cs[..i], base) == a;
        if i < n {
          assert init[i] == c && Anchor(init[..i], base) == a;
        }
      }
    }
  }

  // The first child of its id in the list.
  ghost predicate FirstAt(cs: seq<Tree>, i: nat, c: Tree) {
    i < |cs| && cs[i] == c && c.id !in Names(cs[..i])
  }

  lemma {:induction false} DedupElem(cs: seq<Tree>, c: Tree)
    ensures c in Dedup(cs) <==> exists i: nat :: FirstAt(cs, i, c)
  {
    if cs != [] {
      var n := |cs| - 1;
      DedupElem(cs[..n], c);
      forall i: nat ensures FirstAt(cs, i, c) <==> FirstAt(cs[..n], i, c) || (i == n && FirstAt(cs, n, c)) {
        FirstInInit(cs, i, c);
      }
      assert FirstAt(cs, n, c) <==> cs[n] == c && c.id !in Names(cs[..n]);
    } else {
      assert forall i: nat :: !FirstAt(cs, i, c);
    }
    hide Names;
    hide FirstAt;
  }

  lemma FirstInInit(cs: seq<Tree>, i: nat, c: Tree)
    requires cs != []
    ensures i < |cs| - 1 ==> (FirstAt(cs, i, c) <==> FirstAt(cs[..|cs| - 1], i, c))
  {
    hide Names;
    assert i < |cs| - 1 ==> cs[..|cs| - 1][..i] == cs[..i];
  }

  lemma {:induction false} SlotNames(cs: seq<Tree>, base: set<NodeId>, a: Option<NodeId>)
    ensures Names(Slot(cs, base, a)) <= Names(cs)
  {
    forall x | x in Names(Slot(cs, base, a)) ensures x in Names(cs) {
      var i :| 0 <= i < |Slot(cs, base, a)| && Slot(cs, base, a)[i].id == x;
      SlotElem(cs, base, a, Slot(cs, base, a)[i]);
      NamesIn(cs, Slot(cs, base, a)[i]);
    }
  }

  lemma {:induction false} SlotDistinct(cs: seq<Tree>, base: set<NodeId>, a: Option<NodeId>)
    requires DistinctIds(cs)
    ensures DistinctIds(Slot(cs, base, a))
  {
    if cs != [] {
      var init, last := cs[..|cs| - 1], cs[|cs| - 1];
      var slot := Slot(init, base, a);
      SlotDistinct(init, base, a);
      forall x | 0 <= x < |slot| ensures slot[x].id != last.id {
        SlotElem(init, base, a, slot[x]);
      }
    }
  }

  // Members of a merged slot: every addition of ours, and those of theirs ours does not name.
  lemma MergeSlotElem(os: seq<Tree>, ts: seq<Tree>, base: set<NodeId>, a: Option<NodeId>, c: Tree)
    requires DistinctIds(os) && DistinctIds(ts)
    ensures c in MergeSlot(os, ts, base, a) <==>
      InSlot(os, base, a, c) || (InSlot(ts, base, a, c) && c.id !in Names(Slot(os, base, a)))
  {
    var so, st := Slot(os, base, a), Slot(ts, base, a);
    SlotDistinct(os, base, a);
    SlotDistinct(ts, base, a);
    SlotElem(os, base, a, c);
    SlotElem(ts, base, a, c);
    DedupTwo(so, st, c);
  }

  lemma DedupTwo(so: seq<Tree>, st: seq<Tree>, c: Tree)
    requires DistinctIds(so) && DistinctIds(st)
    ensures c in Dedup(so + st) <==> c in so || (c in st && c.id !in Names(so))
  {
    hide Dedup;
    var all := so + st;
    DedupElem(all, c);
    if c in so {
      var i :| 0 <= i < |so| && so[i] == c;
      assert all[i] == c && all[..i] == so[..i];
      assert FirstAt(all, i, c);
    } else if c in st && c.id !in Names(so) {
      var j :| 0 <= j < |st| && st[j] == c;
      var i := |so| + j;
      assert all[i] == c && all[..i] == so + st[..j];
      forall x | 0 <= x < i ensures all[x].id != c.id {
        if x < |so| {
          assert all[x] == so[x];
        } else {
          assert all[x] == st[x - |so|];
        }
      }
      assert FirstAt(all, i, c);
    } else if i: nat :| FirstAt(all, i, c) {
      if i >= |so| {
        assert st[i - |so|] == c;
        assert all[..i] == so + st[..i - |so|];
        NamesConcat(so, st[..i - |so|]);
      }
    }
  }

  lemma MergeSlotHas(os: seq<Tree>, ts: seq<Tree>, base: set<NodeId>, a: Option<NodeId>, q: seq<NodeId>)
    requires DistinctIds(os) && DistinctIds(ts) && q != []
    ensures HasIn(MergeSlot(os, ts, base, a), q) <==>
      || (exists c :: InSlot(os, base, a, c) && Has(c, q))
      || (exists c :: InSlot(ts, base, a, c) && Has(c, q) && q[0] !in Names(Slot(os, base, a)))
  {
    if HasIn(MergeSlot(os, ts, base, a), q) {
      var c :| c in MergeSlot(os, ts, base, a) && Has(c, q);
      MergeSlotElem(os, ts, base, a, c);
    }
    if c :| InSlot(os, base, a, c) && Has(c, q) {
      MergeSlotElem(os, ts, base, a, c);
    }
    if c :| InSlot(ts, base, a, c) && Has(c, q) && q[0] !in Names(Slot(os, base, a)) {
      MergeSlotElem(os, ts, base, a, c);
    }
  }

  // ----- one list level

  lemma MergedId(b: Option<Tree>, o: Option<Tree>, t: Option<Tree>, path: string, id: NodeId)
    requires b.Some? ==> b.value.id == id
    requires o.Some? ==> o.value.id == id
    requires t.Some? ==> t.value.id == id
    ensures MergeNode(b, o, t, path).node.Some? ==> MergeNode(b, o, t, path).node.value.id == id
  {
  }

  /** The k-th base child, or the slot behind it, contributes path `q`. */
  ghost predicate FromChild(bs: seq<Tree>, os: seq<Tree>, ts: seq<Tree>, path: string, k: nat, q: seq<NodeId>)
    requires k < |bs|
  {
    || HasOpt(MergeChild(bs, os, ts, path, k).node, q)
    || HasIn(MergeSlot(os, ts, Names(bs), Some(bs[k].id)), q)
  }

  lemma {:induction false} FromHas(bs: seq<Tree>, os: seq<Tree>, ts: seq<Tree>, path: string, k: nat, q: seq<NodeId>)
    requires k <= |bs|
    ensures HasIn(MergeFrom(bs, os, ts, path, k).nodes, q) <==>
      exists j :: k <= j < |bs| && FromChild(bs, os, ts, path, j, q)
    decreases |bs| - k
  {
    hide MergeChild;
    hide MergeSlot;
    if k < |bs| {
      var m := MergeChild(bs, os, ts, path, k);
      var slot := MergeSlot(os, ts, Names(bs), Some(bs[k].id));
      var rest := MergeFrom(bs, os, ts, path, k + 1).nodes;
      FromHas(bs, os, ts, path, k + 1, q);
      hide FromChild;
      hide HasIn;
      HasInConcat(OptSeq(m.node) + slot, rest, q);
      HasInConcat(OptSeq(m.node), slot, q);
      HasInOpt(m.node, q);
      assert FromChild(bs, os, ts, path, k, q) <==> HasIn(OptSeq(m.node) + slot, q);
    }
  }

  lemma {:induction false} FromClean(bs: seq<Tree>, os: seq<Tree>, ts: seq<Tree>, path: string, k: nat, j: nat)
    requires k <= j < |bs|
    requires MergeFrom(bs, os, ts, path, k).conflicts == []
    ensures MergeChild(bs, os, ts, path, j).conflicts == []
    decreases |bs| - k
  {
    hide MergeChild;
    hide MergeSlot;
    if k < j {
      FromClean(bs, os, ts, path, k + 1, j);
    }
  }

  lemma ChildrenHas(b: Tree, o: Tree, t: Tree, path: string, q: seq<NodeId>)
    requires b.List? && o.List? && t.List?
    ensures HasIn(MergeChildren(b, o, t, path).nodes, q) <==>
      || HasIn(MergeSlot(o.children, t.children, Names(b.children), None), q)
      || exists j :: 0 <= j < |b.children| && FromChild(b.children, o.children, t.children, path, j, q)
  {
    hide MergeFrom;
    hide MergeSlot;
    hide FromChild;
    hide HasIn;
    HasInConcat(MergeSlot(o.children, t.children, Names(b.children), None),
                MergeFrom(b.children, o.children, t.children, path, 0).nodes, q);
    FromHas(b.children, o.children, t.children, path, 0, q);
  }

  // The merged node of base child j carries that child's id.
  lemma ChildId(bs: seq<Tree>, os: seq<Tree>, ts: seq<Tree>, path: string, j: nat, q: seq<NodeId>)
    requires j < |bs| && HasOpt(MergeChild(bs, os, ts, path, j).node, q)
    ensures q[0] == bs[j].id
  {
    hide MergeNode;
    var id := bs[j].id;
    MergedId(Find(bs, id), Find(os, id), Find(ts, id), path + "/" + id, id);
  }

  // A base child's path comes only from that child's own merge.
  lemma BaseChildHas(bs: seq<Tree>, os: seq<Tree>, ts: seq<Tree>, path: string, k: nat, q: seq<NodeId>)
    requires DistinctIds(bs) && DistinctIds(os) && DistinctIds(ts)
    requires k < |bs| && q != [] && q[0] == bs[k].id
    ensures forall a :: !HasIn(MergeSlot(os, ts, Names(bs), a), q)
    ensures (exists j :: 0 <= j < |bs| && FromChild(bs, os, ts, path, j, q)) <==> HasOpt(MergeChild(bs, os, ts, path, k).node, q)
  {
    hide MergeChild;
    hide MergeSlot;
    hide Slot;
    NamesIn(bs, bs[k]);
    forall a ensures !HasIn(MergeSlot(os, ts, Names(bs), a), q) {
      MergeSlotHas(os, ts, Names(bs), a, q);
    }
    if HasOpt(MergeChild(bs, os, ts, path, k).node, q) {
      assert FromChild(bs, os, ts, path, k, q);
    }
    if j :| 0 <= j < |bs| && FromChild(bs, os, ts, path, j, q) {
      ChildId(bs, os, ts, path, j, q);
      assert j == k;
    }
  }

  // A path whose head is no base child comes from the slots alone.
  lemma AddedHas(bs: seq<Tree>, os: seq<Tree>, ts: seq<Tree>, path: string, q: seq<NodeId>)
    requires DistinctIds(bs) && DistinctIds(os) && DistinctIds(ts)
    requires q != [] && q[0] !in Names(bs)
    ensures HasIn(MergeSlot(os, ts, Names(bs), None), q) || (exists j :: 0 <= j < |bs| && FromChild(bs, os, ts, path, j, q)) <==>
      HasIn(os, q) || (HasIn(ts, q) && !SameSlot(os, ts, Names(bs), q[0]))
  {
    hide MergeChild;
    hide MergeSlot;
    hide Slot;
    var base := Names(bs);
    if HasIn(MergeSlot(os, ts, base, None), q) {
      FromSlot(os, ts, base, None, q);
    }
    if j :| 0 <= j < |bs| && FromChild(bs, os, ts, path, j, q) {
      NamesIn(bs, bs[j]);
      if HasOpt(MergeChild(bs, os, ts, path, j).node, q) {
        ChildId(bs, os, ts, path, j, q);
        assert false;
      }
      FromSlot(os, ts, base, Some(bs[j].id), q);
    }
    if HasIn(os, q) || (HasIn(ts, q) && !SameSlot(os, ts, base, q[0])) {
      ghost var a := IntoSlot(os, ts, base, q);
      if a.Some? {
        var k :| 0 <= k < |bs| && bs[k].id == a.value;
        assert FromChild(bs, os, ts, path, k, q);
      }
    }
  }

  lemma IntoSlot(os: seq<Tree>, ts: seq<Tree>, base: set<NodeId>, q: seq<NodeId>) returns (a: Option<NodeId>)
    requires DistinctIds(os) && DistinctIds(ts)
    requires q != [] && q[0] !in base
    requires HasIn(os, q) || (HasIn(ts, q) && !SameSlot(os, ts, base, q[0]))
    ensures a.Some? ==> a.value in base
    ensures HasIn(MergeSlot(os, ts, base, a), q)
  {
    hide MergeSlot;
    if HasIn(os, q) {
      var c :| c in os && Has(c, q);
      var i :| 0 <= i < |os| && os[i] == c;
      a := Anchor(os[..i], base);
      AnchorIn(os[..i], base);
      assert InSlot(os, base, a, c);
      MergeSlotHas(os, ts, base, a, q);
    } else {
      var c :| c in ts && Has(c, q);
      var j :| 0 <= j < |ts| && ts[j] == c;
      a := Anchor(ts[..j], base);
      AnchorIn(ts[..j], base);
      assert InSlot(ts, base, a, c);
      var slot := Slot(os, base, a);
      if q[0] in Names(slot) {
        var x :| 0 <= x < |slot| && slot[x].id == q[0];
        SlotElem(os, base, a, slot[x]);
        assert false;
      }
      MergeSlotHas(os, ts, base, a, q);
    }
  }

  // The anchor is None or one of the base ids.
  lemma {:induction false} AnchorIn(cs: seq<Tree>, base: set<NodeId>)
    ensures Anchor(cs, base).Some? ==> Anchor(cs, base).value in base
  {
    if cs != [] {
      AnchorIn(cs[..|cs| - 1], base);
    }
  }

  lemma FromSlot(os: seq<Tree>, ts: seq<Tree>, base: set<NodeId>, a: Option<NodeId>, q: seq<NodeId>)
    requires DistinctIds(os) && DistinctIds(ts) && q != []
    requires HasIn(MergeSlot(os, ts, base, a), q)
    ensures HasIn(os, q) || (HasIn(ts, q) && !SameSlot(os, ts, base, q[0]))
  {
    MergeSlotHas(os, ts, base, a, q);
    if c :| InSlot(os, base, a, c) && Has(c, q) {
      assert c in os;
    } else {
      var c :| InSlot(ts, base, a, c) && Has(c, q) && q[0] !in Names(Slot(os, base, a));
      var n :| 0 <= n < |ts| && ts[n] == c && Anchor(ts[..n], base) == a;
      if SameSlot(os, ts, base, q[0]) {
        var i, j :| 0 <= i < |os| && 0 <= j < |ts| && os[i].id == q[0] && ts[j].id == q[0]
                    && Anchor(os[..i], base) == Anchor(ts[..j], base);
        assert j == n;
        assert InSlot(os, base, a, os[i]);
        SlotElem(os, base, a, os[i]);
        NamesIn(Slot(os, base, a), os[i]);
      }
    }
  }

  // ----- the theorem

  // Nothing theirs added is subsumed when ours made no change.
  lemma {:induction false} UnsubsumedByBase(b: Option<Tree>, t: Option<Tree>, p: seq<NodeId>)
    requires Siblings(b) && Siblings(t) && Added(b, t, p)
    ensures !Subsumed(b, b, t, p)
    decreases |p|
  {
    if b.Some? && t.Some? && b.value.List? && t.value.List? && b.value.id == t.value.id && |p| > 1 {
      var bs, ts, q := b.value.children, t.value.children, p[1..];
      if q[0] in Names(bs) {
        HasInFind(bs, q);
        HasInFind(ts, q);
        UnsubsumedByBase(Find(bs, q[0]), Find(ts, q[0]), q);
      }
    }
  }

  /** A conflict-free merge has exactly the paths that all three trees share and the paths either
      side added, except theirs under an addition that ours also made in the same slot. */
  lemma {:induction false} PathsMerge(b: Option<Tree>, o: Option<Tree>, t: Option<Tree>, path: string, p: seq<NodeId>)
    requires Siblings(b) && Siblings(o) && Siblings(t)
    requires MergeNode(b, o, t, path).conflicts == []
    ensures HasOpt(MergeNode(b, o, t, path).node, p) <==> MergedPath(b, o, t, p)
    decreases |p|, 0, 0
  {
    if p == [] {
    } else if o == b {
      if Added(b, t, p) {
        UnsubsumedByBase(b, t, p);
      }
    } else if t == b || o == t {
    } else if |p| > 1 && p[0] == b.value.id {
      PathsMergeBelow(b.value, o.value, t.value, path, p[1..]);
    }
  }

  lemma {:induction false} PathsMergeBelow(b: Tree, o: Tree, t: Tree, path: string, q: seq<NodeId>)
    requires b.List? && o.List? && t.List? && SiblingUnique(b) && SiblingUnique(o) && SiblingUnique(t)
    requires MergeChildren(b, o, t, path).conflicts == [] && q != []
    ensures HasIn(MergeChildren(b, o, t, path).nodes, q) <==>
      || (HasIn(b.children, q) && HasIn(o.children, q) && HasIn(t.children, q))
      || (HasIn(o.children, q) && !HasIn(b.children, q))
      || (HasIn(t.children, q) && !HasIn(b.children, q)
          && !SubsumedIn(b.children, o.children, t.children, q))
    decreases |q|, 1, 0
  {
    var bs, os, ts := b.children, o.children, t.children;
    ChildrenHas(b, o, t, path, q);
    hide MergeSlot;
    if q[0] in Names(bs) {
      PathsMergeChild(b, o, t, path, q);
      hide *;
    } else {
      hide MergeChildren;
      AddedHas(bs, os, ts, path, q);
      if HasIn(bs, q) {
        var c :| c in bs && Has(c, q);
        NamesIn(bs, c);
        assert false;
      }
    }
  }

  lemma {:induction false} PathsMergeChild(b: Tree, o: Tree, t: Tree, path: string, q: seq<NodeId>)
    requires b.List? && o.List? && t.List? && SiblingUnique(b) && SiblingUnique(o) && SiblingUnique(t)
    requires MergeChildren(b, o, t, path).conflicts == [] && q != [] && q[0] in Names(b.children)
    ensures HasIn(MergeSlot(o.children, t.children, Names(b.children), None), q) || (exists j :: 0 <= j < |b.children| && FromChild(b.children, o.children, t.children, path, j, q)) <==>
      || (HasIn(b.children, q) && HasIn(o.children, q) && HasIn(t.children, q))
      || (HasIn(o.children, q) && !HasIn(b.children, q))
      || (HasIn(t.children, q) && !HasIn(b.children, q) && !SubsumedIn(b.children, o.children, t.children, q))
    decreases |q|, 0, 1
  {
    var bs, os, ts, id := b.children, o.children, t.children, q[0];
    var k :| 0 <= k < |bs| && bs[k].id == id;
    ChildClean(b, o, t, path, k);
    hide MergeChildren;
    BaseChildHas(bs, os, ts, path, k, q);
    hide MergeSlot;
    hide FromChild;
    assert MergeChild(bs, os, ts, path, k) == MergeNode(Find(bs, id), Find(os, id), Find(ts, id), path + "/" + id);
    hide MergeNode;
    hide MergeChild;
    FindSiblings(b, id);
    FindSiblings(o, id);
    FindSiblings(t, id);
    PathsMerge(Find(bs, id), Find(os, id), Find(ts, id), path + "/" + id, q);
    HasInFind(bs, q);
    HasInFind(os, q);
    HasInFind(ts, q);
    hide HasIn;
    hide Subsumed;
  }

  lemma FindSiblings(t: Tree, id: NodeId)
    requires t.List? && SiblingUnique(t)
    ensures Siblings(Find(t.children, id))
  {
  }

  lemma ChildClean(b: Tree, o: Tree, t: Tree, path: string, k: nat)
    requires b.List? && o.List? && t.List? && k < |b.children|
    requires MergeChildren(b, o, t, path).conflicts == []
    ensures MergeChild(b.children, o.children, t.children, path, k).conflicts == []
  {
    hide MergeFrom;
    hide MergeChild;
    hide Reorder;
    FromClean(b.children, o.children, t.children, path, 0, k);
  }
}
