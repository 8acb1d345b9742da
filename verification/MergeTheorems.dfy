/** The guarantees of the stable-id merge: a three-way merge taken path by path, symmetric in its
    conflicts, that loses no one-sided work when the two sides relocate different ids. */
module MergeTheorems {
  import opened Prelude
  import opened Trees
  import opened TreePaths
  import opened Merge
  import opened MergePaths
  import opened MergeIds

  // What a node says apart from its id and children.
  datatype Label = ListLabel | AtomLabel(atom: Atom)

  function LabelOf(t: Tree): Label {
    if t.List? then ListLabel else AtomLabel(t.atom)
  }

  ghost function LabelAt(t: Option<Tree>, p: seq<NodeId>): Option<Label>
    decreases |p|
  {
    if t.None? || p == [] || p[0] != t.value.id then None
    else if |p| == 1 then Some(LabelOf(t.value))
    else if t.value.Leaf? then None
    else LabelAt(Find(t.value.children, p[1]), p[1..])
  }

  /** Three-way merge of one record: additions win, deletions win over an untouched record, and of
      two present records the changed one wins. */
  function Merge3(b: Option<Label>, o: Option<Label>, t: Option<Label>): Option<Label> {
    if b.None? then (if o.Some? then o else t)
    else if o.None? || t.None? then None
    else if o == b then t else o
  }

  ghost predicate NoSharedAddition(b: Option<Tree>, o: Option<Tree>, t: Option<Tree>) {
    forall p :: !(Added(b, o, p) && Added(b, t, p))
  }

  ghost predicate DisjointRelocations(b: Option<Tree>, o: Option<Tree>, t: Option<Tree>) {
    forall x :: !(Relocated(b, o, x) && Relocated(b, t, x))
  }

  lemma DisjointNoShared(b: Option<Tree>, o: Option<Tree>, t: Option<Tree>)
    requires DisjointRelocations(b, o, t)
    ensures NoSharedAddition(b, o, t)
  {
    forall p | Added(b, o, p) && Added(b, t, p) ensures false {
      assert Relocated(b, o, Last(p)) && Relocated(b, t, Last(p));
    }
  }

  // ----- uniqueness and one-sided work

  /** Disjoint relocations keep ids unique. */
  lemma UniqueWhenDisjoint(b: Option<Tree>, o: Option<Tree>, t: Option<Tree>, path: string)
    requires UniqueOpt(b) && UniqueOpt(o) && UniqueOpt(t)
    requires MergeNode(b, o, t, path).conflicts == [] && DisjointRelocations(b, o, t)
    ensures UniqueOpt(MergeNode(b, o, t, path).node)
  {
    hide MergeNode;
    forall p, q ensures !(Added(b, o, p) && Added(b, t, q) && Last(p) == Last(q)) {
      if Added(b, o, p) {
        assert Relocated(b, o, Last(p));
      }
    }
    UniqueExactly(b, o, t, path);
  }

  lemma AddedPrefix(b: Tree, t: Tree, c: NodeId)
    requires b.List? && t.List? && b.id == t.id && c in Names(t.children) && c !in Names(b.children)
    ensures Added(Some(b), Some(t), [b.id, c])
  {
    var i :| 0 <= i < |t.children| && t.children[i].id == c;
    AddedChild(b, t, i);
  }

  // Whatever is subsumed lies under something both sides added.
  lemma {:induction false} SubsumedShared(b: Option<Tree>, o: Option<Tree>, t: Option<Tree>, p: seq<NodeId>)
    returns (r: seq<NodeId>)
    requires Siblings(b) && Siblings(o) && Siblings(t)
    requires Added(b, t, p) && Subsumed(b, o, t, p)
    ensures Added(b, o, r) && Added(b, t, r)
    decreases |p|
  {
    if o == t {
      r := p;
    } else {
      var bb, oo, tt, q := b.value, o.value, t.value, p[1..];
      if q[0] in Names(bb.children) {
        HasInFind(bb.children, q);
        HasInFind(tt.children, q);
        FindSiblings(bb, q[0]);
        FindSiblings(oo, q[0]);
        FindSiblings(tt, q[0]);
        var below := SubsumedShared(Find(bb.children, q[0]), Find(oo.children, q[0]), Find(tt.children, q[0]), q);
        assert below[0] == q[0];
        AddedBelow(bb, oo, below);
        AddedBelow(bb, tt, below);
        r := [bb.id] + below;
      } else {
        var c := q[0];
        var i, j :| 0 <= i < |oo.children| && 0 <= j < |tt.children| && oo.children[i].id == c && tt.children[j].id == c;
        AddedChild(bb, oo, i);
        AddedChild(bb, tt, j);
        r := [bb.id, c];
      }
    }
  }

  /** Every placement either side made is in the result, and theirs is dropped only under an
      addition that ours made in the same slot. */
  lemma NothingLost(b: Option<Tree>, o: Option<Tree>, t: Option<Tree>, path: string, p: seq<NodeId>)
    requires Siblings(b) && Siblings(o) && Siblings(t)
    requires MergeNode(b, o, t, path).conflicts == []
    ensures Added(b, o, p) ==> HasOpt(MergeNode(b, o, t, path).node, p)
    ensures Added(b, t, p) ==>
      (HasOpt(MergeNode(b, o, t, path).node, p) <==> Added(b, o, p) || !Subsumed(b, o, t, p))
    ensures Added(b, t, p) && NoSharedAddition(b, o, t) ==> HasOpt(MergeNode(b, o, t, path).node, p)
  {
    hide MergeNode;
    PathsMerge(b, o, t, path, p);
    if Added(b, t, p) && Subsumed(b, o, t, p) {
      var r := SubsumedShared(b, o, t, p);
    }
  }

  // ----- labels

  lemma FindIn(ts: seq<Tree>, x: Tree)
    requires DistinctIds(ts) && x in ts
    ensures Find(ts, x.id) == Some(x)
  {
    DistinctSame(ts, x, Find(ts, x.id).value);
  }

  lemma NoSlotClash(b: Tree, o: Tree, t: Tree)
    requires b.List? && o.List? && t.List? && b.id == o.id == t.id
    requires NoSharedAddition(Some(b), Some(o), Some(t))
    ensures !SlotClash(b.children, o.children, t.children)
  {
    if SlotClash(b.children, o.children, t.children) {
      var bs, os, ts := b.children, o.children, t.children;
      var i, j :| 0 <= i < |os| && 0 <= j < |ts| && os[i].id == ts[j].id && os[i].id !in Names(bs)
                  && Anchor(os[..i], Names(bs)) != Anchor(ts[..j], Names(bs));
      AddedChild(b, o, i);
      AddedChild(b, t, j);
    }
  }

  lemma SlotInMerge(b: Tree, o: Tree, t: Tree, path: string, a: Option<NodeId>, x: Tree)
    requires b.List? && o.List? && t.List? && (a.Some? ==> a.value in Names(b.children))
    requires x in MergeSlot(o.children, t.children, Names(b.children), a)
    ensures x in MergeChildren(b, o, t, path).nodes
  {
    var bs, os, ts := b.children, o.children, t.children;
    hide MergeChild;
    hide MergeSlot;
    hide MergeFrom;
    hide Reorder;
    if a.Some? {
      var k :| 0 <= k < |bs| && bs[k].id == a.value;
      assert FromPart(bs, os, ts, path, k, x);
      FromMember(bs, os, ts, path, 0, x);
    }
  }

  // An added child of ours, or of theirs when ours has none of that id, is a merged child.
  lemma AddedInMerge(b: Tree, o: Tree, t: Tree, path: string, x: Tree)
    requires b.List? && o.List? && t.List? && DistinctIds(o.children) && DistinctIds(t.children)
    requires x.id !in Names(b.children)
    requires x in o.children || (x in t.children && x.id !in Names(o.children))
    ensures x in MergeChildren(b, o, t, path).nodes
  {
    var os, ts, base := o.children, t.children, Names(b.children);
    var cs := if x in os then os else ts;
    var i :| 0 <= i < |cs| && cs[i] == x;
    var a := Anchor(cs[..i], base);
    AnchorIn(cs[..i], base);
    assert InSlot(cs, base, a, x);
    SlotNames(os, base, a);
    MergeSlotElem(os, ts, base, a, x);
    SlotInMerge(b, o, t, path, a, x);
  }

  // What the merged children hold under one id.
  lemma MergedFind(b: Tree, o: Tree, t: Tree, path: string, c: NodeId)
    requires b.List? && o.List? && t.List?
    requires DistinctIds(b.children) && DistinctIds(o.children) && DistinctIds(t.children)
    requires !SlotClash(b.children, o.children, t.children)
    ensures c !in Names(b.children) ==>
      Find(MergeChildren(b, o, t, path).nodes, c) ==
        if Find(o.children, c).Some? then Find(o.children, c) else Find(t.children, c)
    ensures c in Names(b.children) ==>
      Find(MergeChildren(b, o, t, path).nodes, c) ==
        MergeNode(Find(b.children, c), Find(o.children, c), Find(t.children, c), path + "/" + c).node
  {
    hide SlotClash;
    hide MergeChildren;
    hide MergeNode;
    hide DistinctIds;
    var bs, os, ts := b.children, o.children, t.children;
    ChildrenDistinct(b, o, t, path);
    var kids := MergeChildren(b, o, t, path).nodes;
    if c in Names(bs) {
      MergedFindBase(b, o, t, path, c);
    } else {
      var x := if Find(os, c).Some? then Find(os, c) else Find(ts, c);
      if x.Some? {
        AddedInMerge(b, o, t, path, x.value);
        FindIn(kids, x.value);
      } else if Find(kids, c).Some? {
        var y := Find(kids, c).value;
        ChildrenMember(b, o, t, path, y);
        var j :| 0 <= j < |bs| && MergeChild(bs, os, ts, path, j).node == Some(y);
        NamesIn(bs, bs[j]);
        NamesIn(OptSeq(Some(y)), y);
        ChildNames(bs, os, ts, path, j);
        assert false;
      }
    }
  }

  lemma MergedFindBase(b: Tree, o: Tree, t: Tree, path: string, c: NodeId)
    requires b.List? && o.List? && t.List?
    requires DistinctIds(b.children) && DistinctIds(o.children) && DistinctIds(t.children)
    requires DistinctIds(MergeChildren(b, o, t, path).nodes) && c in Names(b.children)
    ensures Find(MergeChildren(b, o, t, path).nodes, c) ==
      MergeNode(Find(b.children, c), Find(o.children, c), Find(t.children, c), path + "/" + c).node
  {
    hide MergeChildren;
    hide MergeNode;
    hide DistinctIds;
    var bs, os, ts := b.children, o.children, t.children;
    var kids := MergeChildren(b, o, t, path).nodes;
    var k :| 0 <= k < |bs| && bs[k].id == c;
    var m := MergeChild(bs, os, ts, path, k).node;
    MergedId(Find(bs, c), Find(os, c), Find(ts, c), path + "/" + c, c);
    if m.Some? {
      ChildInMerge(b, o, t, path, k);
      FindIn(kids, m.value);
    } else if Find(kids, c).Some? {
      var y := Find(kids, c).value;
      BaseIdSource(b, o, t, path, k, y);
      assert false;
    }
  }

  lemma BaseIdSource(b: Tree, o: Tree, t: Tree, path: string, k: nat, y: Tree)
    requires b.List? && o.List? && t.List? && k < |b.children|
    requires DistinctIds(b.children) && DistinctIds(o.children) && DistinctIds(t.children)
    requires y in MergeChildren(b, o, t, path).nodes && y.id == b.children[k].id
    ensures MergeChild(b.children, o.children, t.children, path, k).node.Some?
  {
    var bs, os, ts := b.children, o.children, t.children;
    hide MergeChildren;
    var q := [y.id];
    ChildrenHas(b, o, t, path, q);
    BaseChildHas(bs, os, ts, path, k, q);
  }

  /** A conflict-free merge is the three-way merge of every record: for each id path, whether a node
      is there and what it says is decided by that path alone. */
  lemma {:induction false} LabelsMerge(b: Option<Tree>, o: Option<Tree>, t: Option<Tree>, path: string, p: seq<NodeId>)
    requires Siblings(b) && Siblings(o) && Siblings(t)
    requires MergeNode(b, o, t, path).conflicts == [] && NoSharedAddition(b, o, t)
    ensures LabelAt(MergeNode(b, o, t, path).node, p) == Merge3(LabelAt(b, p), LabelAt(o, p), LabelAt(t, p))
    decreases |p|, 1
  {
    hide MergeChildren;
    hide NoSharedAddition;
    hide SiblingUnique;
    if p == [] || o == b || t == b {
    } else if o == t {
      LabelsSame(b, o, p);
    } else if |p| > 1 && p[0] == b.value.id {
      LabelsBelow(b.value, o.value, t.value, path, p[1..]);
    }
  }

  // Two identical sides can only agree with base, or have deleted.
  lemma {:induction false} LabelsSame(b: Option<Tree>, o: Option<Tree>, p: seq<NodeId>)
    ensures LabelAt(o, p) == Merge3(LabelAt(b, p), LabelAt(o, p), LabelAt(o, p))
  {
  }

  lemma {:induction false} LabelsBelow(b: Tree, o: Tree, t: Tree, path: string, q: seq<NodeId>)
    requires b.List? && o.List? && t.List? && b.id == o.id == t.id
    requires SiblingUnique(b) && SiblingUnique(o) && SiblingUnique(t)
    requires MergeChildren(b, o, t, path).conflicts == [] && NoSharedAddition(Some(b), Some(o), Some(t)) && q != []
    ensures LabelAt(Find(MergeChildren(b, o, t, path).nodes, q[0]), q) ==
      Merge3(LabelAt(Find(b.children, q[0]), q), LabelAt(Find(o.children, q[0]), q), LabelAt(Find(t.children, q[0]), q))
    decreases |q|, 2
  {
    hide MergeChildren;
    hide MergeNode;
    hide NoSharedAddition;
    hide SiblingUnique;
    var bs, os, ts, c := b.children, o.children, t.children, q[0];
    DistinctSiblings(b);
    DistinctSiblings(o);
    DistinctSiblings(t);
    NoSlotClash(b, o, t);
    MergedFind(b, o, t, path, c);
    if c in Names(bs) {
      BaseChildClean(b, o, t, path, c);
      LabelsMerge(Find(bs, c), Find(os, c), Find(ts, c), path + "/" + c, q);
    } else {
      OneSidedAddition(b, o, t, c);
    }
  }

  lemma DistinctSiblings(t: Tree)
    requires t.List? && SiblingUnique(t)
    ensures DistinctIds(t.children)
  {
  }

  // What the recursion needs of a base child.
  lemma BaseChildClean(b: Tree, o: Tree, t: Tree, path: string, c: NodeId)
    requires b.List? && o.List? && t.List? && b.id == o.id == t.id && c in Names(b.children)
    requires SiblingUnique(b) && SiblingUnique(o) && SiblingUnique(t)
    requires MergeChildren(b, o, t, path).conflicts == [] && NoSharedAddition(Some(b), Some(o), Some(t))
    ensures MergeNode(Find(b.children, c), Find(o.children, c), Find(t.children, c), path + "/" + c).conflicts == []
    ensures Siblings(Find(b.children, c)) && Siblings(Find(o.children, c)) && Siblings(Find(t.children, c))
    ensures NoSharedAddition(Find(b.children, c), Find(o.children, c), Find(t.children, c))
  {
    hide MergeChildren;
    hide MergeNode;
    hide Added;
    var bs, os, ts := b.children, o.children, t.children;
    var k :| 0 <= k < |bs| && bs[k].id == c;
    ChildClean(b, o, t, path, k);
    FindSiblings(b, c);
    FindSiblings(o, c);
    FindSiblings(t, c);
    forall r | Added(Find(bs, c), Find(os, c), r) && Added(Find(bs, c), Find(ts, c), r) ensures false {
      AddedHead(bs, os, c, r);
      AddedBelow(b, o, r);
      AddedBelow(b, t, r);
    }
  }

  lemma AddedHead(bs: seq<Tree>, os: seq<Tree>, c: NodeId, r: seq<NodeId>)
    requires Added(Find(bs, c), Find(os, c), r)
    ensures r != [] && r[0] == c
  {
  }

  // An id that base does not have is a child on one side at most.
  lemma OneSidedAddition(b: Tree, o: Tree, t: Tree, c: NodeId)
    requires b.List? && o.List? && t.List? && b.id == o.id == t.id && c !in Names(b.children)
    requires NoSharedAddition(Some(b), Some(o), Some(t))
    ensures Find(b.children, c).None? && (Find(o.children, c).None? || Find(t.children, c).None?)
  {
    hide Added;
    var bs, os, ts := b.children, o.children, t.children;
    forall x | x in bs ensures x.id != c {
      NamesIn(bs, x);
    }
    if Find(os, c).Some? && Find(ts, c).Some? {
      NamesIn(os, Find(os, c).value);
      NamesIn(ts, Find(ts, c).value);
      AddedPrefix(b, o, c);
      AddedPrefix(b, t, c);
      assert false;
    }
  }

  // ----- unchanged sides and symmetry

  /** An unchanged side yields the other side exactly, without conflicts. */
  lemma UnchangedSide(b: Option<Tree>, o: Option<Tree>, path: string)
    ensures MergeNode(b, b, o, path) == Merged(o, [])
    ensures MergeNode(b, o, b, path) == Merged(o, [])
    ensures MergeNode(b, o, o, path) == Merged(o, [])
  {
  }

  /** Swapping ours and theirs reports the same conflicts in the same order. */
  lemma {:induction false} ConflictsSymmetric(b: Option<Tree>, o: Option<Tree>, t: Option<Tree>, path: string)
    ensures MergeNode(b, o, t, path).conflicts == MergeNode(b, t, o, path).conflicts
    decreases Rank(b), 1, 0
  {
    hide MergeChildren;
    if b.Some? && o.Some? && t.Some? && b.value.List? && o.value.List? && t.value.List? {
      KidsSymmetric(b.value, o.value, t.value, path);
    }
  }

  lemma {:induction false} KidsSymmetric(b: Tree, o: Tree, t: Tree, path: string)
    requires b.List? && o.List? && t.List?
    ensures MergeChildren(b, o, t, path).conflicts == MergeChildren(b, t, o, path).conflicts
    decreases b, 0, |b.children| + 1
  {
    hide MergeFrom;
    hide Reorder;
    FromSymmetric(b.children, o.children, t.children, path, 0);
    ReorderSymmetric(b.children, o.children, t.children, path, b.id);
  }

  lemma ReorderSymmetric(bs: seq<Tree>, os: seq<Tree>, ts: seq<Tree>, path: string, id: NodeId)
    ensures Reorder(bs, os, path, id) + Reorder(bs, ts, path, id) == Reorder(bs, ts, path, id) + Reorder(bs, os, path, id)
  {
  }

  lemma {:induction false} FromSymmetric(bs: seq<Tree>, os: seq<Tree>, ts: seq<Tree>, path: string, k: nat)
    requires k <= |bs|
    ensures MergeFrom(bs, os, ts, path, k).conflicts == MergeFrom(bs, ts, os, path, k).conflicts
    decreases bs, 0, |bs| - k
  {
    if k < |bs| {
      var id := bs[k].id;
      ConflictsSymmetric(Find(bs, id), Find(os, id), Find(ts, id), path + "/" + id);
      FromSymmetric(bs, os, ts, path, k + 1);
      hide MergeNode;
    }
  }

  /** On success with no shared addition, swapping the sides gives the same records: the two trees
      differ at most in the order of siblings. */
  lemma MergeSymmetric(b: Option<Tree>, o: Option<Tree>, t: Option<Tree>, path: string, p: seq<NodeId>)
    requires Siblings(b) && Siblings(o) && Siblings(t)
    requires MergeNode(b, o, t, path).conflicts == [] && NoSharedAddition(b, o, t)
    ensures LabelAt(MergeNode(b, o, t, path).node, p) == LabelAt(MergeNode(b, t, o, path).node, p)
  {
    hide MergeNode;
    ConflictsSymmetric(b, o, t, path);
    assert NoSharedAddition(b, t, o);
    LabelsMerge(b, o, t, path, p);
    LabelsMerge(b, t, o, path, p);
    LabelHas(b, p);
    LabelHas(o, p);
    LabelHas(t, p);
    assert !(Added(b, o, p) && Added(b, t, p));
    if LabelAt(b, p).Some? && LabelAt(o, p).Some? && LabelAt(t, p).Some? {
      NoEditClash(b, o, t, path, p);
    }
  }

  lemma {:induction false} LabelHas(t: Option<Tree>, p: seq<NodeId>)
    requires Siblings(t)
    ensures LabelAt(t, p).Some? <==> HasOpt(t, p)
    decreases |p|
  {
    if t.Some? && t.value.List? && |p| > 1 && p[0] == t.value.id {
      HasInFind(t.value.children, p[1..]);
      FindSiblings(t.value, p[1]);
      LabelHas(Find(t.value.children, p[1]), p[1..]);
    }
  }

  /** A record that both sides changed, and changed differently, is a conflict. */
  lemma {:induction false} NoEditClash(b: Option<Tree>, o: Option<Tree>, t: Option<Tree>, path: string, p: seq<NodeId>)
    requires MergeNode(b, o, t, path).conflicts == []
    requires LabelAt(b, p).Some? && LabelAt(o, p).Some? && LabelAt(t, p).Some?
    ensures LabelAt(o, p) == LabelAt(b, p) || LabelAt(t, p) == LabelAt(b, p) || LabelAt(o, p) == LabelAt(t, p)
    decreases |p|
  {
    if o != b && t != b && o != t && |p| > 1 {
      var bb, oo, tt, c := b.value, o.value, t.value, p[1];
      var k := FindIndex(bb.children, c);
      ChildClean(bb, oo, tt, path, k);
      hide MergeChildren;
      assert MergeChild(bb.children, oo.children, tt.children, path, k) ==
        MergeNode(Find(bb.children, c), Find(oo.children, c), Find(tt.children, c), path + "/" + c);
      NoEditClash(Find(bb.children, c), Find(oo.children, c), Find(tt.children, c), path + "/" + c, p[1..]);
    }
  }

  lemma FindIndex(ts: seq<Tree>, c: NodeId) returns (k: nat)
    requires Find(ts, c).Some?
    ensures k < |ts| && ts[k].id == c
  {
    k :| 0 <= k < |ts| && ts[k] == Find(ts, c).value;
  }

  // ----- inputs on which the guarantees fail

  // At most one side touched base child k, or both agree on it.
  ghost predicate OneSided(bs: seq<Tree>, os: seq<Tree>, ts: seq<Tree>, k: nat)
    requires k < |bs|
  {
    var id := bs[k].id;
    Find(os, id) == Find(bs, id) || Find(ts, id) == Find(bs, id) || Find(os, id) == Find(ts, id)
  }

  lemma {:induction false} OneSidedClean(bs: seq<Tree>, os: seq<Tree>, ts: seq<Tree>, path: string, k: nat)
    requires k <= |bs| && forall j :: k <= j < |bs| ==> OneSided(bs, os, ts, j)
    ensures MergeFrom(bs, os, ts, path, k).conflicts == []
    decreases |bs| - k
  {
    hide MergeChild;
    hide MergeSlot;
    hide OneSided;
    if k < |bs| {
      OneSidedChild(bs, os, ts, path, k);
      OneSidedClean(bs, os, ts, path, k + 1);
    }
  }

  lemma OneSidedChild(bs: seq<Tree>, os: seq<Tree>, ts: seq<Tree>, path: string, k: nat)
    requires k < |bs| && OneSided(bs, os, ts, k)
    ensures MergeChild(bs, os, ts, path, k).conflicts == []
  {
    hide MergeChildren;
  }

  // The three trees of two moves: base (n x (l) (r)), ours (n (l x) (r)), theirs (n (l) (r x)).
  function MovesBase(n: NodeId, x: Tree, l: NodeId, r: NodeId): Tree {
    List(n, [x, List(l, []), List(r, [])])
  }

  function MovesOurs(n: NodeId, x: Tree, l: NodeId, r: NodeId): Tree {
    List(n, [List(l, [x]), List(r, [])])
  }

  function MovesTheirs(n: NodeId, x: Tree, l: NodeId, r: NodeId): Tree {
    List(n, [List(l, []), List(r, [x])])
  }

  ghost predicate FourIds(n: NodeId, x: NodeId, l: NodeId, r: NodeId) {
    n != x && n != l && n != r && x != l && x != r && l != r
  }

  lemma MovesFind(ts: seq<Tree>, id: NodeId, i: nat)
    requires DistinctIds(ts) && i < |ts| && ts[i].id == id
    ensures Find(ts, id) == Some(ts[i])
  {
    DistinctSame(ts, ts[i], Find(ts, id).value);
  }

  lemma MovesClean(n: NodeId, x: Tree, l: NodeId, r: NodeId)
    requires FourIds(n, x.id, l, r)
    ensures MergeChildren(MovesBase(n, x, l, r), MovesOurs(n, x, l, r), MovesTheirs(n, x, l, r), "").conflicts == []
  {
    var b, o, t := MovesBase(n, x, l, r), MovesOurs(n, x, l, r), MovesTheirs(n, x, l, r);
    var bs, os, ts := b.children, o.children, t.children;
    MovesFind(bs, l, 1);
    MovesFind(bs, r, 2);
    MovesFind(os, r, 1);
    MovesFind(ts, l, 0);
    assert Find(os, x.id) == None && Find(ts, x.id) == None;
    hide Find;
    assert OneSided(bs, os, ts, 0) && OneSided(bs, os, ts, 1) && OneSided(bs, os, ts, 2);
    OneSidedClean(bs, os, ts, "", 0);
    NoReorder(bs, os, n);
    NoReorder(bs, ts, n);
    hide MergeFrom;
    hide Reorder;
    hide MergeSlot;
  }

  lemma NoReorder(bs: seq<Tree>, cs: seq<Tree>, id: NodeId)
    requires |bs| == 3 && |cs| == 2 && DistinctIds(bs)
    requires bs[1].id == cs[0].id && bs[2].id == cs[1].id
    ensures Reorder(bs, cs, "", id) == []
  {
    var actual, base := Ids(cs), Ids(bs);
    NamesIn(bs, bs[1]);
    NamesIn(bs, bs[2]);
    NamesIn(cs, cs[0]);
    NamesIn(cs, cs[1]);
    assert bs[0].id !in Names(cs);
    assert actual[..1] == [cs[0].id] && actual[..1][..0] == [];
    assert base[..2] == [bs[0].id, bs[1].id] && base[..2][..1] == [bs[0].id] && base[..2][..1][..0] == [];
    assert Keep(actual[..1], Names(bs)) == [cs[0].id];
    assert Keep(base[..2][..1], Names(cs)) == [];
    assert Keep(base[..2], Names(cs)) == [bs[1].id];
  }

  lemma MovesUnique(n: NodeId, x: Tree, l: NodeId, r: NodeId)
    requires FourIds(n, x.id, l, r) && x.Leaf?
    ensures Unique(MovesBase(n, x, l, r)) && Unique(MovesOurs(n, x, l, r)) && Unique(MovesTheirs(n, x, l, r))
  {
    forall i | i == l || i == r
      ensures IdSet(List(i, [x])) == {i, x.id} && IdSet(List(i, [])) == {i} && Unique(List(i, [x])) && Unique(List(i, []))
    {
      assert x.id in IdSet([x][0]);
      assert IdSetOf([x]) == {x.id};
    }
  }

  /** Two sides move one node to two different parents: no conflict is reported, and the id occurs
      twice. Only the validation that follows the merge rejects the result. */
  lemma TwoMovesDuplicate(n: NodeId, x: Tree, l: NodeId, r: NodeId)
    requires FourIds(n, x.id, l, r) && x.Leaf?
    ensures var b, o, t := Some(MovesBase(n, x, l, r)), Some(MovesOurs(n, x, l, r)), Some(MovesTheirs(n, x, l, r));
      UniqueOpt(b) && UniqueOpt(o) && UniqueOpt(t)
      && MergeNode(b, o, t, "").conflicts == [] && !UniqueOpt(MergeNode(b, o, t, "").node)
  {
    hide MergeNode;
    hide Unique;
    hide Clash;
    MovesUnique(n, x, l, r);
    MovesConflictFree(n, x, l, r);
    MovesClash(n, x, l, r);
    UniqueExactly(Some(MovesBase(n, x, l, r)), Some(MovesOurs(n, x, l, r)), Some(MovesTheirs(n, x, l, r)), "");
  }

  lemma MovesConflictFree(n: NodeId, x: Tree, l: NodeId, r: NodeId)
    requires FourIds(n, x.id, l, r)
    ensures MergeNode(Some(MovesBase(n, x, l, r)), Some(MovesOurs(n, x, l, r)), Some(MovesTheirs(n, x, l, r)), "").conflicts == []
  {
    hide MergeChildren;
    MovesClean(n, x, l, r);
    assert MovesOurs(n, x, l, r).children[0] != MovesTheirs(n, x, l, r).children[0];
  }

  lemma MovesClash(n: NodeId, x: Tree, l: NodeId, r: NodeId)
    requires FourIds(n, x.id, l, r) && x.Leaf?
    ensures Clash(Some(MovesBase(n, x, l, r)), Some(MovesOurs(n, x, l, r)), Some(MovesTheirs(n, x, l, r)))
  {
    hide Added;
    var b, o, t := MovesBase(n, x, l, r), MovesOurs(n, x, l, r), MovesTheirs(n, x, l, r);
    var p, q := [n, l, x.id], [n, r, x.id];
    MovesAdded(n, x, l, r);
    MovesFind(b.children, r, 2);
    MovesFind(o.children, r, 1);
    MovesFind(t.children, r, 1);
    NamesIn(b.children, b.children[2]);
    assert !Subsumed(Some(b), Some(o), Some(t), q) by {
      assert q[1..] == [r, x.id] && q[1..][1..] == [x.id];
      assert !SubsumedIn([], [], [x], [x.id]);
      assert !Subsumed(Some(b.children[2]), Some(o.children[1]), Some(t.children[1]), q[1..]);
    }
    assert Last(p) == Last(q);
  }

  lemma MovesAdded(n: NodeId, x: Tree, l: NodeId, r: NodeId)
    requires FourIds(n, x.id, l, r) && x.Leaf?
    ensures Added(Some(MovesBase(n, x, l, r)), Some(MovesOurs(n, x, l, r)), [n, l, x.id])
    ensures Added(Some(MovesBase(n, x, l, r)), Some(MovesTheirs(n, x, l, r)), [n, r, x.id])
  {
    var b, o, t := MovesBase(n, x, l, r), MovesOurs(n, x, l, r), MovesTheirs(n, x, l, r);
    var lx, rx := o.children[0], t.children[1];
    assert x in lx.children && x in rx.children && lx in o.children && rx in t.children;
    forall i | i == l || i == r ensures [n, i, x.id][1..] == [i, x.id] && [i, x.id][1..] == [x.id] {
    }
    assert HasIn(lx.children, [x.id]) && HasIn(rx.children, [x.id]);
    assert Has(lx, [l, x.id]) && Has(rx, [r, x.id]);
    assert HasIn(o.children, [l, x.id]) && HasIn(t.children, [r, x.id]);
    forall c, i | c in b.children && (i == l || i == r) ensures !Has(c, [i, x.id]) {
      assert c.List? ==> c.children == [];
    }
    assert !HasIn(b.children, [l, x.id]) && !HasIn(b.children, [r, x.id]);
    assert !Has(b, [n, l, x.id]) && !Has(b, [n, r, x.id]);
  }

  /** Both sides add a node of one id to one slot: ours stays, and theirs goes with the node under it,
      without a conflict. */
  lemma SharedAdditionDrops(n: NodeId, x: NodeId, y: Tree)
    requires n != x && n != y.id && x != y.id && y.Leaf?
    ensures var b, o, t := Some(List(n, [])), Some(List(n, [List(x, [])])), Some(List(n, [List(x, [y])]));
      && UniqueOpt(b) && UniqueOpt(o) && UniqueOpt(t)
      && MergeNode(b, o, t, "") == Merged(o, []) && Added(b, t, [n, x, y.id]) && !HasOpt(o, [n, x, y.id])
  {
    var ox, tx := List(x, []), List(x, [y]);
    assert IdSet(y) == {y.id} && IdSet(ox) == {x};
    OneKid(x, y);
    OneKid(n, ox);
    OneKid(n, tx);
    AddsOne(n, x, ox, tx);
    AddsBelow(n, x, y);
  }

  lemma OneKid(id: NodeId, c: Tree)
    ensures IdSet(List(id, [c])) == {id} + IdSet(c)
    ensures Unique(List(id, [c])) <==> Unique(c) && id !in IdSet(c)
  {
    var kids := [c];
    assert kids[0] == c;
    assert IdSetOf(kids) == IdSet(c);
    assert UniqueAll(kids) <==> Unique(c);
  }

  lemma AddsOne(n: NodeId, x: NodeId, ox: Tree, tx: Tree)
    requires ox.List? && tx.List? && ox.id == x == tx.id && ox != tx
    ensures MergeNode(Some(List(n, [])), Some(List(n, [ox])), Some(List(n, [tx])), "") == Merged(Some(List(n, [ox])), [])
  {
    hide MergeChildren;
    EmptyBaseKids(n, x, ox, tx);
    assert List(n, [ox]) != List(n, [tx]) by {
      assert [ox][0] != [tx][0];
    }
  }

  lemma EmptyBaseKids(n: NodeId, x: NodeId, ox: Tree, tx: Tree)
    requires ox.id == x == tx.id
    ensures MergeChildren(List(n, []), List(n, [ox]), List(n, [tx]), "") == MergedKids([ox], [])
  {
    hide MergeNode;
    hide MergeChild;
    var bs: seq<Tree> := [];
    assert Names(bs) == {};
    OneSlotOnly(ox);
    OneSlotOnly(tx);
    FirstOfTwo(ox, tx);
    assert Ids(bs) == [];
    assert MergeSlot([ox], [tx], Names(bs), None) == [ox];
    assert Reorder(bs, [ox], "", n) == [] && Reorder(bs, [tx], "", n) == [];
    assert MergeFrom(bs, [ox], [tx], "", 0) == MergedKids([], []);
  }

  // A single addition, where base has no children.
  lemma OneSlotOnly(c: Tree)
    ensures Slot([c], {}, None) == [c] && Keep(Ids([c]), {}) == []
  {
    assert [c][..0] == [] && Ids([c])[..0] == [];
    assert Slot([c], {}, None) == Slot([c][..0], {}, None) + [c];
  }

  lemma FirstOfTwo(a: Tree, b: Tree)
    requires a.id == b.id
    ensures Dedup([a] + [b]) == [a]
  {
    var all := [a] + [b];
    assert all[..1] == [a] && [a][..0] == [];
    assert [a][0].id in Names([a]);
    assert Dedup([a]) == Dedup([a][..0]) + [a];
  }

  lemma AddsBelow(n: NodeId, x: NodeId, y: Tree)
    requires y.Leaf?
    ensures Added(Some(List(n, [])), Some(List(n, [List(x, [y])])), [n, x, y.id])
    ensures !HasOpt(Some(List(n, [List(x, [])])), [n, x, y.id])
  {
    var p := [n, x, y.id];
    assert p[1..] == [x, y.id] && p[1..][1..] == [y.id];
    assert y in [y] && Has(y, [y.id]);
    var tx := List(x, [y]);
    assert HasIn(tx.children, [y.id]) && Has(tx, [x, y.id]);
    assert tx in [tx] && HasIn([tx], [x, y.id]);
    assert !HasIn([], [x, y.id]) && !HasIn([], [y.id]);
    forall c | c in [List(x, [])] ensures !Has(c, [x, y.id]) {
      assert c == List(x, []);
    }
    assert !HasIn([List(x, [])], [x, y.id]);
  }
}
