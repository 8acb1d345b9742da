/** The one parent of a node, in a tree and in its table (src/weave_frontend/sexpr.py). */
module Parents {
  import opened Prelude
  import opened Trees
  import opened TreeTables
  import opened BatchSpec

  /** `id` is the i-th child of `p`, as the tree and its table agree. */
  ghost predicate IsParent(t: Tree, p: Tree, i: nat, id: NodeId) {
    && Subtree(p, t) && p.List? && i < |p.children| && p.children[i].id == id
    && p.id in Rows(t) && Rows(t)[p.id] == ListRow(Ids(p.children))
    && id in Rows(t) && id in Ids(p.children)
    && ParentIn(Rows(t), id) == Some(p.id) && IndexOf(Ids(p.children), id) == i
    && Descendants(Rows(t), id) == IdSet(p.children[i]) && p.id !in IdSet(p.children[i])
  }

  lemma {:induction false} IndexIs(s: seq<NodeId>, i: nat)
    requires i < |s| && forall j :: 0 <= j < i ==> s[j] != s[i]
    ensures IndexOf(s, s[i]) == i
  {
    if i > 0 {
      assert s[1..][i - 1] == s[i];
      IndexIs(s[1..], i - 1);
    }
  }

  /** A node has one parent. */
  lemma {:induction false} OneParent(t: Tree, p: Tree, i: nat, v: Tree, j: nat)
    requires Unique(t) && Subtree(p, t) && Subtree(v, t)
    requires p.List? && v.List? && i < |p.children| && j < |v.children| && p.children[i].id == v.children[j].id
    ensures p == v
    decreases t
  {
    hide Unique;
    hide IdSet;
    if p == t {
      RootParent(t, i, v, j);
    } else if v == t {
      RootParent(t, j, p, i);
    } else {
      var k :| 0 <= k < |t.children| && Subtree(p, t.children[k]);
      var m :| 0 <= m < |t.children| && Subtree(v, t.children[m]);
      ChildRow(t, k, t.children[k].id) by {
        OwnId(t.children[k]);
      }
      ChildRow(t, m, t.children[m].id) by {
        OwnId(t.children[m]);
      }
      ChildBelow(t.children[k], p, i);
      ChildBelow(t.children[m], v, j);
      OneOwner(t, k, m, p.children[i].id);
      OneParent(t.children[k], p, i, v, j);
    }
  }

  lemma OwnId(t: Tree)
    ensures t.id in IdSet(t)
  {
  }

  lemma OneOwner(t: Tree, k: nat, m: nat, x: NodeId)
    requires Unique(t) && t.List? && k < |t.children| && m < |t.children|
    requires x in IdSet(t.children[k]) && x in IdSet(t.children[m])
    ensures k == m
  {
    assert UniqueAll(t.children);
  }

  // Another node cannot have a child of the root as its child.
  lemma RootParent(t: Tree, i: nat, v: Tree, j: nat)
    requires Unique(t) && Subtree(v, t) && t.List? && v.List? && i < |t.children| && j < |v.children|
    requires t.children[i].id == v.children[j].id
    ensures v == t
  {
    hide Unique;
    hide IdSet;
    if v != t {
      var m :| 0 <= m < |t.children| && Subtree(v, t.children[m]);
      OwnId(t.children[i]);
      OwnId(t.children[m]);
      ChildRow(t, m, t.children[m].id);
      ChildBelow(t.children[m], v, j);
      OneOwner(t, i, m, t.children[i].id);
    }
  }

  // A child is below the root of any tree that holds its parent.
  lemma ChildBelow(t: Tree, p: Tree, i: nat)
    requires Unique(t) && Subtree(p, t) && p.List? && i < |p.children|
    ensures p.children[i].id in IdSet(t) && p.children[i].id != t.id
  {
    assert Subtree(p.children[i], p);
    SubtreeTrans(p.children[i], p, t);
    SubtreeIds(p.children[i], t);
    if p.children[i].id == t.id {
      RootNode(p.children[i], t);
      SubtreeRows(p, t);
      SubtreeIds(p, t);
      assert p.id in IdSet(p.children[i]);
      ChildRow(p, i, p.id);
      assert false;
    }
  }

  lemma ParentIs(t: Tree, p: Tree, i: nat)
    requires Unique(t) && Subtree(p, t) && p.List? && i < |p.children|
    ensures IsParent(t, p, i, p.children[i].id)
  {
    var child := p.children[i];
    ParentRow(t, p, i);
    ParentIndex(t, p, i);
    ChildSubtree(t, p, i);
    DescendantsAre(t, child);
    SubtreeIds(child, t);
    RowsKeys(t);
    hide Rows;
    hide IdSet;
    hide Unique;
    hide Descendants;
    hide ParentIn;
    hide IndexOf;
  }

  lemma ParentRow(t: Tree, p: Tree, i: nat)
    requires Unique(t) && Subtree(p, t) && p.List? && i < |p.children|
    ensures p.id in Rows(t) && Rows(t)[p.id] == ListRow(Ids(p.children)) && ParentIn(Rows(t), p.children[i].id) == Some(p.id)
  {
    var id := p.children[i].id;
    SubtreeRows(p, t);
    SubtreeIds(p, t);
    assert Rows(t)[p.id] == Rows(p)[p.id] == OwnRow(p);
    assert Ids(p.children)[i] == id;
    assert Linked(Rows(t), p.id, id);
    forall q | Linked(Rows(t), q, id) ensures q == p.id {
      RowsKeys(t);
      var v := HasNode(t, q);
      LinkedKid(t, v, id);
      var j :| 0 <= j < |v.children| && v.children[j].id == id;
      OneParent(t, p, i, v, j);
    }
  }

  lemma ParentIndex(t: Tree, p: Tree, i: nat)
    requires Unique(t) && Subtree(p, t) && p.List? && i < |p.children|
    ensures p.children[i].id in Ids(p.children) && IndexOf(Ids(p.children), p.children[i].id) == i
    ensures p.id !in IdSet(p.children[i])
  {
    SubtreeRows(p, t);
    ChildRow(p, i, p.children[i].id);
    assert UniqueAll(p.children);
    assert Ids(p.children)[i] == p.children[i].id;
    forall j | 0 <= j < i ensures p.children[j].id != p.children[i].id {
      assert IdSet(p.children[j]) !! IdSet(p.children[i]);
      assert p.children[j].id in IdSet(p.children[j]) && p.children[i].id in IdSet(p.children[i]);
    }
    IndexIs(Ids(p.children), i);
    assert p.id !in IdSetOf(p.children);
  }

  lemma NoParent(t: Tree, id: NodeId)
    requires Unique(t) && (id !in IdSet(t) || id == t.id)
    ensures ParentIn(Rows(t), id).None?
  {
    forall q | Linked(Rows(t), q, id) ensures false {
      RowsKeys(t);
      var v := HasNode(t, q);
      LinkedKid(t, v, id);
      var j :| 0 <= j < |v.children| && v.children[j].id == id;
      ChildBelow(t, v, j);
    }
  }

  lemma ParentParts(t: Tree, p: Tree, i: nat, id: NodeId)
    requires Unique(t) && IsParent(t, p, i, id)
    ensures Subtree(p, t) && p.List? && i < |p.children| && p.children[i].id == id && Subtree(p.children[i], t)
    ensures Rows(t)[p.id] == ListRow(Ids(p.children)) && ParentIn(Rows(t), id) == Some(p.id)
    ensures id in Ids(p.children) && IndexOf(Ids(p.children), id) == i
    ensures Descendants(Rows(t), id) == IdSet(p.children[i]) && p.id !in IdSet(p.children[i])
  {
    ChildSubtree(t, p, i);
  }
}
