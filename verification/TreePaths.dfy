/** Id uniqueness of a tree in terms of its root-to-node id paths. */
module TreePaths {
  import opened Prelude
  import opened Trees

  /** No id ends two different paths. */
  ghost predicate PathUnique(t: Tree) {
    forall p, q :: Has(t, p) && Has(t, q) && Last(p) == Last(q) ==> p == q
  }

  lemma {:induction false} PathId(t: Tree, p: seq<NodeId>)
    requires Has(t, p)
    ensures Last(p) in IdSet(t)
    decreases |p|
  {
    if |p| > 1 {
      var c :| c in t.children && Has(c, p[1..]);
      var i :| 0 <= i < |t.children| && t.children[i] == c;
      PathId(c, p[1..]);
      assert Last(p) == Last(p[1..]);
    }
  }

  lemma {:induction false} IdPath(t: Tree, x: NodeId) returns (p: seq<NodeId>)
    requires x in IdSet(t)
    ensures Has(t, p) && Last(p) == x
    decreases t
  {
    if x == t.id {
      p := [x];
    } else {
      var i :| 0 <= i < |t.children| && x in IdSet(t.children[i]);
      var q := IdPath(t.children[i], x);
      p := [t.id] + q;
      assert p[1..] == q && t.children[i] in t.children;
    }
  }

  lemma Below(t: Tree, i: nat, p: seq<NodeId>)
    requires t.List? && i < |t.children| && Has(t.children[i], p)
    ensures Has(t, [t.id] + p)
    ensures Last([t.id] + p) == Last(p)
  {
    assert ([t.id] + p)[1..] == p;
    assert t.children[i] in t.children;
  }

  lemma {:induction false} UniqueIsPathUnique(t: Tree, p: seq<NodeId>, q: seq<NodeId>)
    requires Unique(t) && Has(t, p) && Has(t, q) && Last(p) == Last(q)
    ensures p == q
    decreases |p|
  {
    if |p| == 1 && |q| == 1 {
    } else if |p| > 1 && |q| > 1 {
      var c :| c in t.children && Has(c, p[1..]);
      var d :| d in t.children && Has(d, q[1..]);
      var i :| 0 <= i < |t.children| && t.children[i] == c;
      var j :| 0 <= j < |t.children| && t.children[j] == d;
      PathId(c, p[1..]);
      PathId(d, q[1..]);
      assert Last(p) in IdSet(t.children[i]) && Last(p) in IdSet(t.children[j]);
      assert i == j;
      UniqueIsPathUnique(c, p[1..], q[1..]);
      assert p == [p[0]] + p[1..] && q == [q[0]] + q[1..];
    } else {
      var r := if |p| > 1 then p else q;
      var c :| c in t.children && Has(c, r[1..]);
      var i :| 0 <= i < |t.children| && t.children[i] == c;
      PathId(c, r[1..]);
      assert false;
    }
  }

  lemma {:induction false} UniqueIsSiblingUnique(t: Tree)
    requires Unique(t)
    ensures SiblingUnique(t)
    decreases t
  {
    if t.List? {
      forall i | 0 <= i < |t.children| ensures SiblingUnique(t.children[i]) {
        UniqueIsSiblingUnique(t.children[i]);
      }
      forall i, j | 0 <= i < j < |t.children| ensures t.children[i].id != t.children[j].id {
        assert t.children[i].id in IdSet(t.children[i]);
        assert t.children[j].id in IdSet(t.children[j]);
      }
    }
  }

  lemma {:induction false} PathUniqueIsUnique(t: Tree)
    requires SiblingUnique(t) && PathUnique(t)
    ensures Unique(t)
    decreases t
  {
    if t.List? {
      if t.id in IdSetOf(t.children) {
        var i :| 0 <= i < |t.children| && t.id in IdSet(t.children[i]);
        assert Has(t, [t.id]) && Last([t.id]) == t.id;
        var p := IdPath(t.children[i], t.id);
        Below(t, i, p);
        assert false;
      }
      forall i | 0 <= i < |t.children| ensures Unique(t.children[i]) {
        ChildPathUnique(t, i);
        PathUniqueIsUnique(t.children[i]);
      }
      forall i, j | 0 <= i < j < |t.children| ensures IdSet(t.children[i]) !! IdSet(t.children[j]) {
        if x :| x in IdSet(t.children[i]) && x in IdSet(t.children[j]) {
          var p := IdPath(t.children[i], x);
          var q := IdPath(t.children[j], x);
          Below(t, i, p);
          Below(t, j, q);
          assert false;
        }
      }
    }
  }

  lemma ChildPathUnique(t: Tree, i: nat)
    requires t.List? && i < |t.children| && PathUnique(t)
    ensures PathUnique(t.children[i])
  {
    var c := t.children[i];
    forall p, q | Has(c, p) && Has(c, q) && Last(p) == Last(q) ensures p == q {
      Below(t, i, p);
      Below(t, i, q);
      assert ([t.id] + p)[1..] == p && ([t.id] + q)[1..] == q;
    }
  }
}
