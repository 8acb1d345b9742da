/** A tree as a table of rows, one a node, and the one tree edit that every batch operation makes:
    putting a new subtree in the place of an old one. */
module TreeTables {
  import opened Prelude
  import opened Trees
  import opened Validity

  datatype Row = AtomRow(atom: Atom) | ListRow(kids: seq<NodeId>)
  type Table = map<NodeId, Row>

  function OwnRow(t: Tree): Row {
    if t.Leaf? then AtomRow(t.atom) else ListRow(Ids(t.children))
  }

  function RowOf(t: Tree, x: NodeId): Row
    requires x in IdSet(t)
    decreases t, 1
  {
    if x == t.id then OwnRow(t) else RowIn(t.children, x)
  }

  function RowIn(ts: seq<Tree>, x: NodeId): Row
    requires x in IdSetOf(ts)
    decreases ts, 0
  {
    var last := ts[|ts| - 1];
    if x in IdSet(last) then RowOf(last, x)
    else
      InEarlier(ts, x);
      RowIn(ts[..|ts| - 1], x)
  }

  lemma InEarlier(ts: seq<Tree>, x: NodeId)
    requires x in IdSetOf(ts) && x !in IdSet(ts[|ts| - 1])
    ensures x in IdSetOf(ts[..|ts| - 1])
  {
    var i :| 0 <= i < |ts| && x in IdSet(ts[i]);
    assert ts[..|ts| - 1][i] == ts[i];
  }

  /** The table of a tree: an atom's value, or a list's child ids in order, for every node. */
  function Rows(t: Tree): Table {
    map x | x in IdSet(t) :: RowOf(t, x)
  }

  lemma {:induction false} RowInAt(ts: seq<Tree>, i: nat, x: NodeId)
    requires UniqueAll(ts) && i < |ts| && x in IdSet(ts[i])
    ensures x in IdSetOf(ts) && RowIn(ts, x) == RowOf(ts[i], x)
    decreases |ts|
  {
    assert x in IdSetOf(ts);
    if i < |ts| - 1 {
      assert ts[..|ts| - 1][i] == ts[i];
      RowInAt(ts[..|ts| - 1], i, x);
    }
  }

  lemma ChildRow(t: Tree, i: nat, x: NodeId)
    requires Unique(t) && t.List? && i < |t.children| && x in IdSet(t.children[i])
    ensures x != t.id && x in IdSet(t) && RowOf(t, x) == RowOf(t.children[i], x) && Unique(t.children[i])
  {
    assert UniqueAll(t.children);
    RowInAt(t.children, i, x);
    assert t.id !in IdSetOf(t.children);
  }

  /** The table of a subtree is part of the table of the tree. */
  lemma {:induction false} SubtreeRows(u: Tree, t: Tree)
    requires Unique(t) && Subtree(u, t)
    ensures Unique(u) && Rows(u).Keys <= Rows(t).Keys
    ensures forall x :: x in Rows(u) ==> x in Rows(t) && Rows(u)[x] == Rows(t)[x]
    decreases t
  {
    SubtreeIds(u, t);
    if u != t {
      var i :| 0 <= i < |t.children| && Subtree(u, t.children[i]);
      ChildRow(t, i, t.children[i].id);
      SubtreeRows(u, t.children[i]);
      forall x | x in IdSet(u) ensures RowOf(u, x) == RowOf(t, x) {
        assert Rows(u)[x] == Rows(t.children[i])[x];
        ChildRow(t, i, x);
      }
    }
  }

  lemma RootNode(u: Tree, t: Tree)
    requires Unique(t) && Subtree(u, t) && u.id == t.id
    ensures u == t
  {
    if u != t {
      var i :| 0 <= i < |t.children| && Subtree(u, t.children[i]);
      SubtreeIds(u, t.children[i]);
    }
  }

  /** In a tree with unique ids, an id names one node. */
  lemma {:induction false} OneNode(u: Tree, v: Tree, t: Tree)
    requires Unique(t) && Subtree(u, t) && Subtree(v, t) && u.id == v.id
    ensures u == v
    decreases t
  {
    if u.id == t.id {
      RootNode(u, t);
      RootNode(v, t);
    } else {
      var i :| 0 <= i < |t.children| && Subtree(u, t.children[i]);
      SubtreeIds(u, t.children[i]);
      var j :| 0 <= j < |t.children| && Subtree(v, t.children[j]);
      SubtreeIds(v, t.children[j]);
      assert UniqueAll(t.children);
      OneNode(u, v, t.children[i]);
    }
  }

  lemma {:induction false} HasNode(t: Tree, x: NodeId) returns (u: Tree)
    requires x in IdSet(t)
    ensures Subtree(u, t) && u.id == x
    decreases t
  {
    if x == t.id {
      u := t;
    } else {
      var i :| 0 <= i < |t.children| && x in IdSet(t.children[i]);
      u := HasNode(t.children[i], x);
    }
  }

  lemma FoundRow(t: Tree, u: Tree)
    requires Unique(t) && Subtree(u, t)
    ensures u.id in Rows(t) && Rows(t)[u.id] == OwnRow(u)
  {
    SubtreeRows(u, t);
    assert u.id in IdSet(u);
    assert Rows(u)[u.id] == OwnRow(u);
  }

  // ----- grafting

  /** The tree with the node `id` replaced by `new`. */
  function Graft(t: Tree, id: NodeId, new': Tree): Tree {
    if t.id == id then new'
    else if t.List? then List(t.id, GraftAll(t.children, id, new'))
    else t
  }

  function GraftAll(ts: seq<Tree>, id: NodeId, new': Tree): (r: seq<Tree>)
    ensures |r| == |ts| && forall i :: 0 <= i < |ts| ==> r[i] == Graft(ts[i], id, new')
  {
    if ts == [] then [] else GraftAll(ts[..|ts| - 1], id, new') + [Graft(ts[|ts| - 1], id, new')]
  }

  lemma {:induction false} GraftAbsent(t: Tree, id: NodeId, new': Tree)
    requires id !in IdSet(t)
    ensures Graft(t, id, new') == t
    decreases t
  {
    if t.List? {
      forall i | 0 <= i < |t.children| ensures Graft(t.children[i], id, new') == t.children[i] {
        assert IdSet(t.children[i]) <= IdSetOf(t.children);
        GraftAbsent(t.children[i], id, new');
      }
      assert GraftAll(t.children, id, new') == t.children;
    }
  }

  // What grafting `new'` over `old'` in `t` needs of them.
  ghost predicate Graftable(t: Tree, old': Tree, new': Tree) {
    && Unique(t) && Subtree(old', t) && Unique(new') && new'.id == old'.id
    && IdSet(new') !! (IdSet(t) - IdSet(old'))
  }

  // Below the root, a graft changes one child only.
  lemma GraftChild(t: Tree, old': Tree, new': Tree) returns (i: nat)
    requires Graftable(t, old', new') && old'.id != t.id
    ensures t.List? && i < |t.children| && Graftable(t.children[i], old', new')
    ensures Graft(t, old'.id, new') == List(t.id, t.children[i := Graft(t.children[i], old'.id, new')])
    ensures IdSet(old') <= IdSet(t.children[i]) <= IdSet(t) - {t.id} && t.id !in IdSet(new')
    ensures IdSet(new') !! (IdSet(t) - IdSet(t.children[i]))
  {
    i :| 0 <= i < |t.children| && Subtree(old', t.children[i]);
    var ts := t.children;
    SubtreeIds(old', ts[i]);
    ChildRow(t, i, old'.id);
    assert IdSet(ts[i]) <= IdSetOf(ts) <= IdSet(t);
    GraftOthers(ts, i, old'.id, new');
  }

  lemma GraftOthers(ts: seq<Tree>, i: nat, id: NodeId, new': Tree)
    requires UniqueAll(ts) && i < |ts| && id in IdSet(ts[i])
    ensures GraftAll(ts, id, new') == ts[i := Graft(ts[i], id, new')]
  {
    forall j | 0 <= j < |ts| && j != i ensures Graft(ts[j], id, new') == ts[j] {
      GraftAbsent(ts[j], id, new');
    }
  }

  lemma IdSetUpdate(ts: seq<Tree>, i: nat, t: Tree)
    requires UniqueAll(ts) && i < |ts|
    ensures IdSetOf(ts[i := t]) == IdSetOf(ts) - IdSet(ts[i]) + IdSet(t)
  {
    var us := ts[i := t];
    forall x | x in IdSetOf(us) ensures x in IdSetOf(ts) - IdSet(ts[i]) + IdSet(t) {
      var j :| 0 <= j < |us| && x in IdSet(us[j]);
    }
    forall x | x in IdSetOf(ts) - IdSet(ts[i]) + IdSet(t) ensures x in IdSetOf(us) {
      if x in IdSet(t) {
        assert us[i] == t;
      } else {
        var j :| 0 <= j < |ts| && x in IdSet(ts[j]);
        assert us[j] == ts[j];
      }
    }
  }

  lemma {:induction false} SizeUpdate(ts: seq<Tree>, i: nat, t: Tree)
    requires i < |ts|
    ensures SizeOf(ts[i := t]) == SizeOf(ts) - Size(ts[i]) + Size(t)
    decreases |ts|
  {
    var init, us := ts[..|ts| - 1], ts[i := t];
    if i < |ts| - 1 {
      SizeUpdate(init, i, t);
      assert us[..|us| - 1] == init[i := t];
    } else {
      assert us[..|us| - 1] == init;
    }
  }

  lemma UniqueUpdate(t: Tree, i: nat, u: Tree)
    requires Unique(t) && t.List? && i < |t.children| && Unique(u)
    requires IdSet(u) !! (IdSet(t) - IdSet(t.children[i]))
    ensures Unique(List(t.id, t.children[i := u]))
    ensures IdSet(List(t.id, t.children[i := u])) == IdSet(t) - IdSet(t.children[i]) + IdSet(u)
  {
    var ts := t.children;
    var us := ts[i := u];
    assert UniqueAll(ts);
    IdSetUpdate(ts, i, u);
    assert t.id !in IdSet(ts[i]) by {
      ChildRow(t, i, ts[i].id);
      assert IdSet(ts[i]) <= IdSetOf(ts);
    }
    forall j | 0 <= j < |ts| && j != i ensures IdSet(us[j]) !! IdSet(u) {
      assert IdSet(ts[j]) <= IdSetOf(ts);
      assert IdSet(ts[j]) !! IdSet(ts[i]);
    }
  }

  /** Grafting keeps the root's id and unique ids, and accounts for every id and node. */
  lemma {:induction false} GraftIds(t: Tree, old': Tree, new': Tree)
    requires Graftable(t, old', new')
    ensures var g := Graft(t, old'.id, new');
      && g.id == t.id && Unique(g) && Subtree(new', g)
      && IdSet(g) == IdSet(t) - IdSet(old') + IdSet(new')
      && Size(g) == Size(t) - Size(old') + Size(new')
    decreases t
  {
    SubtreeIds(old', t);
    if old'.id == t.id {
      RootNode(old', t);
    } else {
      var i := GraftChild(t, old', new');
      var u := Graft(t.children[i], old'.id, new');
      GraftIds(t.children[i], old', new');
      assert Unique(t);
      hide Unique;
      hide IdSet;
      hide Subtree;
      hide GraftAll;
      hide Graft;
      SetSwap(IdSet(t), IdSet(t.children[i]), IdSet(old'), IdSet(new'));
      UniqueUpdate(t, i, u);
      SizeUpdate(t.children, i, u);
      SubtreeUp(new', List(t.id, t.children[i := u]), i);
    }
  }

  lemma SubtreeUp(u: Tree, t: Tree, i: nat)
    requires t.List? && i < |t.children| && Subtree(u, t.children[i])
    ensures Subtree(u, t)
  {
  }

  lemma SetSwap<T>(t: set<T>, c: set<T>, o: set<T>, n: set<T>)
    requires o <= c <= t && n !! (t - c)
    ensures t - c + (c - o + n) == t - o + n && (c - o + n) !! (t - c)
  {
  }

  // `g` is `t` with its i-th child replaced.
  ghost predicate Updated(t: Tree, i: nat, g: Tree) {
    && t.List? && i < |t.children| && g.List? && Unique(t) && Unique(g)
    && g.id == t.id && |g.children| == |t.children| && Ids(g.children) == Ids(t.children)
    && (forall j :: 0 <= j < |t.children| && j != i ==> g.children[j] == t.children[j])
  }

  lemma UpdatedRow(t: Tree, i: nat, g: Tree, x: NodeId)
    requires Updated(t, i, g) && x in IdSet(g)
    ensures x in IdSet(g.children[i]) ==> RowOf(g, x) == RowOf(g.children[i], x)
    ensures x !in IdSet(g.children[i]) ==> x in IdSet(t) && x !in IdSet(t.children[i]) && RowOf(g, x) == RowOf(t, x)
  {
    if x == t.id {
      ChildRow(t, i, t.children[i].id);
      assert IdSet(t.children[i]) <= IdSetOf(t.children) && IdSet(g.children[i]) <= IdSetOf(g.children);
    } else {
      var j :| 0 <= j < |g.children| && x in IdSet(g.children[j]);
      ChildRow(g, j, x);
      if j != i {
        ChildRow(t, j, x);
        assert UniqueAll(t.children) && UniqueAll(g.children);
      }
    }
  }

  /** `after` is `before` without the rows of `removed` and with those of `added`. */
  ghost predicate Replaced(before: Table, removed: set<NodeId>, added: Table, after: Table) {
    && after.Keys == before.Keys - removed + added.Keys
    && (forall x :: x in after ==> after[x] == if x in added then added[x] else before[x])
  }

  /** Grafting changes the rows of the replaced subtree and no other. */
  lemma {:induction false} GraftRows(t: Tree, old': Tree, new': Tree)
    requires Graftable(t, old', new')
    ensures Replaced(Rows(t), IdSet(old'), Rows(new'), Rows(Graft(t, old'.id, new')))
    decreases t
  {
    if old'.id == t.id {
      SubtreeIds(old', t);
      RootNode(old', t);
    } else {
      var i := GraftStep(t, old', new');
      GraftRows(t.children[i], old', new');
      hide *;
      UpdatedRows(t, old', new', i, Graft(t, old'.id, new'));
    }
  }

  lemma GraftStep(t: Tree, old': Tree, new': Tree) returns (i: nat)
    requires Graftable(t, old', new') && old'.id != t.id
    ensures var g := Graft(t, old'.id, new');
      && Updated(t, i, g) && IdSet(old') <= IdSet(t.children[i])
      && g.children[i] == Graft(t.children[i], old'.id, new')
      && IdSet(g) == IdSet(t) - IdSet(old') + IdSet(new')
      && Graftable(t.children[i], old', new')
  {
    i := GraftChild(t, old', new');
    GraftIds(t, old', new');
    GraftIds(t.children[i], old', new');
    assert Unique(t);
    hide *;
    IsUpdated(t, i, Graft(t.children[i], old'.id, new'));
  }

  lemma IsUpdated(t: Tree, i: nat, u: Tree)
    requires t.List? && i < |t.children| && Unique(t) && Unique(List(t.id, t.children[i := u])) && u.id == t.children[i].id
    ensures Updated(t, i, List(t.id, t.children[i := u]))
  {
  }

  lemma RowsKeys(t: Tree)
    ensures Rows(t).Keys == IdSet(t)
  {
  }

  lemma UpdatedRows(t: Tree, old': Tree, new': Tree, i: nat, g: Tree)
    requires Updated(t, i, g) && IdSet(old') <= IdSet(t.children[i])
    requires Replaced(Rows(t.children[i]), IdSet(old'), Rows(new'), Rows(g.children[i]))
    requires IdSet(g) == IdSet(t) - IdSet(old') + IdSet(new')
    ensures Replaced(Rows(t), IdSet(old'), Rows(new'), Rows(g))
  {
    forall x | x in IdSet(g) ensures x in Rows(new') || x in Rows(t)
      ensures RowOf(g, x) == if x in Rows(new') then Rows(new')[x] else Rows(t)[x]
    {
      GraftRow(t, old', new', i, g, x);
    }
  }

  lemma GraftRow(t: Tree, old': Tree, new': Tree, i: nat, g: Tree, x: NodeId)
    requires Updated(t, i, g) && x in IdSet(g) && IdSet(old') <= IdSet(t.children[i])
    requires Replaced(Rows(t.children[i]), IdSet(old'), Rows(new'), Rows(g.children[i]))
    requires IdSet(g) == IdSet(t) - IdSet(old') + IdSet(new')
    ensures x in IdSet(new') || x in IdSet(t)
    ensures RowOf(g, x) == if x in IdSet(new') then RowOf(new', x) else RowOf(t, x)
  {
    UpdatedRow(t, i, g, x);
    assert Unique(t) && t.List? && g.List? && i < |t.children| == |g.children|;
    hide RowOf;
    hide Updated;
    hide Unique;
    hide IdSet;
    if x in IdSet(g.children[i]) {
      assert Rows(g.children[i])[x] == RowOf(g, x);
      if x !in IdSet(new') {
        ChildRow(t, i, x);
        assert Rows(t.children[i])[x] == RowOf(t, x);
      }
    } else {
      RowsKeys(g.children[i]);
      RowsKeys(new');
    }
  }

  // ----- one child more or less

  function InsertAt<T>(s: seq<T>, i: nat, x: T): seq<T>
    requires i <= |s|
  {
    s[..i] + [x] + s[i..]
  }

  function RemoveAt<T>(s: seq<T>, i: nat): seq<T>
    requires i < |s|
  {
    s[..i] + s[i + 1..]
  }

  lemma RemoveInsert<T>(s: seq<T>, i: nat, x: T)
    ensures i <= |s| ==> RemoveAt(InsertAt(s, i, x), i) == s
    ensures i < |s| ==> InsertAt(RemoveAt(s, i), i, s[i]) == s && InsertAt(RemoveAt(s, i), i, x) == s[i := x]
  {
    if i <= |s| {
      var t := InsertAt(s, i, x);
      assert t[..i] == s[..i] && t[i + 1..] == s[i..];
      assert s[..i] + s[i..] == s;
    }
    if i < |s| {
      var t := RemoveAt(s, i);
      assert t[..i] == s[..i] && t[i..] == s[i + 1..];
      assert s[..i] + [s[i]] + s[i + 1..] == s && s[..i] + [x] + s[i + 1..] == s[i := x];
    }
  }

  lemma IdsInsert(ts: seq<Tree>, i: nat, t: Tree)
    requires i <= |ts|
    ensures Ids(InsertAt(ts, i, t)) == InsertAt(Ids(ts), i, t.id)
  {
  }

  lemma IdsRemove(ts: seq<Tree>, i: nat)
    requires i < |ts|
    ensures Ids(RemoveAt(ts, i)) == RemoveAt(Ids(ts), i)
  {
  }

  lemma InsertIds(ts: seq<Tree>, i: nat, t: Tree)
    requires i <= |ts|
    ensures IdSetOf(InsertAt(ts, i, t)) == IdSetOf(ts) + IdSet(t)
    ensures SizeOf(InsertAt(ts, i, t)) == SizeOf(ts) + Size(t)
  {
    assert ts == ts[..i] + ts[i..] && InsertAt(ts, i, t) == ts[..i] + ([t] + ts[i..]);
    IdSetOfConcat(ts[..i], ts[i..]);
    IdSetOfConcat(ts[..i], [t] + ts[i..]);
    IdSetOfConcat([t], ts[i..]);
    SizeOfConcat(ts[..i], ts[i..]);
    SizeOfConcat(ts[..i], [t] + ts[i..]);
    SizeOfConcat([t], ts[i..]);
    hide IdSet;
    assert IdSetOf([t]) == IdSet(t) by {
      assert [t][0] == t;
    }
    assert [t][..0] == [];
  }

  lemma IdSetOfConcat(a: seq<Tree>, b: seq<Tree>)
    ensures IdSetOf(a + b) == IdSetOf(a) + IdSetOf(b)
  {
    var d := a + b;
    hide IdSet;
    assert forall i :: 0 <= i < |a| ==> d[i] == a[i];
    assert forall i :: 0 <= i < |b| ==> d[|a| + i] == b[i];
    forall x | x in IdSetOf(a) + IdSetOf(b) ensures x in IdSetOf(d) {
      if x in IdSetOf(a) {
        var i :| 0 <= i < |a| && x in IdSet(a[i]);
        assert x in IdSet(d[i]);
      } else {
        var i :| 0 <= i < |b| && x in IdSet(b[i]);
        assert x in IdSet(d[|a| + i]);
      }
    }
  }

  lemma UniqueInsert(ts: seq<Tree>, i: nat, t: Tree)
    requires i <= |ts|
    ensures UniqueAll(InsertAt(ts, i, t)) <==> UniqueAll(ts) && Unique(t) && IdSet(t) !! IdSetOf(ts)
  {
    var a, b := ts[..i], ts[i..];
    assert ts == a + b && InsertAt(ts, i, t) == a + ([t] + b);
    UniqueAllConcat(a, b);
    UniqueAllConcat(a, [t] + b);
    UniqueAllConcat([t], b);
    IdSetOfConcat(a, b);
    hide Unique;
    hide IdSet;
    assert UniqueAll([t]) <==> Unique(t) by {
      assert [t][0] == t;
    }
    hide UniqueAll;
    InsertApart(a, t, b);
  }

  lemma InsertApart(a: seq<Tree>, t: Tree, b: seq<Tree>)
    ensures (forall i, j :: 0 <= i < |a| && 0 <= j < |[t] + b| ==> IdSet(a[i]) !! IdSet(([t] + b)[j])) <==>
      (forall i, j :: 0 <= i < |a| && 0 <= j < |b| ==> IdSet(a[i]) !! IdSet(b[j])) && IdSet(t) !! IdSetOf(a)
    ensures (forall i, j :: 0 <= i < |[t]| && 0 <= j < |b| ==> IdSet([t][i]) !! IdSet(b[j])) <==> IdSet(t) !! IdSetOf(b)
  {
    var c := [t] + b;
    hide IdSet;
    assert c[0] == t && forall j :: 0 <= j < |b| ==> c[j + 1] == b[j];
    if forall i, j :: 0 <= i < |a| && 0 <= j < |c| ==> IdSet(a[i]) !! IdSet(c[j]) {
      forall i, j | 0 <= i < |a| && 0 <= j < |b| ensures IdSet(a[i]) !! IdSet(b[j]) {
        assert IdSet(a[i]) !! IdSet(c[j + 1]);
      }
      forall i | 0 <= i < |a| ensures IdSet(a[i]) !! IdSet(t) {
        assert IdSet(a[i]) !! IdSet(c[0]);
      }
    }
    assert forall i :: 0 <= i < |a| ==> IdSet(a[i]) <= IdSetOf(a);
    assert forall i :: 0 <= i < |b| ==> IdSet(b[i]) <= IdSetOf(b);
    if forall j :: 0 <= j < |b| ==> IdSet([t][0]) !! IdSet(b[j]) {
      assert IdSet(t) !! IdSetOf(b);
    }
  }

  // A list and the same list with one more child.
  ghost predicate Gains(p: Tree, i: nat, node: Tree, q: Tree) {
    && p.List? && i <= |p.children| && q == List(p.id, InsertAt(p.children, i, node))
  }

  /** A list that gains a child: its ids, size and rows. */
  lemma GainIds(p: Tree, i: nat, node: Tree, q: Tree)
    requires Gains(p, i, node, q)
    ensures Unique(q) <==> Unique(p) && Unique(node) && IdSet(node) !! IdSet(p)
    ensures IdSet(q) == IdSet(p) + IdSet(node) && Size(q) == Size(p) + Size(node)
    ensures Subtree(node, q)
  {
    InsertIds(p.children, i, node);
    UniqueInsert(p.children, i, node);
    assert q.children[i] == node;
    hide UniqueAll;
  }

  lemma GainRow(p: Tree, i: nat, node: Tree, q: Tree, x: NodeId)
    requires Gains(p, i, node, q) && Unique(q) && Unique(p)
    ensures x in IdSet(node) ==> x in IdSet(q) && RowOf(q, x) == RowOf(node, x)
    ensures x in IdSet(p) && x != p.id ==> x in IdSet(q) && RowOf(q, x) == RowOf(p, x)
  {
    hide RowOf;
    hide Unique;
    hide IdSet;
    if x in IdSet(node) {
      assert q.children[i] == node;
      ChildRow(q, i, x);
    }
    if x in IdSet(p) && x != p.id {
      var j := OwnerChild(p, x);
      var k := if j < i then j else j + 1;
      assert q.children[k] == p.children[j];
      ChildRow(p, j, x);
      ChildRow(q, k, x);
    }
  }

  lemma OwnerChild(p: Tree, x: NodeId) returns (j: nat)
    requires x in IdSet(p) && x != p.id
    ensures p.List? && j < |p.children| && x in IdSet(p.children[j])
  {
    j :| 0 <= j < |p.children| && x in IdSet(p.children[j]);
  }

  lemma {:induction false} SubtreeTrans(a: Tree, b: Tree, c: Tree)
    requires Subtree(a, b) && Subtree(b, c)
    ensures Subtree(a, c)
    decreases c
  {
    if b != c {
      var i :| 0 <= i < |c.children| && Subtree(b, c.children[i]);
      SubtreeTrans(a, b, c.children[i]);
    }
  }

  // The rows of `t` once the list `p` has become `q`.
  ghost predicate Relisted(t: Tree, p: Tree, q: Tree, g: Tree) {
    && Unique(p) && Unique(q) && p.id == q.id && IdSet(p) <= IdSet(t) && p.id in IdSet(t)
    && Replaced(Rows(t), IdSet(p), Rows(q), Rows(g))
    && (forall x :: x in IdSet(p) ==> RowOf(p, x) == RowOf(t, x))
  }

  lemma RelistedBy(t: Tree, p: Tree, q: Tree)
    requires Graftable(t, p, q)
    ensures Relisted(t, p, q, Graft(t, p.id, q))
  {
    SubtreeRows(p, t);
    SubtreeIds(p, t);
    GraftRows(t, p, q);
    assert forall x :: x in IdSet(p) ==> Rows(p)[x] == Rows(t)[x];
  }

  /** Inserting a new subtree under a list. */
  lemma InsertChild(t: Tree, p: Tree, i: nat, node: Tree, q: Tree)
    requires Unique(t) && Subtree(p, t) && Gains(p, i, node, q) && Unique(node) && IdSet(node) !! IdSet(t)
    ensures var g := Graft(t, p.id, q);
      && g.id == t.id && Unique(g) && Subtree(node, g)
      && IdSet(g) == IdSet(t) + IdSet(node) && Size(g) == Size(t) + Size(node)
      && Rows(g) == Rows(t)[p.id := ListRow(InsertAt(Ids(p.children), i, node.id))] + Rows(node)
  {
    hide *;
    InsertGraft(t, p, i, node, q);
    GraftIds(t, p, q);
    RelistedBy(t, p, q);
    var g := Graft(t, p.id, q);
    SubtreeTrans(node, q, g);
    forall x | x in IdSet(g) ensures RowOf(g, x) == InsertedRow(t, p.id, OwnRow(q), node, x) {
      InsertRow(t, p, i, node, q, g, x);
    }
    InsertedRows(t, p.id, OwnRow(q), node, g);
  }

  lemma InsertGraft(t: Tree, p: Tree, i: nat, node: Tree, q: Tree)
    requires Unique(t) && Subtree(p, t) && Gains(p, i, node, q) && Unique(node) && IdSet(node) !! IdSet(t)
    ensures Graftable(t, p, q) && IdSet(q) == IdSet(p) + IdSet(node) && Size(q) == Size(p) + Size(node) && Subtree(node, q)
    ensures IdSet(t) - IdSet(p) + IdSet(q) == IdSet(t) + IdSet(node) && p.id in IdSet(t) && p.id == q.id
    ensures p.List? && i <= |p.children| && OwnRow(q) == ListRow(InsertAt(Ids(p.children), i, node.id))
  {
    hide Unique;
    hide IdSet;
    hide Size;
    hide Subtree;
    hide Rows;
    SubtreeRows(p, t);
    SubtreeIds(p, t);
    GainIds(p, i, node, q);
    IdsInsert(p.children, i, node);
  }

  function InsertedRow(t: Tree, p: NodeId, row: Row, node: Tree, x: NodeId): Row
    requires x in IdSet(t) || x in IdSet(node)
  {
    if x in IdSet(node) then RowOf(node, x) else if x == p then row else RowOf(t, x)
  }

  lemma InsertRow(t: Tree, p: Tree, i: nat, node: Tree, q: Tree, g: Tree, x: NodeId)
    requires Gains(p, i, node, q) && Relisted(t, p, q, g) && x in IdSet(g)
    requires IdSet(q) == IdSet(p) + IdSet(node) && IdSet(g) == IdSet(t) + IdSet(node) && IdSet(node) !! IdSet(t)
    ensures RowOf(g, x) == InsertedRow(t, p.id, OwnRow(q), node, x)
  {
    assert Rows(g)[x] == RowOf(g, x);
    GainRow(p, i, node, q, x);
    if x in IdSet(q) {
      assert Rows(q)[x] == RowOf(q, x);
    }
  }

  lemma InsertedRows(t: Tree, p: NodeId, row: Row, node: Tree, g: Tree)
    requires IdSet(g) == IdSet(t) + IdSet(node) && p in IdSet(t)
    requires forall x :: x in IdSet(g) ==> RowOf(g, x) == InsertedRow(t, p, row, node, x)
    requires IdSet(node) !! IdSet(t)
    ensures Rows(g) == Rows(t)[p := row] + Rows(node)
  {
    hide RowOf;
    hide IdSet;
  }

  /** Taking a child out of a list. */
  lemma RemoveChild(t: Tree, p: Tree, i: nat, q: Tree)
    requires Unique(t) && Subtree(p, t) && p.List? && i < |p.children| && q == List(p.id, RemoveAt(p.children, i))
    ensures var g, node := Graft(t, p.id, q), p.children[i];
      && g.id == t.id && Unique(g) && Unique(node) && p.id !in IdSet(node) && IdSet(node) <= IdSet(t)
      && IdSet(g) == IdSet(t) - IdSet(node) && Size(g) == Size(t) - Size(node)
      && Rows(g) == (Rows(t) - IdSet(node))[p.id := ListRow(RemoveAt(Ids(p.children), i))]
  {
    var g, node := Graft(t, p.id, q), p.children[i];
    LosesChild(t, p, i, q);
    GraftIds(t, p, q);
    RelistedBy(t, p, q);
    IdsRemove(p.children, i);
    OwnList(q);
    hide *;
    SetRemove(IdSet(t), IdSet(p), IdSet(q), IdSet(node));
    forall x | x in IdSet(g) ensures x in IdSet(t) && RowOf(g, x) == if x == p.id then OwnRow(q) else RowOf(t, x) {
      RemoveRow(t, p, i, node, q, g, x);
    }
    RemovedRows(t, p.id, OwnRow(q), node, g);
  }

  lemma SetRemove<T>(t: set<T>, p: set<T>, q: set<T>, n: set<T>)
    requires p <= t && p == q + n && q !! n
    ensures t - p + q == t - n && n <= t
  {
  }

  lemma LosesChild(t: Tree, p: Tree, i: nat, q: Tree)
    requires Unique(t) && Subtree(p, t) && p.List? && i < |p.children| && q == List(p.id, RemoveAt(p.children, i))
    ensures var node := p.children[i];
      && Gains(q, i, node, p) && Unique(node) && Unique(q) && Graftable(t, p, q)
      && IdSet(p) <= IdSet(t) && IdSet(p) == IdSet(q) + IdSet(node) && IdSet(q) !! IdSet(node)
      && p.id in IdSet(q) && Size(p) == Size(q) + Size(node)
  {
    var node := p.children[i];
    RemoveInsert(p.children, i, node);
    SubtreeRows(p, t);
    SubtreeIds(p, t);
    GainIds(q, i, node, p);
  }

  lemma OwnList(q: Tree)
    requires q.List?
    ensures OwnRow(q) == ListRow(Ids(q.children))
  {
  }

  lemma RemoveRow(t: Tree, p: Tree, i: nat, node: Tree, q: Tree, g: Tree, x: NodeId)
    requires Gains(q, i, node, p) && Relisted(t, p, q, g) && x in IdSet(g)
    requires IdSet(p) == IdSet(q) + IdSet(node) && IdSet(q) !! IdSet(node) && IdSet(g) == IdSet(t) - IdSet(node)
    ensures x in IdSet(t) && RowOf(g, x) == if x == p.id then OwnRow(q) else RowOf(t, x)
  {
    hide Rows;
    hide RowOf;
    hide IdSet;
    hide Unique;
    RowsAt(g, x);
    RowsKeys(t);
    RowsKeys(q);
    GainRow(q, i, node, p, x);
    RootRow(q);
    if x in IdSet(q) {
      RowsAt(q, x);
    } else {
      RowsAt(t, x);
    }
  }

  lemma RootRow(t: Tree)
    ensures t.id in IdSet(t) && RowOf(t, t.id) == OwnRow(t)
  {
  }

  lemma RowsAt(t: Tree, x: NodeId)
    requires x in IdSet(t)
    ensures x in Rows(t) && Rows(t)[x] == RowOf(t, x)
  {
  }

  lemma RemovedRows(t: Tree, p: NodeId, row: Row, node: Tree, g: Tree)
    requires IdSet(g) == IdSet(t) - IdSet(node) && p in IdSet(t) && p !in IdSet(node)
    requires forall x :: x in IdSet(g) ==> RowOf(g, x) == if x == p then row else RowOf(t, x)
    ensures Rows(g) == (Rows(t) - IdSet(node))[p := row]
  {
    hide RowOf;
    hide IdSet;
  }

  lemma {:induction false} GraftTwice(t: Tree, id: NodeId, a: Tree, b: Tree)
    requires a.id == id
    ensures Graft(Graft(t, id, a), id, b) == Graft(t, id, b)
    decreases t
  {
    if t.id != id && t.List? {
      forall i | 0 <= i < |t.children| ensures Graft(Graft(t.children[i], id, a), id, b) == Graft(t.children[i], id, b) {
        GraftTwice(t.children[i], id, a, b);
      }
      assert GraftAll(GraftAll(t.children, id, a), id, b) == GraftAll(t.children, id, b);
    }
  }

  /** Putting a list of a new symbol and the child itself in the place of a child. */
  lemma WrapChild(t: Tree, p: Tree, i: nat, w: NodeId, h: NodeId, a: Atom, q: Tree)
    requires Unique(t) && Subtree(p, t) && p.List? && i < |p.children| && w !in IdSet(t) && h !in IdSet(t) && w != h
    requires q == List(p.id, p.children[i := List(w, [Leaf(h, a), p.children[i]])])
    ensures var g, child := Graft(t, p.id, q), p.children[i];
      && g.id == t.id && Unique(g) && p.id !in {w, h}
      && IdSet(g) == IdSet(t) + {w, h} && Size(g) == Size(t) + 2
      && Rows(g) == Rows(t)[p.id := ListRow(Ids(p.children)[i := w])][w := ListRow([h, child.id])][h := AtomRow(a)]
  {
    hide *;
    var child := p.children[i];
    var wrapper := List(w, [Leaf(h, a), child]);
    var base := List(p.id, RemoveAt(p.children, i));
    var t1 := Graft(t, p.id, base);
    WrapGains(p, i, wrapper, base, q);
    ChildSubtree(t, p, i);
    RemoveChild(t, p, i, base);
    WrapOpened(t, p, i, base);
    WrapperFacts(w, h, a, child, wrapper);
    InsertChild(t1, base, i, wrapper, q);
    GraftTwice(t, p.id, base, q);
    WrapSets(IdSet(t), IdSet(child), w, h);
    WrapTables(t, child, p.id, ListRow(RemoveAt(Ids(p.children), i)), ListRow(Ids(p.children)[i := w]), w, h, a);
  }

  lemma WrapTables(t: Tree, child: Tree, p: NodeId, row0: Row, row: Row, w: NodeId, h: NodeId, a: Atom)
    requires w !in IdSet(t) && h !in IdSet(t) && w != h && p in IdSet(t) && p !in IdSet(child)
    requires forall x :: x in Rows(child) ==> x in Rows(t) && Rows(child)[x] == Rows(t)[x]
    ensures (Rows(t) - IdSet(child))[p := row0][p := row] + Rows(child)[w := ListRow([h, child.id])][h := AtomRow(a)] ==
      Rows(t)[p := row][w := ListRow([h, child.id])][h := AtomRow(a)]
  {
    RowsKeys(child);
    RowsKeys(t);
    hide *;
    MapWrap(Rows(t), Rows(child), Rows(child)[w := ListRow([h, child.id])][h := AtomRow(a)], p, row0, row, w, h, ListRow([h, child.id]), AtomRow(a));
  }

  lemma WrapOpened(t: Tree, p: Tree, i: nat, base: Tree)
    requires Unique(t) && Subtree(p, t) && p.List? && i < |p.children| && base == List(p.id, RemoveAt(p.children, i))
    ensures Subtree(base, Graft(t, p.id, base)) && p.id in IdSet(t) && Unique(p.children[i])
  {
    LosesChild(t, p, i, base);
    GraftIds(t, p, base);
    SubtreeIds(p, t);
  }

  lemma WrapSets<T>(t: set<T>, c: set<T>, w: T, h: T)
    requires c <= t && w !in t && h !in t
    ensures t - c + (c + {w, h}) == t + {w, h} && w !in c && h !in c && (c + {w, h}) !! (t - c)
  {
  }

  lemma WrapGains(p: Tree, i: nat, wrapper: Tree, base: Tree, q: Tree)
    requires p.List? && i < |p.children| && base == List(p.id, RemoveAt(p.children, i)) && q == List(p.id, p.children[i := wrapper])
    ensures Gains(base, i, wrapper, q) && InsertAt(Ids(base.children), i, wrapper.id) == Ids(p.children)[i := wrapper.id]
  {
    RemoveInsert(p.children, i, wrapper);
    RemoveInsert(Ids(p.children), i, wrapper.id);
    IdsRemove(p.children, i);
  }

  lemma ChildSubtree(t: Tree, p: Tree, i: nat)
    requires Unique(t) && Subtree(p, t) && p.List? && i < |p.children|
    ensures Subtree(p.children[i], t) && IdSet(p.children[i]) <= IdSet(t)
    ensures forall x :: x in Rows(p.children[i]) ==> x in Rows(t) && Rows(p.children[i])[x] == Rows(t)[x]
  {
    assert Subtree(p.children[i], p);
    SubtreeTrans(p.children[i], p, t);
    SubtreeIds(p.children[i], t);
    SubtreeRows(p.children[i], t);
  }

  lemma MapWrap(t: Table, c: Table, wrapper: Table, p: NodeId, row0: Row, row: Row, w: NodeId, h: NodeId, rowW: Row, rowH: Row)
    requires wrapper == c[w := rowW][h := rowH] && w != h && w !in t && h !in t && p in t && p !in c
    requires forall x :: x in c ==> x in t && c[x] == t[x]
    ensures (t - c.Keys)[p := row0][p := row] + wrapper == t[p := row][w := rowW][h := rowH]
  {
  }

  lemma WrapperFacts(w: NodeId, h: NodeId, a: Atom, child: Tree, wrapper: Tree)
    requires wrapper == List(w, [Leaf(h, a), child]) && w !in IdSet(child) && h !in IdSet(child) && w != h && Unique(child)
    ensures Unique(wrapper) && IdSet(wrapper) == IdSet(child) + {w, h} && Size(wrapper) == Size(child) + 2
    ensures Rows(wrapper) == Rows(child)[w := ListRow([h, child.id])][h := AtomRow(a)]
  {
    var leaf := Leaf(h, a);
    var kids := [leaf, child];
    assert kids == [leaf] + [child];
    IdSetOfConcat([leaf], [child]);
    SizeOfConcat([leaf], [child]);
    PairIds(leaf, child);
    assert Ids(kids) == [h, child.id];
    hide RowOf;
    hide IdSet;
    assert IdSet(wrapper) == {w} + IdSetOf(kids) by {
      IdSetIs(wrapper);
    }
    LeafFacts(leaf);
    UniqueWrapper(w, kids);
    forall x | x in IdSet(wrapper) ensures RowOf(wrapper, x) ==
      if x == h then AtomRow(a) else if x == w then ListRow([h, child.id]) else RowOf(child, x)
    {
      if x == h {
        ChildRow(wrapper, 0, h);
      } else if x != w {
        ChildRow(wrapper, 1, x);
      } else {
        RootRow(wrapper);
      }
    }
  }

  lemma LeafFacts(t: Tree)
    requires t.Leaf?
    ensures Unique(t) && IdSet(t) == {t.id} && RowOf(t, t.id) == AtomRow(t.atom) && Size(t) == 1
  {
  }

  lemma UniqueWrapper(w: NodeId, kids: seq<Tree>)
    ensures Unique(List(w, kids)) <==> UniqueAll(kids) && w !in IdSetOf(kids)
  {
  }

  lemma PairIds(a: Tree, b: Tree)
    ensures IdSetOf([a]) == IdSet(a) && IdSetOf([b]) == IdSet(b)
    ensures SizeOf([a]) == Size(a) && SizeOf([b]) == Size(b)
    ensures UniqueAll([a, b]) <==> Unique(a) && Unique(b) && IdSet(a) !! IdSet(b)
  {
    var s := [a, b];
    hide IdSet;
    hide Unique;
    assert [a][0] == a && [b][0] == b && s[0] == a && s[1] == b;
    assert [a][..0] == [] && [b][..0] == [];
  }

  /** Giving an atom another value. */
  lemma SetLeaf(t: Tree, u: Tree, a: Atom)
    requires Unique(t) && Subtree(u, t) && u.Leaf?
    ensures var g := Graft(t, u.id, Leaf(u.id, a));
      && g.id == t.id && Unique(g) && IdSet(g) == IdSet(t) && Size(g) == Size(t)
      && Rows(g) == Rows(t)[u.id := AtomRow(a)]
  {
    var v := Leaf(u.id, a);
    SubtreeIds(u, t);
    assert IdSet(u) == {u.id} == IdSet(v);
    assert Rows(v) == map[u.id := AtomRow(a)];
    hide *;
    assert Graftable(t, u, v) by {
      LeafGraft(t, u, v);
    }
    assert Size(u) == 1 == Size(v) by {
      LeafGraft(t, u, v);
    }
    GraftIds(t, u, v);
    GraftRows(t, u, v);
    RowsKeys(t);
    ReplacedOne(Rows(t), u.id, AtomRow(a), Rows(Graft(t, u.id, v)));
  }

  lemma LeafGraft(t: Tree, u: Tree, v: Tree)
    requires Unique(t) && Subtree(u, t) && u.Leaf? && v.Leaf? && u.id == v.id
    ensures Graftable(t, u, v) && Size(u) == 1 == Size(v)
  {
  }

  lemma ReplacedOne(before: Table, id: NodeId, row: Row, after: Table)
    requires Replaced(before, {id}, map[id := row], after) && id in before
    ensures after == before[id := row]
  {
  }

  // ----- descendants, from the table alone

  ghost predicate Linked(rows: Table, x: NodeId, y: NodeId) {
    x in rows && rows[x].ListRow? && y in rows[x].kids
  }

  ghost predicate Chain(rows: Table, p: seq<NodeId>) {
    p != [] && forall i :: 0 <= i < |p| - 1 ==> Linked(rows, p[i], p[i + 1])
  }

  ghost predicate Under(rows: Table, x: NodeId, y: NodeId) {
    exists p :: Chain(rows, p) && p[0] == x && Last(p) == y
  }

  ghost function Descendants(rows: Table, x: NodeId): set<NodeId> {
    set y | y in rows && Under(rows, x, y)
  }

  // The row of a node lists the ids of its children.
  lemma LinkedKid(t: Tree, u: Tree, y: NodeId)
    requires Unique(t) && Subtree(u, t)
    ensures Linked(Rows(t), u.id, y) <==> u.List? && exists i :: 0 <= i < |u.children| && u.children[i].id == y
  {
    SubtreeRows(u, t);
    SubtreeIds(u, t);
    assert Rows(t)[u.id] == Rows(u)[u.id] == OwnRow(u);
    if u.List? {
      assert y in Ids(u.children) <==> exists i :: 0 <= i < |u.children| && Ids(u.children)[i] == y;
    }
  }

  lemma {:induction false} ChainStays(t: Tree, u: Tree, p: seq<NodeId>)
    requires Unique(t) && Subtree(u, t) && Chain(Rows(t), p) && p[0] in IdSet(u)
    ensures Last(p) in IdSet(u)
    decreases |p|
  {
    if |p| > 1 {
      assert Linked(Rows(t), p[0], p[1]);
      var v := HasNode(u, p[0]);
      SubtreeTrans(v, u, t);
      LinkedKid(t, v, p[1]);
      var i :| 0 <= i < |v.children| && v.children[i].id == p[1];
      SubtreeIds(v, u);
      assert p[1] in IdSet(v.children[i]);
      assert p[1] in IdSet(v);
      hide Linked;
      assert Chain(Rows(t), p[1..]) by {
        forall k | 0 <= k < |p[1..]| - 1 ensures Linked(Rows(t), p[1..][k], p[1..][k + 1]) {
          assert Linked(Rows(t), p[k + 1], p[k + 2]);
        }
      }
      ChainStays(t, u, p[1..]);
    }
  }

  lemma {:induction false} ChainTo(t: Tree, u: Tree, y: NodeId) returns (p: seq<NodeId>)
    requires Unique(t) && Subtree(u, t) && y in IdSet(u)
    ensures Chain(Rows(t), p) && p[0] == u.id && Last(p) == y
    decreases u
  {
    if y == u.id {
      p := [y];
    } else {
      var i :| 0 <= i < |u.children| && y in IdSet(u.children[i]);
      assert Subtree(u.children[i], u);
      SubtreeTrans(u.children[i], u, t);
      var rest := ChainTo(t, u.children[i], y);
      LinkedKid(t, u, u.children[i].id);
      p := [u.id] + rest;
    }
  }

  /** The ids of a subtree are exactly those reachable from its root in the table. */
  lemma DescendantsAre(t: Tree, u: Tree)
    requires Unique(t) && Subtree(u, t)
    ensures Descendants(Rows(t), u.id) == IdSet(u)
  {
    SubtreeIds(u, t);
    forall y | y in Descendants(Rows(t), u.id) ensures y in IdSet(u) {
      var p :| Chain(Rows(t), p) && p[0] == u.id && Last(p) == y;
      ChainStays(t, u, p);
    }
    forall y | y in IdSet(u) ensures y in Descendants(Rows(t), u.id) {
      var p := ChainTo(t, u, y);
      RowsKeys(t);
    }
  }

  // ----- one node for each id

  lemma {:induction false} SizeIsCount(t: Tree)
    requires Unique(t)
    ensures |IdSet(t)| == Size(t)
    decreases t, 1
  {
    if t.List? {
      SizeOfIsCount(t.children);
    }
  }

  lemma {:induction false} SizeOfIsCount(ts: seq<Tree>)
    requires UniqueAll(ts)
    ensures |IdSetOf(ts)| == SizeOf(ts)
    decreases ts, 0
  {
    if ts == [] {
      assert IdSetOf(ts) == {};
    } else {
      var init, last := ts[..|ts| - 1], ts[|ts| - 1];
      assert ts == init + [last];
      SizeOfIsCount(init);
      SizeIsCount(last);
      IdSetOfConcat(init, [last]);
      assert IdSetOf([last]) == IdSet(last) by {
        assert [last][0] == last;
      }
      assert IdSetOf(init) !! IdSet(last);
    }
  }

  // ----- the table and the root's id determine the tree

  lemma SameChild(a: Tree, b: Tree, i: nat)
    requires Unique(a) && Unique(b) && a.List? && b.List? && Rows(a) == Rows(b) && Ids(a.children) == Ids(b.children)
    requires i < |a.children|
    ensures |b.children| == |a.children| && a.children[i].id == b.children[i].id
    ensures Unique(a.children[i]) && Unique(b.children[i]) && Rows(a.children[i]) == Rows(b.children[i])
  {
    assert Ids(a.children)[i] == Ids(b.children)[i];
    var c, d := a.children[i], b.children[i];
    assert Subtree(c, a) && Subtree(d, b);
    DescendantsAre(a, c);
    DescendantsAre(b, d);
    RowsKeys(c);
    RowsKeys(d);
    SubtreeRows(c, a);
    SubtreeRows(d, b);
  }

  /** Trees with the same root id and the same table are the same tree. */
  lemma {:induction false} TableDetermines(a: Tree, b: Tree)
    requires Unique(a) && Unique(b) && a.id == b.id && Rows(a) == Rows(b)
    ensures a == b
    decreases a
  {
    RootRow(a);
    RootRow(b);
    RowsAt(a, a.id);
    RowsAt(b, b.id);
    if a.List? {
      assert Ids(a.children) == Ids(b.children);
      forall i | 0 <= i < |a.children| ensures |b.children| == |a.children| && a.children[i] == b.children[i] {
        SameChild(a, b, i);
        TableDetermines(a.children[i], b.children[i]);
      }
    }
  }
}
