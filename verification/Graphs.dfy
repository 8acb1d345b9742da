/** Parent graphs of revisions: paths, reachability and cycles. */
module Graphs {
  type Rev = string

  // Each revision with its parents. A revision that is not a key has no parents.
  type Graph = map<Rev, seq<Rev>>

  function ParentsIn(g: Graph, r: Rev): seq<Rev> {
    if r in g then g[r] else []
  }

  ghost predicate Edge(g: Graph, a: Rev, b: Rev) {
    b in ParentsIn(g, a)
  }

  /** `p` follows parent links from `a` to `b`. */
  ghost predicate IsPath(g: Graph, p: seq<Rev>, a: Rev, b: Rev) {
    p != [] && p[0] == a && p[|p| - 1] == b && forall i :: 0 <= i < |p| - 1 ==> Edge(g, p[i], p[i + 1])
  }

  /** `b` is `a` or an ancestor of `a`. */
  ghost predicate Reaches(g: Graph, a: Rev, b: Rev) {
    exists p :: IsPath(g, p, a, b)
  }

  /** `b` is an ancestor of `a` by at least one link. */
  ghost predicate Above(g: Graph, a: Rev, b: Rev) {
    exists p :: IsPath(g, p, a, b) && |p| > 1
  }

  ghost predicate Cyclic(g: Graph) {
    exists r :: Above(g, r, r)
  }

  ghost predicate Closed(g: Graph, s: set<Rev>) {
    forall a, b :: a in s && Edge(g, a, b) ==> b in s
  }

  lemma ReachRefl(g: Graph, a: Rev)
    ensures Reaches(g, a, a)
  {
    assert IsPath(g, [a], a, a);
  }

  lemma PathJoin(g: Graph, p: seq<Rev>, q: seq<Rev>, a: Rev, b: Rev, c: Rev)
    requires IsPath(g, p, a, b) && IsPath(g, q, b, c)
    ensures IsPath(g, p + q[1..], a, c) && |p + q[1..]| == |p| + |q| - 1
  {
    var r := p + q[1..];
    forall i | 0 <= i < |r| - 1 ensures Edge(g, r[i], r[i + 1]) {
      if i >= |p| - 1 {
        assert r[i] == q[i - |p| + 1] && r[i + 1] == q[i - |p| + 2];
      }
    }
  }

  lemma ReachTrans(g: Graph, a: Rev, b: Rev, c: Rev)
    requires Reaches(g, a, b) && Reaches(g, b, c)
    ensures Reaches(g, a, c)
    ensures Above(g, a, b) || Above(g, b, c) ==> Above(g, a, c)
  {
    var p :| IsPath(g, p, a, b);
    var q :| IsPath(g, q, b, c);
    PathJoin(g, p, q, a, b, c);
    if Above(g, a, b) {
      var r :| IsPath(g, r, a, b) && |r| > 1;
      PathJoin(g, r, q, a, b, c);
    }
    if Above(g, b, c) {
      var r :| IsPath(g, r, b, c) && |r| > 1;
      PathJoin(g, p, r, a, b, c);
    }
  }

  lemma EdgeAbove(g: Graph, a: Rev, b: Rev)
    requires Edge(g, a, b)
    ensures Reaches(g, a, b) && Above(g, a, b)
  {
    assert IsPath(g, [a, b], a, b);
  }

  lemma AboveReaches(g: Graph, a: Rev, b: Rev)
    ensures Above(g, a, b) ==> Reaches(g, a, b)
    ensures Reaches(g, a, b) <==> a == b || Above(g, a, b)
  {
    ReachRefl(g, a);
    if p :| IsPath(g, p, a, b) && |p| <= 1 {
      assert |p| == 1;
    }
  }

  lemma {:induction false} PathStays(g: Graph, s: set<Rev>, p: seq<Rev>, a: Rev, b: Rev)
    requires Closed(g, s) && a in s && IsPath(g, p, a, b)
    ensures forall i :: 0 <= i < |p| ==> p[i] in s
    decreases |p|
  {
    if |p| > 1 {
      assert Edge(g, p[0], p[1]);
      PathStays(g, s, p[1..], p[1], b);
      forall i | 0 <= i < |p| ensures p[i] in s {
        if i > 0 {
          assert p[i] == p[1..][i - 1];
        }
      }
    }
  }

  lemma ReachStays(g: Graph, s: set<Rev>, a: Rev, b: Rev)
    requires Closed(g, s) && a in s && Reaches(g, a, b)
    ensures b in s
  {
    var p :| IsPath(g, p, a, b);
    PathStays(g, s, p, a, b);
  }

  /** A rank that grows along every link rules out cycles. */
  lemma RankedAcyclic(g: Graph, rank: map<Rev, nat>)
    requires forall a, b :: Edge(g, a, b) ==> a in rank && b in rank && rank[a] < rank[b]
    ensures !Cyclic(g)
  {
    forall r ensures !Above(g, r, r) {
      if p :| IsPath(g, p, r, r) && |p| > 1 {
        assert Edge(g, p[0], p[1]);
        RankGrows(g, rank, p, r, r);
      }
    }
  }

  lemma {:induction false} RankGrows(g: Graph, rank: map<Rev, nat>, p: seq<Rev>, a: Rev, b: Rev)
    requires forall a, b :: Edge(g, a, b) ==> a in rank && b in rank && rank[a] < rank[b]
    requires IsPath(g, p, a, b) && a in rank
    ensures b in rank && rank[b] >= rank[a] + |p| - 1
    decreases |p|
  {
    if |p| > 1 {
      assert Edge(g, p[0], p[1]);
      RankGrows(g, rank, p[1..], p[1], b);
    }
  }

  ghost predicate HasChildIn(g: Graph, s: set<Rev>, r: Rev) {
    exists c :: c in s && Edge(g, c, r)
  }

  lemma ChildIn(g: Graph, s: set<Rev>, r: Rev) returns (c: Rev)
    requires HasChildIn(g, s, r)
    ensures c in s && Edge(g, c, r)
  {
    c :| c in s && Edge(g, c, r);
  }

  /** A finite set in which every revision has a child contains a cycle. */
  lemma CycleAmong(g: Graph, s: set<Rev>)
    requires s != {}
    requires forall r :: r in s ==> HasChildIn(g, s, r)
    ensures Cyclic(g)
  {
    hide HasChildIn;
    var r :| r in s;
    GrowChain(g, s, [r], r);
  }

  lemma {:induction false} GrowChain(g: Graph, s: set<Rev>, p: seq<Rev>, last: Rev)
    requires p != [] && IsPath(g, p, p[0], last)
    requires forall i :: 0 <= i < |p| ==> p[i] in s
    requires forall i, j :: 0 <= i < j < |p| ==> p[i] != p[j]
    requires forall r :: r in s ==> HasChildIn(g, s, r)
    ensures Cyclic(g)
    decreases |s| - |p|
  {
    hide HasChildIn;
    var c := ChildIn(g, s, p[0]);
    if i :| 0 <= i < |p| && p[i] == c {
      var q := [c] + p[..i + 1];
      assert IsPath(g, q, c, c);
      assert Above(g, c, c);
    } else {
      var q := [c] + p;
      DistinctLength(q, s);
      GrowChain(g, s, q, last);
    }
  }

  lemma {:induction false} DistinctLength(p: seq<Rev>, s: set<Rev>)
    requires forall i :: 0 <= i < |p| ==> p[i] in s
    requires forall i, j :: 0 <= i < j < |p| ==> p[i] != p[j]
    ensures |p| <= |s|
    decreases |p|
  {
    if p != [] {
      DistinctLength(p[1..], s - {p[0]});
    }
  }

  // ----- best common ancestors

  /** Members of `common` that no other member lies below. */
  ghost function Best(g: Graph, common: set<Rev>): set<Rev> {
    set c | c in common && forall d :: d in common ==> !Above(g, d, c)
  }

  /** A non-empty set without a member that lies above itself has a best member. */
  lemma {:induction false} BestExists(g: Graph, common: set<Rev>)
    requires common != {} && forall c :: c in common ==> !Above(g, c, c)
    ensures Best(g, common) != {}
    decreases |common|
  {
    var c :| c in common;
    if d :| d in common && Above(g, d, c) {
      var below := set e | e in common && Above(g, e, c);
      assert below < common && d in below by {
        assert c !in below && d in below;
      }
      Smaller(below, common);
      BestExists(g, below);
      var e :| e in Best(g, below);
      forall f | f in common ensures !Above(g, f, e) {
        if Above(g, f, e) {
          AboveReaches(g, f, e);
          AboveReaches(g, e, c);
          ReachTrans(g, f, e, c);
        }
      }
      assert e in Best(g, common);
    } else {
      assert c in Best(g, common);
    }
  }

  lemma Smaller<T>(a: set<T>, b: set<T>)
    requires a < b
    ensures |a| < |b|
  {
    var x :| x in b && x !in a;
    assert a <= b - {x};
    SubsetSize(a, b - {x});
  }

  lemma {:induction false} SubsetSize<T>(a: set<T>, b: set<T>)
    requires a <= b
    ensures |a| <= |b|
    decreases a
  {
    if a != {} {
      var x :| x in a;
      SubsetSize(a - {x}, b - {x});
    }
  }
}
