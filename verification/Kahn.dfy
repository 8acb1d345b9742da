/** The topological pass that selects best common ancestors
    (src/weave_frontend/revision_dag.py). */
module Kahn {
  import opened Prelude
  import opened Graphs

  datatype DagError =
    | NodeLimit
    | EdgeLimit
    | NotFound(revision: Rev)
    | Cycle
    | NoCommonAncestor
    | InvalidLimit

  // Parents of a revision are listed once.
  ghost predicate NoDuplicates<T>(s: seq<T>) {
    forall i, j :: 0 <= i < j < |s| ==> s[i] != s[j]
  }

  /** The children of `p` among `s`. */
  ghost function ChildrenIn(g: Graph, s: set<Rev>, p: Rev): set<Rev> {
    set c | c in s && p in ParentsIn(g, c)
  }

  /** Every parent link stays inside the graph. */
  ghost predicate Complete(g: Graph) {
    forall a, b :: Edge(g, a, b) ==> b in g
  }

  // The state of the pass: what is processed, how many unprocessed children every revision still
  // has, which revisions are ready, and which lie above a common ancestor.
  datatype Pass = Pass(counts: map<Rev, int>, ready: set<Rev>, above: set<Rev>, nonBest: set<Rev>)

  /** A processed child of `v` is common or lies above a common ancestor. */
  ghost predicate Inherits(g: Graph, common: set<Rev>, above: set<Rev>, done: set<Rev>, v: Rev) {
    exists d :: d in done && v in ParentsIn(g, d) && (d in common || d in above)
  }

  ghost predicate Consistent(g: Graph, common: set<Rev>, s: Pass, done: set<Rev>) {
    && done <= g.Keys && s.counts.Keys == g.Keys
    && (forall v :: v in g ==> s.counts[v] == |ChildrenIn(g, g.Keys - done, v)|)
    && s.ready == (set v | v in g && v !in done && s.counts[v] == 0)
    && (forall d, c :: d in done && Edge(g, c, d) ==> c in done)
    && s.above <= g.Keys
    && (forall v :: v in g ==> (v in s.above <==> Inherits(g, common, s.above, done, v)))
    && s.nonBest == common * s.above
  }

  /** Processed revisions are ranked in processing order, children before parents. */
  ghost predicate Ranked(g: Graph, done: set<Rev>, rank: map<Rev, nat>) {
    && rank.Keys == done
    && (forall d :: d in done ==> rank[d] < |done|)
    && (forall d, p :: d in done && p in done && Edge(g, d, p) ==> rank[d] < rank[p])
  }

  // Adds one child to each of its parents.
  method CountParents(counts: map<Rev, int>, parents: seq<Rev>) returns (r: Result<map<Rev, int>, Rev>)
    requires NoDuplicates(parents)
    ensures r.Err? ==> r.error in parents && r.error !in counts
    ensures r.Ok? ==> (forall p :: p in parents ==> p in counts) && r.value.Keys == counts.Keys
    ensures r.Ok? ==> forall v :: v in counts ==> r.value[v] == counts[v] + (if v in parents then 1 else 0)
  {
    var more := counts;
    for i := 0 to |parents|
      invariant more.Keys == counts.Keys
      invariant forall j :: 0 <= j < i ==> parents[j] in counts
      invariant forall v :: v in counts ==> more[v] == counts[v] + (if v in parents[..i] then 1 else 0)
    {
      if parents[i] !in more {
        return Err(parents[i]);
      }
      assert parents[..i + 1] == parents[..i] + [parents[i]];
      more := more[parents[i] := more[parents[i]] + 1];
    }
    assert parents[..|parents|] == parents;
    return Ok(more);
  }

  ghost predicate Counted(g: Graph, seen: set<Rev>, counts: map<Rev, int>) {
    && counts.Keys == g.Keys
    && (forall c, p :: c in seen && Edge(g, c, p) ==> p in g)
    && (forall v :: v in g ==> counts[v] == |ChildrenIn(g, seen, v)|)
  }

  lemma CountedMore(g: Graph, seen: set<Rev>, child: Rev, counts: map<Rev, int>, more: map<Rev, int>)
    requires Counted(g, seen, counts) && child in g && child !in seen
    requires (forall p :: p in g[child] ==> p in counts) && more.Keys == counts.Keys
    requires forall v :: v in counts ==> more[v] == counts[v] + (if v in g[child] then 1 else 0)
    ensures Counted(g, seen + {child}, more)
  {
    forall v | v in g ensures more[v] == |ChildrenIn(g, seen + {child}, v)| {
      ChildrenAdd(g, seen, child, v);
    }
  }

  method CountChild(g: Graph, ghost seen: set<Rev>, child: Rev, counts: map<Rev, int>) returns (r: Result<map<Rev, int>, Rev>)
    requires child in g && NoDuplicates(g[child]) && child !in seen && Counted(g, seen, counts)
    ensures r.Err? ==> !Complete(g)
    ensures r.Ok? ==> Counted(g, seen + {child}, r.value)
  {
    r := CountParents(counts, g[child]);
    if r.Err? {
      MissingParent(g, seen, counts, child, r.error);
    } else {
      CountedMore(g, seen, child, counts, r.value);
    }
  }

  method CountChildren(g: Graph) returns (r: Result<map<Rev, int>, DagError>)
    requires forall v :: v in g ==> NoDuplicates(g[v])
    ensures r.Err? ==> r.error.NotFound? && !Complete(g)
    ensures r.Ok? ==> Complete(g) && Counted(g, g.Keys, r.value)
  {
    var counts: map<Rev, int> := map v | v in g :: 0;
    var todo := g.Keys;
    ghost var seen: set<Rev> := {};
    CountedNone(g, counts);
    hide *;
    while todo != {}
      invariant seen !! todo && seen + todo == g.Keys
      invariant Counted(g, seen, counts)
      decreases todo
    {
      var child :| child in todo;
      var more := CountChild(g, seen, child, counts);
      if more.Err? {
        return Err(NotFound(more.error));
      }
      MoveOne(seen, todo, g.Keys, child);
      seen, todo, counts := seen + {child}, todo - {child}, more.value;
    }
    assert seen == g.Keys;
    CountedComplete(g, counts);
    return Ok(counts);
  }

  lemma MoveOne<T>(seen: set<T>, todo: set<T>, all: set<T>, x: T)
    requires seen !! todo && seen + todo == all && x in todo
    ensures seen + {x} !! todo - {x} && (seen + {x}) + (todo - {x}) == all
  {
  }

  lemma CountedNone(g: Graph, counts: map<Rev, int>)
    requires counts.Keys == g.Keys && forall v :: v in g ==> counts[v] == 0
    ensures Counted(g, {}, counts)
  {
    assert forall v :: ChildrenIn(g, {}, v) == {};
  }

  lemma MissingParent(g: Graph, seen: set<Rev>, counts: map<Rev, int>, child: Rev, p: Rev)
    requires Counted(g, seen, counts) && child in g && p in g[child] && p !in counts
    ensures !Complete(g)
  {
    assert Edge(g, child, p);
  }

  lemma CountedComplete(g: Graph, counts: map<Rev, int>)
    requires Counted(g, g.Keys, counts)
    ensures Complete(g)
  {
  }

  lemma ChildrenAdd(g: Graph, s: set<Rev>, c: Rev, v: Rev)
    requires c !in s
    ensures |ChildrenIn(g, s + {c}, v)| == |ChildrenIn(g, s, v)| + (if v in ParentsIn(g, c) then 1 else 0)
  {
    var more := ChildrenIn(g, s + {c}, v);
    if v in ParentsIn(g, c) {
      assert more == ChildrenIn(g, s, v) + {c};
    } else {
      assert more == ChildrenIn(g, s, v);
    }
  }

  // The loop over the parents of a processed revision.
  method ReleaseParents(parents: seq<Rev>, propagates: bool, common: set<Rev>, s: Pass, ghost next: set<Rev>)
    returns (t: Pass)
    requires NoDuplicates(parents)
    requires forall p :: p in parents ==> p in s.counts && p !in next && s.counts[p] > 0
    requires s.ready == set v | v in s.counts && v !in next && s.counts[v] == 0
    requires s.nonBest == common * s.above
    ensures t.counts.Keys == s.counts.Keys
    ensures forall v :: v in s.counts ==> t.counts[v] == s.counts[v] - (if v in parents then 1 else 0)
    ensures t.ready == set v | v in t.counts && v !in next && t.counts[v] == 0
    ensures t.above == s.above + (if propagates then set p | p in parents else {})
    ensures t.nonBest == common * t.above
  {
    t := s;
    for i := 0 to |parents|
      invariant t.counts.Keys == s.counts.Keys
      invariant forall v :: v in s.counts ==> t.counts[v] == s.counts[v] - (if v in parents[..i] then 1 else 0)
      invariant t.ready == set v | v in t.counts && v !in next && t.counts[v] == 0
      invariant t.above == s.above + (if propagates then set p | p in parents[..i] else {})
      invariant t.nonBest == common * t.above
    {
      var parent := parents[i];
      assert parents[..i + 1] == parents[..i] + [parent];
      if propagates {
        t := t.(above := t.above + {parent}, nonBest := if parent in common then t.nonBest + {parent} else t.nonBest);
      }
      t := t.(counts := t.counts[parent := t.counts[parent] - 1]);
      if t.counts[parent] == 0 {
        t := t.(ready := t.ready + {parent});
      }
    }
    assert parents[..|parents|] == parents;
  }

  /** Processes one ready revision: its parents lose a child, and learn whether it is common or lies
      above a common ancestor. */
  method Release(g: Graph, common: set<Rev>, s: Pass, revision: Rev, ghost done: set<Rev>) returns (t: Pass)
    requires Complete(g) && forall v :: v in g ==> NoDuplicates(g[v])
    requires Consistent(g, common, s, done) && revision in s.ready
    ensures Consistent(g, common, t, done + {revision})
  {
    var propagates := revision in common || revision in s.above;
    forall p | p in g[revision] ensures p in g && p !in done && p != revision && s.counts[p] > 0 {
      assert Edge(g, revision, p);
      StillWaiting(g, common, s, done, revision, p);
    }
    t := ReleaseParents(g[revision], propagates, common, s.(ready := s.ready - {revision}), done + {revision});
    Released(g, common, s, t, revision, done);
  }

  // A parent of an unprocessed revision is itself unprocessed, and is not that revision.
  lemma StillWaiting(g: Graph, common: set<Rev>, s: Pass, done: set<Rev>, revision: Rev, parent: Rev)
    requires Complete(g) && Consistent(g, common, s, done) && revision in s.ready && Edge(g, revision, parent)
    ensures parent in g && parent !in done && parent != revision && s.counts[parent] > 0
  {
    assert revision in ChildrenIn(g, g.Keys - done, parent);
  }

  lemma Released(g: Graph, common: set<Rev>, s: Pass, t: Pass, revision: Rev, done: set<Rev>)
    requires Complete(g) && Consistent(g, common, s, done) && revision in s.ready
    requires t.counts.Keys == g.Keys
    requires forall v :: v in g ==> t.counts[v] == s.counts[v] - (if v in g[revision] then 1 else 0)
    requires t.ready == (set v | v in g && v !in done + {revision} && t.counts[v] == 0)
    requires t.above == s.above + (if revision in common || revision in s.above then set p | p in g[revision] else {})
    requires t.nonBest == common * t.above
    ensures Consistent(g, common, t, done + {revision})
  {
    var next := done + {revision};
    forall v | v in g ensures t.counts[v] == |ChildrenIn(g, g.Keys - next, v)| {
      assert g.Keys - done == (g.Keys - next) + {revision};
      ChildrenAdd(g, g.Keys - next, revision, v);
    }
    forall c | Edge(g, c, revision) ensures c in done {
      assert c !in done ==> c in ChildrenIn(g, g.Keys - done, revision);
    }
    forall v | v in g[revision] ensures v !in next {
      assert Edge(g, revision, v);
      StillWaiting(g, common, s, done, revision, v);
    }
    AboveReleased(g, common, s, t, revision, done);
  }

  lemma AboveReleased(g: Graph, common: set<Rev>, s: Pass, t: Pass, revision: Rev, done: set<Rev>)
    requires Complete(g) && Consistent(g, common, s, done) && revision in s.ready
    requires t.above == s.above + (if revision in common || revision in s.above then set p | p in g[revision] else {})
    requires forall v :: v in g[revision] ==> v !in done + {revision}
    ensures t.above <= g.Keys
    ensures forall v :: v in g ==> (v in t.above <==> Inherits(g, common, t.above, done + {revision}, v))
  {
    forall v | v in t.above ensures v in g {
      if v !in s.above {
        assert Edge(g, revision, v);
      }
    }
    forall v | v in g ensures v in t.above <==> Inherits(g, common, t.above, done + {revision}, v) {
      if v in s.above {
        var d :| d in done && v in ParentsIn(g, d) && (d in common || d in s.above);
        assert d in done + {revision};
      } else if v in t.above {
        assert revision in done + {revision} && v in ParentsIn(g, revision);
      }
      if Inherits(g, common, t.above, done + {revision}, v) {
        var d :| d in done + {revision} && v in ParentsIn(g, d) && (d in common || d in t.above);
        assert d in s.above <==> d in t.above;
        if d in done {
          assert Inherits(g, common, s.above, done, v);
        }
      }
    }
  }

  /** The pass over a whole parent graph. It fails when a parent is missing or the graph has a cycle;
      otherwise it returns the common ancestors that no common ancestor lies below, whatever order the
      ready revisions are taken in. */
  method BestCommonAncestors(g: Graph, common: set<Rev>) returns (r: Result<set<Rev>, DagError>)
    requires forall v :: v in g ==> NoDuplicates(g[v])
    requires common <= g.Keys
    ensures r.Err? ==> (r.error == Cycle && Complete(g)) || (r.error.NotFound? && !Complete(g))
    ensures Complete(g) ==> (r == Err(Cycle) <==> Cyclic(g))
    ensures r.Ok? ==> Complete(g) && r.value == Best(g, common)
  {
    hide *;
    var counted := CountChildren(g);
    if counted.Err? {
      return Err(counted.error);
    }
    var counts := counted.value;
    var s := Pass(counts, set v | v in counts && counts[v] == 0, {}, {});
    ghost var done: set<Rev> := {};
    ghost var rank: map<Rev, nat> := map[];
    var processed := 0;
    Starts(g, common, counts);
    while s.ready != {}
      invariant Consistent(g, common, s, done)
      invariant Ranked(g, done, rank)
      invariant processed == |done|
      decreases g.Keys - done
    {
      var revision :| revision in s.ready;
      ghost var next := rank[revision := |done|];
      ReadyIs(g, common, s, done, revision, rank);
      processed := processed + 1;
      s := Release(g, common, s, revision, done);
      done := done + {revision};
      rank := next;
    }
    Finishes(g, common, s, done, rank);
    if processed != |g| {
      return Err(Cycle);
    }
    return Ok(common - s.nonBest);
  }

  lemma Starts(g: Graph, common: set<Rev>, counts: map<Rev, int>)
    requires Counted(g, g.Keys, counts)
    ensures Consistent(g, common, Pass(counts, set v | v in counts && counts[v] == 0, {}, {}), {})
    ensures Ranked(g, {}, map[])
  {
    assert g.Keys - {} == g.Keys;
  }

  lemma ReadyIs(g: Graph, common: set<Rev>, s: Pass, done: set<Rev>, revision: Rev, rank: map<Rev, nat>)
    requires Consistent(g, common, s, done) && Ranked(g, done, rank) && revision in s.ready
    ensures revision in g && revision !in done
    ensures Ranked(g, done + {revision}, rank[revision := |done|])
  {
    hide Inherits;
    hide Complete;
    assert revision !in ChildrenIn(g, g.Keys - done, revision);
    hide ChildrenIn;
    forall d | d in done + {revision} ensures !Edge(g, revision, d) {
      SelfChild(g, g.Keys - done, revision);
    }
  }

  lemma SelfChild(g: Graph, s: set<Rev>, r: Rev)
    requires r in s && r !in ChildrenIn(g, s, r)
    ensures !Edge(g, r, r)
  {
  }

  // When nothing is ready, everything is processed or what is left holds a cycle.
  lemma Finishes(g: Graph, common: set<Rev>, s: Pass, done: set<Rev>, rank: map<Rev, nat>)
    requires Complete(g) && common <= g.Keys && Consistent(g, common, s, done) && Ranked(g, done, rank) && s.ready == {}
    ensures |done| != |g| <==> Cyclic(g)
    ensures |done| == |g| ==> common - s.nonBest == Best(g, common)
  {
    assert |g.Keys| == |g|;
    if done != g.Keys {
      Smaller(done, g.Keys);
      Stuck(g, common, s, done);
    } else {
      RankedAcyclic(g, rank);
      AboveExact(g, common, s);
    }
  }

  lemma Stuck(g: Graph, common: set<Rev>, s: Pass, done: set<Rev>)
    requires Complete(g) && Consistent(g, common, s, done) && s.ready == {} && done != g.Keys
    ensures Cyclic(g)
  {
    hide Inherits;
    hide HasChildIn;
    hide Complete;
    hide ChildrenIn;
    var left := g.Keys - done;
    assert left != {} by {
      var x :| x in g.Keys && x !in done;
      assert x in left;
    }
    hide Consistent;
    forall r | r in left ensures HasChildIn(g, left, r) {
      StuckAt(g, common, s, done, r);
    }
    CycleAmong(g, left);
  }

  lemma StuckAt(g: Graph, common: set<Rev>, s: Pass, done: set<Rev>, r: Rev)
    requires Consistent(g, common, s, done) && s.ready == {} && r in g.Keys - done
    ensures HasChildIn(g, g.Keys - done, r)
  {
    CountIs(g, common, s, done, r);
    hide Consistent;
    var c :| c in ChildrenIn(g, g.Keys - done, r);
    assert Edge(g, c, r);
  }

  lemma CountIs(g: Graph, common: set<Rev>, s: Pass, done: set<Rev>, r: Rev)
    requires Consistent(g, common, s, done) && s.ready == {} && r in g.Keys - done
    ensures |ChildrenIn(g, g.Keys - done, r)| != 0
  {
    assert r !in s.ready;
    hide Inherits;
    hide ChildrenIn;
  }

  // At the end, lying above a common ancestor is exactly what the marks say.
  lemma AboveExact(g: Graph, common: set<Rev>, s: Pass)
    requires Complete(g) && common <= g.Keys && Consistent(g, common, s, g.Keys)
    requires !Cyclic(g)
    ensures common - s.nonBest == Best(g, common)
  {
    forall c | c in common ensures c in s.above <==> exists d :: d in common && Above(g, d, c) {
      if c in s.above {
        MarkedAbove(g, common, s, {}, c);
      }
      if d :| d in common && Above(g, d, c) {
        var p :| IsPath(g, p, d, c) && |p| > 1;
        AboveMarked(g, common, s, p, d, c);
      }
    }
  }

  lemma {:induction false} AboveMarked(g: Graph, common: set<Rev>, s: Pass, p: seq<Rev>, d: Rev, c: Rev)
    requires Complete(g) && Consistent(g, common, s, g.Keys) && IsPath(g, p, d, c) && |p| > 1
    requires d in g && (d in common || d in s.above)
    ensures c in s.above
    decreases |p|
  {
    assert Edge(g, p[0], p[1]);
    assert Inherits(g, common, s.above, g.Keys, p[1]);
    if |p| > 2 {
      AboveMarked(g, common, s, p[1..], p[1], c);
    }
  }

  // Following marks downwards must end at a common ancestor, since the graph has no cycle.
  lemma {:induction false} MarkedAbove(g: Graph, common: set<Rev>, s: Pass, visited: set<Rev>, c: Rev)
    requires Complete(g) && Consistent(g, common, s, g.Keys) && !Cyclic(g)
    requires c in s.above && visited <= g.Keys && c !in visited
    requires forall v :: v in visited ==> Above(g, c, v)
    ensures exists d :: d in common && Above(g, d, c)
    decreases |g.Keys| - |visited|
  {
    assert Inherits(g, common, s.above, g.Keys, c);
    var d :| d in g.Keys && c in ParentsIn(g, d) && (d in common || d in s.above);
    EdgeAbove(g, d, c);
    if d !in common {
      var next := visited + {c};
      forall v | v in next ensures Above(g, d, v) {
        AboveReaches(g, c, v);
        if v != c {
          ReachTrans(g, d, c, v);
        }
      }
      assert d !in next;
      SubsetSize(next, g.Keys);
      MarkedAbove(g, common, s, next, d);
      var e :| e in common && Above(g, e, d);
      AboveReaches(g, e, d);
      ReachTrans(g, e, d, c);
    }
  }
}
