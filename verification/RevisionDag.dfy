/** Bounded ancestry analysis of two revisions (src/weave_frontend/revision_dag.py). */
module RevisionDag {
  import opened Prelude
  import opened Graphs
  import opened Kahn

  const MAX_REVISION_DAG_NODES := 65_536
  const MAX_REVISION_DAG_EDGES := 131_072

  datatype Parents = Parents(first: Option<Rev>, second: Option<Rev>)

  // The stored revisions with their two parent columns.
  type Source = map<Rev, Parents>

  function RawParents(p: Parents): seq<Rev> {
    (if p.first.Some? then [p.first.value] else []) + (if p.second.Some? then [p.second.value] else [])
  }

  function UniqueParents(p: Parents): seq<Rev> {
    if p.first.Some? && p.first == p.second then [p.first.value] else RawParents(p)
  }

  function GraphOf(source: Source): Graph {
    map r | r in source :: UniqueParents(source[r])
  }

  /** The filled parent columns of a set of revisions. */
  ghost function Links(source: Source, s: set<Rev>): set<(Rev, bool)> {
    set r, second: bool | r in s && r in source && (if second then source[r].second.Some? else source[r].first.Some?) :: (r, second)
  }

  ghost function Universe(source: Source, r: Rev): set<Rev> {
    source.Keys + {r} + (set a, b | a in source && b in RawParents(source[a]) :: b)
  }

  /** `r` and all its ancestors. */
  ghost function Lineage(source: Source, r: Rev): set<Rev> {
    set v | v in Universe(source, r) && Reaches(GraphOf(source), r, v)
  }

  lemma LineageIs(source: Source, r: Rev, v: Rev)
    ensures v in Lineage(source, r) <==> Reaches(GraphOf(source), r, v)
  {
    if Reaches(GraphOf(source), r, v) {
      var g, u := GraphOf(source), Universe(source, r);
      forall a, b | a in u && Edge(g, a, b) ensures b in u {
        assert b in RawParents(source[a]);
      }
      ReachStays(g, u, r, v);
    }
  }

  datatype Side = Left | Right

  datatype Search = Search(parents: Graph, reach: map<Rev, set<Side>>, queue: seq<(Rev, Side)>, edges: nat)

  function Start(left: Rev, right: Rev, side: Side): Rev {
    if side.Left? then left else right
  }

  /** The revision is marked from this side, or waits in the queue to be. */
  ghost predicate Seen(s: Search, r: Rev, side: Side) {
    (r in s.reach && side in s.reach[r]) || (r, side) in s.queue
  }

  ghost function Marked(s: Search, side: Side): set<Rev> {
    set r | r in s.reach && side in s.reach[r]
  }

  ghost predicate Loaded(source: Source, s: Search) {
    && s.parents.Keys <= source.Keys
    && (forall r :: r in s.parents ==> s.parents[r] == UniqueParents(source[r]))
    && s.edges == |Links(source, s.parents.Keys)|
  }

  ghost predicate Sound(source: Source, left: Rev, right: Rev, s: Search) {
    && s.reach.Keys == s.parents.Keys
    && (forall r :: r in s.reach ==> s.reach[r] != {})
    && (forall r, side :: r in s.reach && side in s.reach[r] ==> Reaches(GraphOf(source), Start(left, right, side), r))
    && (forall i :: 0 <= i < |s.queue| ==> Reaches(GraphOf(source), Start(left, right, s.queue[i].1), s.queue[i].0))
  }

  ghost predicate Covered(source: Source, left: Rev, right: Rev, s: Search) {
    && Seen(s, left, Left) && Seen(s, right, Right)
    && (forall r, side, p :: r in s.reach && side in s.reach[r] && Edge(GraphOf(source), r, p) ==> Seen(s, p, side))
  }

  ghost predicate Within(source: Source, all: set<Rev>, maxNodes: int, maxEdges: int) {
    all <= source.Keys && |all| <= maxNodes && |Links(source, all)| <= maxEdges
  }

  /** Why loading ancestry may stop: too many revisions, too many links, or a missing revision. */
  ghost predicate LoadError(source: Source, all: set<Rev>, maxNodes: int, maxEdges: int, e: DagError) {
    match e
    case NodeLimit => |all| > maxNodes
    case EdgeLimit => |Links(source, all)| > maxEdges
    case NotFound(v) => v in all && v !in source
    case _ => false
  }

  lemma LinksAdd(source: Source, s: set<Rev>, r: Rev)
    requires r in source && r !in s
    ensures |Links(source, s + {r})| == |Links(source, s)| + |RawParents(source[r])|
  {
    var p := source[r];
    var mine := (if p.first.Some? then {(r, false)} else {}) + (if p.second.Some? then {(r, true)} else {});
    assert Links(source, s + {r}) == Links(source, s) + mine;
    assert Links(source, s) !! mine;
  }

  lemma LinksMonotone(source: Source, a: set<Rev>, b: set<Rev>)
    requires a <= b
    ensures |Links(source, a)| <= |Links(source, b)|
  {
    SubsetSize(Links(source, a), Links(source, b));
  }

  /** Loads one revision's parents, within the limits. `all` is any set that contains everything
      loaded so far and the revision itself. */
  method LoadParents(source: Source, s: Search, revision: Rev, maxNodes: int, maxEdges: int, ghost all: set<Rev>)
    returns (r: Result<Search, DagError>)
    requires Loaded(source, s) && |s.parents| <= maxNodes && s.edges <= maxEdges
    requires s.parents.Keys <= all && revision in all
    ensures r.Err? ==> LoadError(source, all, maxNodes, maxEdges, r.error)
    ensures r.Ok? ==> Loaded(source, r.value) && |r.value.parents| <= maxNodes && r.value.edges <= maxEdges
    ensures r.Ok? ==> r.value.parents.Keys == s.parents.Keys + {revision}
    ensures r.Ok? ==> r.value.reach == s.reach && r.value.queue == s.queue
  {
    if revision in s.parents {
      assert s.parents.Keys + {revision} == s.parents.Keys;
      return Ok(s);
    }
    var keys := s.parents.Keys;
    assert |keys| == |s.parents|;
    SubsetSize(keys + {revision}, all);
    if |s.parents| >= maxNodes {
      return Err(NodeLimit);
    }
    if revision !in source {
      return Err(NotFound(revision));
    }
    var raw := RawParents(source[revision]);
    var edges := s.edges + |raw|;
    LinksAdd(source, keys, revision);
    LinksMonotone(source, keys + {revision}, all);
    if edges > maxEdges {
      return Err(EdgeLimit);
    }
    var parents := s.parents[revision := UniqueParents(source[revision])];
    assert parents.Keys == keys + {revision};
    assert |parents| == |parents.Keys|;
    return Ok(s.(parents := parents, edges := edges));
  }

  function Mark(reach: map<Rev, set<Side>>, revision: Rev, side: Side): map<Rev, set<Side>> {
    reach[revision := (if revision in reach then reach[revision] else {}) + {side}]
  }

  // Marks the revision and queues its parents.
  method Visit(s: Search, revision: Rev, side: Side) returns (t: Search)
    requires revision in s.parents
    ensures t == s.(reach := Mark(s.reach, revision, side), queue := s.queue + Pairs(s.parents[revision], side))
  {
    var parents := s.parents[revision];
    var queue := s.queue;
    for i := 0 to |parents|
      invariant queue == s.queue + Pairs(parents[..i], side)
    {
      assert parents[..i + 1] == parents[..i] + [parents[i]];
      queue := queue + [(parents[i], side)];
    }
    assert parents[..|parents|] == parents;
    t := s.(reach := Mark(s.reach, revision, side), queue := queue);
  }

  function Pairs(parents: seq<Rev>, side: Side): seq<(Rev, Side)> {
    seq(|parents|, i requires 0 <= i < |parents| => (parents[i], side))
  }

  // ----- one turn of the search

  ghost predicate Rest(s: Search, rest: Search) {
    s.queue != [] && rest == s.(queue := s.queue[1..])
  }

  // A queued mark that is already made can be dropped.
  lemma SkipKeeps(source: Source, left: Rev, right: Rev, s: Search, rest: Search)
    requires Sound(source, left, right, s) && Covered(source, left, right, s) && Rest(s, rest)
    requires var (r, side) := s.queue[0]; r in s.reach && side in s.reach[r]
    ensures Sound(source, left, right, rest) && Covered(source, left, right, rest)
  {
    forall r, side | Seen(s, r, side) ensures Seen(rest, r, side) {
      if (r, side) in s.queue && (r, side) != s.queue[0] {
        var i :| 0 <= i < |s.queue| && s.queue[i] == (r, side);
        assert rest.queue[i - 1] == (r, side);
      }
    }
  }

  lemma VisitSound(source: Source, left: Rev, right: Rev, s: Search, parents: Graph, edges: nat, t: Search)
    requires s.queue != [] && Sound(source, left, right, s)
    requires var (r, side) := s.queue[0];
      && parents.Keys == s.parents.Keys + {r} && r in source && parents[r] == UniqueParents(source[r])
      && t == Search(parents, Mark(s.reach, r, side), s.queue[1..] + Pairs(parents[r], side), edges)
    ensures Sound(source, left, right, t)
  {
    var g := GraphOf(source);
    var (r, side) := s.queue[0];
    var from := Start(left, right, side);
    forall i | 0 <= i < |t.queue| ensures Reaches(g, Start(left, right, t.queue[i].1), t.queue[i].0) {
      var n := |s.queue| - 1;
      if i < n {
        assert t.queue[i] == s.queue[i + 1];
      } else {
        var p := parents[r][i - n];
        assert t.queue[i] == (p, side);
        assert Edge(g, r, p);
        EdgeAbove(g, r, p);
        ReachTrans(g, from, r, p);
      }
    }
  }

  lemma VisitCovered(source: Source, left: Rev, right: Rev, s: Search, parents: Graph, edges: nat, t: Search)
    requires s.queue != [] && Covered(source, left, right, s)
    requires var (r, side) := s.queue[0];
      && r in source && r in parents && parents[r] == UniqueParents(source[r])
      && t == Search(parents, Mark(s.reach, r, side), s.queue[1..] + Pairs(parents[r], side), edges)
    ensures Covered(source, left, right, t)
  {
    var g := GraphOf(source);
    var (r, side) := s.queue[0];
    forall x, d | Seen(s, x, d) ensures Seen(t, x, d) {
      if (x, d) in s.queue && (x, d) != s.queue[0] {
        var i :| 0 <= i < |s.queue| && s.queue[i] == (x, d);
        assert t.queue[i - 1] == (x, d);
      }
    }
    forall x, d, p | x in t.reach && d in t.reach[x] && Edge(g, x, p) ensures Seen(t, p, d) {
      if x in s.reach && d in s.reach[x] {
        assert Seen(s, p, d);
      } else {
        var i :| 0 <= i < |parents[r]| && parents[r][i] == p;
        assert t.queue[|s.queue| - 1 + i] == Pairs(parents[r], side)[i] == (p, d);
      }
    }
  }

  lemma MarkedGrows(s: Search, t: Search, r: Rev, side: Side)
    requires t.reach == Mark(s.reach, r, side) && !(r in s.reach && side in s.reach[r])
    ensures Marked(t, side) == Marked(s, side) + {r} && r !in Marked(s, side)
    ensures forall d :: d != side ==> Marked(t, d) == Marked(s, d)
    ensures |Marked(t, Left)| + |Marked(t, Right)| == |Marked(s, Left)| + |Marked(s, Right)| + 1
  {
    assert Marked(t, side) == Marked(s, side) + {r};
    assert forall d :: d != side ==> Marked(t, d) == Marked(s, d);
    if side.Left? {
      assert Marked(t, Right) == Marked(s, Right);
    } else {
      assert Marked(t, Left) == Marked(s, Left);
    }
  }

  lemma SearchStarts(source: Source, left: Rev, right: Rev, s: Search)
    requires s == Search(map[], map[], [(left, Left), (right, Right)], 0)
    ensures Loaded(source, s) && Sound(source, left, right, s) && Covered(source, left, right, s)
  {
    ReachRefl(GraphOf(source), left);
    ReachRefl(GraphOf(source), right);
    assert Links(source, {}) == {};
    assert s.queue[0] == (left, Left) && s.queue[1] == (right, Right);
  }

  lemma LoadedSame(source: Source, s: Search, t: Search)
    requires Loaded(source, s) && t.parents == s.parents && t.edges == s.edges
    ensures Loaded(source, t)
  {
  }

  lemma Dropped(source: Source, left: Rev, right: Rev, s: Search, rest: Search)
    requires Loaded(source, s) && Sound(source, left, right, s) && Covered(source, left, right, s)
    requires s.queue != [] && rest == s.(queue := s.queue[1..])
    requires s.queue[0].0 in s.reach && s.queue[0].1 in s.reach[s.queue[0].0]
    ensures Loaded(source, rest) && Sound(source, left, right, rest) && Covered(source, left, right, rest)
    ensures forall side :: Marked(rest, side) == Marked(s, side)
  {
    SkipKeeps(source, left, right, s, rest);
  }

  lemma VisitKeeps(source: Source, left: Rev, right: Rev, s: Search, loaded: Search, t: Search)
    requires s.queue != [] && Sound(source, left, right, s) && Covered(source, left, right, s) && Loaded(source, loaded)
    requires loaded.parents.Keys == s.parents.Keys + {s.queue[0].0} && loaded.reach == s.reach
    requires var (r, side) := s.queue[0];
      t == loaded.(reach := Mark(s.reach, r, side), queue := s.queue[1..] + Pairs(loaded.parents[r], side))
    ensures Sound(source, left, right, t) && Covered(source, left, right, t)
  {
    VisitSound(source, left, right, s, loaded.parents, loaded.edges, t);
    VisitCovered(source, left, right, s, loaded.parents, loaded.edges, t);
  }

  lemma SearchEnds(source: Source, left: Rev, right: Rev, s: Search, maxNodes: int, maxEdges: int)
    requires Loaded(source, s) && Sound(source, left, right, s) && Covered(source, left, right, s) && s.queue == []
    requires |s.parents| <= maxNodes && s.edges <= maxEdges
    ensures var all := Lineage(source, left) + Lineage(source, right);
      Within(source, all, maxNodes, maxEdges) && s.parents.Keys == s.reach.Keys == all
    ensures Marked(s, Left) == Lineage(source, left) && Marked(s, Right) == Lineage(source, right)
  {
    MarkedIsLineage(source, left, right, s, Left);
    MarkedIsLineage(source, left, right, s, Right);
    var all := Lineage(source, left) + Lineage(source, right);
    forall r ensures r in s.reach <==> r in all {
      if r in s.reach {
        var side :| side in s.reach[r];
        assert r in Marked(s, side);
        assert side == Left || side == Right;
      }
      if r in all {
        assert r in Marked(s, Left) || r in Marked(s, Right);
      }
    }
    assert s.reach.Keys == all;
    assert |s.parents.Keys| == |s.parents|;
  }

  lemma MarkedWithin(source: Source, left: Rev, right: Rev, s: Search, side: Side)
    requires Sound(source, left, right, s)
    ensures Marked(s, side) <= s.parents.Keys && |Marked(s, side)| <= |s.parents|
  {
    assert |s.parents.Keys| == |s.parents|;
    SubsetSize(Marked(s, side), s.parents.Keys);
  }

  // Everything met so far lies in the lineage of one of the two revisions.
  lemma MetInLineage(source: Source, left: Rev, right: Rev, s: Search, all: set<Rev>)
    requires Sound(source, left, right, s) && all == Lineage(source, left) + Lineage(source, right)
    ensures s.parents.Keys <= all
    ensures s.queue != [] ==> s.queue[0].0 in all
  {
    forall r | r in s.parents ensures r in all {
      var side :| side in s.reach[r];
      LineageIs(source, Start(left, right, side), r);
    }
    if s.queue != [] {
      LineageIs(source, Start(left, right, s.queue[0].1), s.queue[0].0);
    }
  }

  /** When the queue is empty, each side has marked exactly its lineage. */
  lemma MarkedIsLineage(source: Source, left: Rev, right: Rev, s: Search, side: Side)
    requires Sound(source, left, right, s) && Covered(source, left, right, s) && s.queue == []
    ensures Marked(s, side) == Lineage(source, Start(left, right, side))
  {
    var g, from := GraphOf(source), Start(left, right, side);
    forall v ensures v in Marked(s, side) <==> v in Lineage(source, from) {
      LineageIs(source, from, v);
      if Reaches(g, from, v) {
        assert Seen(s, from, side);
        forall a, b | a in Marked(s, side) && Edge(g, a, b) ensures b in Marked(s, side) {
          assert Seen(s, b, side);
        }
        ReachStays(g, Marked(s, side), from, v);
      }
    }
  }

  /** The two-sided search: it marks exactly the lineage of each revision, or reports why it stopped. */
  method SearchAncestry(source: Source, left: Rev, right: Rev, maxNodes: int, maxEdges: int)
    returns (r: Result<Search, DagError>)
    requires maxNodes >= 1 && maxEdges >= 1
    ensures var all := Lineage(source, left) + Lineage(source, right);
      && (r.Err? ==> LoadError(source, all, maxNodes, maxEdges, r.error))
      && (r.Ok? ==>
        && Within(source, all, maxNodes, maxEdges)
        && Loaded(source, r.value) && r.value.parents.Keys == r.value.reach.Keys == all
        && Marked(r.value, Left) == Lineage(source, left) && Marked(r.value, Right) == Lineage(source, right))
  {
    ghost var all := Lineage(source, left) + Lineage(source, right);
    var s := Search(map[], map[], [(left, Left), (right, Right)], 0);
    SearchStarts(source, left, right, s);
    hide *;
    while s.queue != []
      invariant Loaded(source, s) && |s.parents| <= maxNodes && s.edges <= maxEdges
      invariant Sound(source, left, right, s) && Covered(source, left, right, s)
      decreases 2 * maxNodes - |Marked(s, Left)| - |Marked(s, Right)|, |s.queue|
    {
      var (revision, side) := s.queue[0];
      MetInLineage(source, left, right, s, all);
      if revision in s.reach && side in s.reach[revision] {
        Dropped(source, left, right, s, s.(queue := s.queue[1..]));
        s := s.(queue := s.queue[1..]);
      } else {
        var loaded := LoadParents(source, s, revision, maxNodes, maxEdges, all);
        if loaded.Err? {
          return Err(loaded.error);
        }
        var next := loaded.value.(queue := s.queue[1..]);
        var t := Visit(next, revision, side);
        VisitKeeps(source, left, right, s, loaded.value, t);
        LoadedSame(source, loaded.value, t);
        MarkedGrows(s, t, revision, side);
        MarkedWithin(source, left, right, t, Left);
        MarkedWithin(source, left, right, t, Right);
        s := t;
      }
    }
    SearchEnds(source, left, right, s, maxNodes, maxEdges);
    return Ok(s);
  }

  // ----- the analysis

  datatype Analysis = Analysis(best: set<Rev>, commonCount: nat, nodesVisited: nat, edgesVisited: nat)

  /** Some revision of the set is its own proper ancestor. */
  ghost predicate CycleIn(g: Graph, all: set<Rev>) {
    exists r :: r in all && Above(g, r, r)
  }

  ghost function Common(source: Source, left: Rev, right: Rev): set<Rev> {
    Lineage(source, left) * Lineage(source, right)
  }

  ghost predicate ValidLimits(maxNodes: int, maxEdges: int) {
    1 <= maxNodes <= MAX_REVISION_DAG_NODES && 1 <= maxEdges <= MAX_REVISION_DAG_EDGES
  }

  // On a set that is closed under links, equal links give equal paths.
  lemma SamePaths(g: Graph, h: Graph, all: set<Rev>, p: seq<Rev>, d: Rev, c: Rev)
    requires Closed(g, all) && d in all && IsPath(g, p, d, c)
    requires forall a, b :: a in all ==> (Edge(g, a, b) <==> Edge(h, a, b))
    ensures IsPath(h, p, d, c)
  {
    PathStays(g, all, p, d, c);
    forall i | 0 <= i < |p| - 1 ensures Edge(h, p[i], p[i + 1]) {
      assert p[i] in all && Edge(g, p[i], p[i + 1]);
    }
  }

  lemma SameAbove(g: Graph, h: Graph, all: set<Rev>, d: Rev, c: Rev)
    requires Closed(g, all) && d in all && Above(g, d, c)
    requires forall a, b :: a in all ==> (Edge(g, a, b) <==> Edge(h, a, b))
    ensures Above(h, d, c)
  {
    var p :| IsPath(g, p, d, c) && |p| > 1;
    SamePaths(g, h, all, p, d, c);
  }

  /** The loaded part of the graph is closed, so paths in it are paths of the whole graph. */
  lemma RestrictedPaths(source: Source, all: set<Rev>, part: Graph)
    requires Closed(GraphOf(source), all) && all <= source.Keys && part.Keys == all
    requires forall r :: r in part ==> part[r] == UniqueParents(source[r])
    ensures Complete(part)
    ensures forall d, c :: d in all ==> (Above(part, d, c) <==> Above(GraphOf(source), d, c))
    ensures Cyclic(part) <==> CycleIn(GraphOf(source), all)
  {
    var g := GraphOf(source);
    assert forall a, b :: a in all ==> (Edge(g, a, b) <==> Edge(part, a, b));
    hide UniqueParents;
    forall d, c | d in all ensures Above(part, d, c) <==> Above(g, d, c) {
      if Above(part, d, c) {
        SameAbove(part, g, all, d, c);
      }
      if Above(g, d, c) {
        SameAbove(g, part, all, d, c);
      }
    }
    forall r | Above(part, r, r) ensures r in all {
      var p :| IsPath(part, p, r, r) && |p| > 1;
      assert Edge(part, p[0], p[1]);
    }
  }

  lemma LineageClosed(source: Source, left: Rev, right: Rev)
    ensures Closed(GraphOf(source), Lineage(source, left) + Lineage(source, right))
  {
    var g := GraphOf(source);
    forall a, b, r | (r == left || r == right) && a in Lineage(source, r) && Edge(g, a, b) ensures b in Lineage(source, r) {
      LineageIs(source, r, a);
      LineageIs(source, r, b);
      EdgeAbove(g, a, b);
      ReachTrans(g, r, a, b);
    }
  }

  /** The whole bounded analysis. Within the limits and without a cycle it returns exactly the common
      ancestors that no other common ancestor lies below. */
  method AnalyzeCommonAncestors(source: Source, left: Rev, right: Rev, maxNodes: int, maxEdges: int)
    returns (r: Result<Analysis, DagError>)
    ensures r == Err(InvalidLimit) <==> !ValidLimits(maxNodes, maxEdges)
    ensures var g, all, common := GraphOf(source), Lineage(source, left) + Lineage(source, right), Common(source, left, right);
      ValidLimits(maxNodes, maxEdges) ==>
      if !Within(source, all, maxNodes, maxEdges) then r.Err? && LoadError(source, all, maxNodes, maxEdges, r.error)
      else if CycleIn(g, all) then r == Err(Cycle)
      else if common == {} then r == Err(NoCommonAncestor)
      else r == Ok(Analysis(Best(g, common), |common|, |all|, |Links(source, all)|))
  {
    if !(1 <= maxNodes <= MAX_REVISION_DAG_NODES && 1 <= maxEdges <= MAX_REVISION_DAG_EDGES) {
      return Err(InvalidLimit);
    }
    ghost var g, all := GraphOf(source), Lineage(source, left) + Lineage(source, right);
    var searched := SearchAncestry(source, left, right, maxNodes, maxEdges);
    if searched.Err? {
      LoadErrorBreaks(source, all, maxNodes, maxEdges, searched.error);
      return Err(searched.error);
    }
    var s := searched.value;
    var common := set v | v in s.reach && s.reach[v] == {Left, Right};
    CommonIs(source, left, right, s, common);
    LineageClosed(source, left, right);
    RestrictedPaths(source, all, s.parents);
    DedupedParents(source, s);
    hide *;
    var best := BestCommonAncestors(s.parents, common);
    if best.Err? {
      return Err(best.error);
    }
    BestSame(g, s.parents, common, all);
    if common == {} {
      return Err(NoCommonAncestor);
    }
    Sizes(source, s);
    return Ok(Analysis(best.value, |common|, |s.parents|, s.edges));
  }

  lemma LoadErrorBreaks(source: Source, all: set<Rev>, maxNodes: int, maxEdges: int, e: DagError)
    requires LoadError(source, all, maxNodes, maxEdges, e)
    ensures !Within(source, all, maxNodes, maxEdges)
    ensures !e.InvalidLimit?
  {
  }

  lemma CommonIs(source: Source, left: Rev, right: Rev, s: Search, common: set<Rev>)
    requires Marked(s, Left) == Lineage(source, left) && Marked(s, Right) == Lineage(source, right)
    requires common == set v | v in s.reach && s.reach[v] == {Left, Right}
    ensures common == Common(source, left, right)
  {
    forall v ensures v in common <==> v in Marked(s, Left) && v in Marked(s, Right) {
      if v in s.reach && Left in s.reach[v] && Right in s.reach[v] {
        forall d | d in s.reach[v] ensures d in {Left, Right} {
          assert d == Left || d == Right;
        }
      }
    }
  }

  lemma DedupedParents(source: Source, s: Search)
    requires Loaded(source, s)
    ensures forall v :: v in s.parents ==> NoDuplicates(s.parents[v])
  {
  }

  lemma BestSame(g: Graph, part: Graph, common: set<Rev>, all: set<Rev>)
    requires common <= all
    requires forall d, c :: d in all ==> (Above(part, d, c) <==> Above(g, d, c))
    ensures Best(part, common) == Best(g, common)
  {
  }

  lemma Sizes(source: Source, s: Search)
    requires Loaded(source, s)
    ensures |s.parents| == |s.parents.Keys| && s.edges == |Links(source, s.parents.Keys)|
  {
  }

  // ----- what the best common ancestors are

  /** The unique best common ancestor, or the merge conflict. */
  function RequireSingleBest(a: Analysis): (r: Result<Rev, set<Rev>>)
    ensures r.Ok? <==> |a.best| == 1
    ensures r.Ok? ==> a.best == {r.value}
    ensures r.Err? ==> r.error == a.best
  {
    if |a.best| != 1 then Err(a.best)
    else
      Singleton(a.best);
      var b :| b in a.best;
      Ok(b)
  }

  lemma Singleton(s: set<Rev>)
    requires |s| == 1
    ensures exists b :: b in s && s == {b}
    ensures forall b, c :: b in s && c in s ==> b == c
  {
    var b :| b in s;
    assert |s - {b}| == 0;
    assert s == {b};
  }

  /** Some best common ancestor exists as soon as there is a common ancestor. */
  lemma BestNonEmpty(source: Source, left: Rev, right: Rev)
    requires !CycleIn(GraphOf(source), Lineage(source, left) + Lineage(source, right))
    requires Common(source, left, right) != {}
    ensures Best(GraphOf(source), Common(source, left, right)) != {}
  {
    BestExists(GraphOf(source), Common(source, left, right));
  }

  /** When left is an ancestor of right, or is right, it is the one best common ancestor. */
  lemma BestOfAncestor(source: Source, left: Rev, right: Rev)
    requires Reaches(GraphOf(source), right, left)
    requires !CycleIn(GraphOf(source), Lineage(source, left) + Lineage(source, right))
    ensures Best(GraphOf(source), Common(source, left, right)) == {left}
  {
    var g, common := GraphOf(source), Common(source, left, right);
    LineageIs(source, right, left);
    LineageIs(source, left, left);
    ReachRefl(g, left);
    forall c | c in common && c != left ensures Above(g, left, c) {
      LineageIs(source, left, c);
      AboveReaches(g, left, c);
    }
    forall d | d in common ensures !Above(g, d, left) {
      LineageIs(source, left, d);
      if Above(g, d, left) {
        AboveReaches(g, d, left);
        ReachTrans(g, left, d, left);
      }
    }
  }

  // ----- shortest distances

  /** Every distance is the length of some parent path, and links from loaded revisions grow it by at
      most one. */
  ghost predicate Distances(source: Source, from: Rev, parents: Graph, d: map<Rev, nat>, queue: seq<Rev>) {
    && from in d && d[from] == 0
    && (forall v :: v in d ==> exists p :: IsPath(GraphOf(source), p, from, v) && |p| == d[v] + 1)
    && (forall v :: v in d <==> v in parents || v in queue)
    && (forall v, p :: v in parents && Edge(GraphOf(source), v, p) ==> p in d && d[p] <= d[v] + 1)
  }

  // The queue is ordered by distance, and spans at most two neighbouring distances.
  ghost predicate Layered(parents: Graph, d: map<Rev, nat>, queue: seq<Rev>) {
    && (forall i :: 0 <= i < |queue| ==> queue[i] in d)
    && (forall i, j :: 0 <= i < j < |queue| ==> d[queue[i]] <= d[queue[j]])
    && (forall i :: 0 <= i < |queue| ==> d[queue[i]] <= d[queue[0]] + 1)
    && (forall v, i :: v in parents && v in d && 0 <= i < |queue| ==> d[v] <= d[queue[i]])
  }

  /** `d` and `queue` add the still unknown `parents` at distance `next`. */
  ghost predicate Expanded(parents: seq<Rev>, next: nat, d0: map<Rev, nat>, queue0: seq<Rev>, d: map<Rev, nat>, queue: seq<Rev>) {
    && queue0 <= queue
    && (forall v :: v in d0 ==> v in d && d[v] == d0[v])
    && (forall v :: v in parents ==> v in d)
    && (forall v :: v in d <==> v in d0 || v in queue[|queue0|..])
    && (forall v :: v in queue[|queue0|..] ==> v in d && d[v] == next && v in parents && v !in d0)
  }

  // Queues the parents that have no distance yet.
  method Expand(parents: seq<Rev>, next: nat, d0: map<Rev, nat>, queue0: seq<Rev>) returns (d: map<Rev, nat>, queue: seq<Rev>)
    ensures Expanded(parents, next, d0, queue0, d, queue)
  {
    d, queue := d0, queue0;
    for i := 0 to |parents|
      invariant Expanded(parents[..i], next, d0, queue0, d, queue)
    {
      assert parents[..i + 1] == parents[..i] + [parents[i]];
      if parents[i] !in d {
        assert (queue + [parents[i]])[|queue0|..] == queue[|queue0|..] + [parents[i]];
        d := d[parents[i] := next];
        queue := queue + [parents[i]];
      }
    }
    assert parents[..|parents|] == parents;
  }

  // One loaded revision, its parents, and the maps before and after.
  ghost predicate Turn(source: Source, parents: Graph, more: Graph, d0: map<Rev, nat>, queue0: seq<Rev>, d: map<Rev, nat>, queue: seq<Rev>) {
    && queue0 != [] && queue0[0] in source && queue0[0] in d0
    && more.Keys == parents.Keys + {queue0[0]}
    && Expanded(UniqueParents(source[queue0[0]]), d0[queue0[0]] + 1, d0, queue0[1..], d, queue)
  }

  lemma ExpandKeeps(source: Source, from: Rev, parents: Graph, more: Graph, d0: map<Rev, nat>, queue0: seq<Rev>,
                    d: map<Rev, nat>, queue: seq<Rev>)
    requires Distances(source, from, parents, d0, queue0) && Layered(parents, d0, queue0)
    requires Turn(source, parents, more, d0, queue0, d, queue)
    ensures Distances(source, from, more, d, queue) && Layered(more, d, queue)
    ensures queue0[0] in parents ==> |queue| < |queue0|
  {
    ExpandMembers(parents, more, d0, queue0, d, queue);
    ExpandLayers(parents, more, d0, queue0, d, queue);
    ExpandPaths(source, from, parents, more, d0, queue0, d, queue);
    ExpandEdges(source, from, parents, more, d0, queue0, d, queue);
    hide Layered;
    hide Turn;
    hide Expanded;
  }

  lemma ExpandPaths(source: Source, from: Rev, parents: Graph, more: Graph, d0: map<Rev, nat>, queue0: seq<Rev>,
                    d: map<Rev, nat>, queue: seq<Rev>)
    requires Distances(source, from, parents, d0, queue0) && Turn(source, parents, more, d0, queue0, d, queue)
    ensures forall v :: v in d ==> exists p :: IsPath(GraphOf(source), p, from, v) && |p| == d[v] + 1
  {
    var g, current := GraphOf(source), queue0[0];
    forall v | v in d ensures exists p :: IsPath(g, p, from, v) && |p| == d[v] + 1 {
      if v in d0 {
        var p :| IsPath(g, p, from, v) && |p| == d0[v] + 1;
      } else {
        var p :| IsPath(g, p, from, current) && |p| == d0[current] + 1;
        assert Edge(g, current, v);
        assert IsPath(g, [current, v], current, v);
        PathJoin(g, p, [current, v], from, current, v);
      }
    }
  }

  lemma ExpandEdges(source: Source, from: Rev, parents: Graph, more: Graph, d0: map<Rev, nat>, queue0: seq<Rev>,
                    d: map<Rev, nat>, queue: seq<Rev>)
    requires Distances(source, from, parents, d0, queue0) && Layered(parents, d0, queue0)
    requires Turn(source, parents, more, d0, queue0, d, queue)
    ensures from in d && d[from] == 0
    ensures forall v, p :: v in more && Edge(GraphOf(source), v, p) ==> p in d && v in d && d[p] <= d[v] + 1
    ensures queue0[0] in parents ==> |queue| < |queue0|
  {
    var current := queue0[0];
    assert current in queue0;
    forall v, p | v in more && Edge(GraphOf(source), v, p) ensures p in d && v in d && d[p] <= d[v] + 1 {
      if v == current && p in d0 {
        NearHead(source, from, parents, d0, queue0, p);
      }
    }
    if current in parents && |queue| >= |queue0| {
      var v := queue[|queue0| - 1..][0];
      assert v in queue[|queue0| - 1..];
      assert Edge(GraphOf(source), current, v);
      assert false;
    }
  }

  // Every known distance is at most one beyond the head of the queue.
  lemma NearHead(source: Source, from: Rev, parents: Graph, d: map<Rev, nat>, queue: seq<Rev>, p: Rev)
    requires Distances(source, from, parents, d, queue) && Layered(parents, d, queue) && queue != [] && p in d
    ensures queue[0] in d && d[p] <= d[queue[0]] + 1
  {
    if p !in parents {
      var i :| 0 <= i < |queue| && queue[i] == p;
    }
  }

  lemma ExpandMembers(parents: Graph, more: Graph, d0: map<Rev, nat>, queue0: seq<Rev>, d: map<Rev, nat>, queue: seq<Rev>)
    requires queue0 != [] && more.Keys == parents.Keys + {queue0[0]} && queue0[1..] <= queue
    requires forall v :: v in d0 <==> v in parents || v in queue0
    requires forall v :: v in d <==> v in d0 || v in queue[|queue0| - 1..]
    ensures forall v :: v in d <==> v in more || v in queue
  {
    var n := |queue0| - 1;
    assert queue == queue0[1..] + queue[n..];
    assert queue0 == [queue0[0]] + queue0[1..];
  }

  lemma ExpandLayers(parents: Graph, more: Graph, d0: map<Rev, nat>, queue0: seq<Rev>, d: map<Rev, nat>, queue: seq<Rev>)
    requires Layered(parents, d0, queue0) && queue0 != []
    requires more.Keys == parents.Keys + {queue0[0]} && queue0[1..] <= queue
    requires forall v :: v in d0 ==> v in d && d[v] == d0[v]
    requires forall v :: v in parents ==> v in d0
    requires forall v :: v in queue[|queue0| - 1..] ==> v in d && d[v] == d0[queue0[0]] + 1
    ensures Layered(more, d, queue)
  {
    var n, k := |queue0| - 1, d0[queue0[0]];
    forall i | 0 <= i < |queue| ensures queue[i] in d && k <= d[queue[i]] <= k + 1 {
      if i < n {
        assert queue[i] == queue0[i + 1];
      } else {
        assert queue[i] == queue[n..][i - n];
      }
    }
    forall i, j | 0 <= i < j < |queue| ensures d[queue[i]] <= d[queue[j]] {
      if j < n {
        assert queue[i] == queue0[i + 1] && queue[j] == queue0[j + 1];
      } else {
        assert queue[j] == queue[n..][j - n];
      }
    }
  }

  /** Distances are true shortest parent-path lengths, over exactly the lineage of the revision. */
  ghost predicate Shortest(source: Source, from: Rev, d: map<Rev, nat>) {
    && d.Keys == Lineage(source, from)
    && (forall v :: v in d ==> exists p :: IsPath(GraphOf(source), p, from, v) && |p| == d[v] + 1)
    && (forall v, p :: v in d && IsPath(GraphOf(source), p, from, v) ==> d[v] + 1 <= |p|)
  }

  lemma {:induction false} NoShorterPath(source: Source, from: Rev, parents: Graph, d: map<Rev, nat>, p: seq<Rev>, a: Rev, b: Rev)
    requires Distances(source, from, parents, d, []) && a in d && IsPath(GraphOf(source), p, a, b)
    ensures b in d && d[b] <= d[a] + |p| - 1
    decreases |p|
  {
    if |p| > 1 {
      assert Edge(GraphOf(source), p[0], p[1]);
      NoShorterPath(source, from, parents, d, p[1..], p[1], b);
    }
  }

  lemma DistancesShortest(source: Source, from: Rev, parents: Graph, d: map<Rev, nat>)
    requires Distances(source, from, parents, d, [])
    ensures Shortest(source, from, d)
  {
    var g := GraphOf(source);
    forall v ensures v in d <==> v in Lineage(source, from) {
      LineageIs(source, from, v);
      if Reaches(g, from, v) {
        var p :| IsPath(g, p, from, v);
        NoShorterPath(source, from, parents, d, p, from, v);
      }
    }
    forall v, p | v in d && IsPath(g, p, from, v) ensures d[v] + 1 <= |p| {
      NoShorterPath(source, from, parents, d, p, from, v);
    }
  }

  lemma HeadInLineage(source: Source, from: Rev, parents: Graph, d: map<Rev, nat>, queue: seq<Rev>)
    requires Distances(source, from, parents, d, queue) && queue != []
    ensures parents.Keys <= Lineage(source, from) && queue[0] in Lineage(source, from)
    ensures queue[0] in d
  {
    assert queue[0] in queue;
    forall v | v in d ensures v in Lineage(source, from) {
      LineageIs(source, from, v);
    }
  }

  lemma DistancesStart(source: Source, from: Rev)
    ensures Distances(source, from, map[], map[from := 0], [from]) && Layered(map[], map[from := 0], [from])
    ensures Loaded(source, Search(map[], map[], [], 0))
  {
    assert IsPath(GraphOf(source), [from], from, from);
    assert Links(source, {}) == {};
  }

  method AncestorDistances(source: Source, revision: Rev, maxNodes: int, maxEdges: int)
    returns (r: Result<map<Rev, nat>, DagError>)
    ensures r == Err(InvalidLimit) <==> !ValidLimits(maxNodes, maxEdges)
    ensures ValidLimits(maxNodes, maxEdges) && r.Err? ==>
      LoadError(source, Lineage(source, revision), maxNodes, maxEdges, r.error)
    ensures r.Ok? ==> Shortest(source, revision, r.value)
    ensures r.Ok? ==> Within(source, Lineage(source, revision), maxNodes, maxEdges)
  {
    if !(1 <= maxNodes <= MAX_REVISION_DAG_NODES && 1 <= maxEdges <= MAX_REVISION_DAG_EDGES) {
      return Err(InvalidLimit);
    }
    var d: map<Rev, nat> := map[revision := 0];
    var s := Search(map[], map[], [], 0);
    var queue := [revision];
    DistancesStart(source, revision);
    hide *;
    while queue != []
      invariant Loaded(source, s) && |s.parents| <= maxNodes && s.edges <= maxEdges
      invariant Distances(source, revision, s.parents, d, queue) && Layered(s.parents, d, queue)
      decreases maxNodes - |s.parents|, |queue|
    {
      var current := queue[0];
      HeadInLineage(source, revision, s.parents, d, queue);
      var loaded := LoadParents(source, s, current, maxNodes, maxEdges, Lineage(source, revision));
      if loaded.Err? {
        return Err(loaded.error);
      }
      LoadedParents(source, s, loaded.value, current);
      var parents := loaded.value.parents;
      var more, rest := Expand(parents[current], d[current] + 1, d, queue[1..]);
      TurnIs(source, s.parents, parents, d, queue, more, rest);
      ExpandKeeps(source, revision, s.parents, parents, d, queue, more, rest);
      s, d, queue := loaded.value, more, rest;
    }
    DistancesShortest(source, revision, s.parents, d);
    DistancesWithin(source, revision, s, d, maxNodes, maxEdges);
    return Ok(d);
  }

  lemma DistancesWithin(source: Source, from: Rev, s: Search, d: map<Rev, nat>, maxNodes: int, maxEdges: int)
    requires Loaded(source, s) && |s.parents| <= maxNodes && s.edges <= maxEdges
    requires Distances(source, from, s.parents, d, []) && Shortest(source, from, d)
    ensures Within(source, Lineage(source, from), maxNodes, maxEdges)
  {
    assert s.parents.Keys == d.Keys;
    assert |s.parents.Keys| == |s.parents|;
  }

  lemma TurnIs(source: Source, parents: Graph, more: Graph, d0: map<Rev, nat>, queue0: seq<Rev>, d: map<Rev, nat>, queue: seq<Rev>)
    requires queue0 != [] && queue0[0] in source && queue0[0] in d0 && more.Keys == parents.Keys + {queue0[0]}
    requires more[queue0[0]] == UniqueParents(source[queue0[0]])
    requires Expanded(more[queue0[0]], d0[queue0[0]] + 1, d0, queue0[1..], d, queue)
    ensures Turn(source, parents, more, d0, queue0, d, queue)
  {
  }

  lemma LoadedParents(source: Source, s: Search, t: Search, r: Rev)
    requires Loaded(source, t) && t.parents.Keys == s.parents.Keys + {r}
    ensures r in source && t.parents[r] == UniqueParents(source[r])
    ensures |t.parents| >= |s.parents|
    ensures r !in s.parents ==> |t.parents| == |s.parents| + 1
  {
    assert |t.parents.Keys| == |t.parents| && |s.parents.Keys| == |s.parents|;
    if r in s.parents {
      assert t.parents.Keys == s.parents.Keys;
    }
  }
}
