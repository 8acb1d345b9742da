/** Stored revisions, the first-parent chain and the ancestry graph they form. */
module Revisions {
  import opened Prelude
  import opened Trees
  import opened Validity
  import opened Graphs
  import opened RevisionDag
  import opened Mergers

  type ProjectId = string
  type DocumentId = string
  type Snapshot = map<string, Tree>

  datatype Operation = Operation(kind: string, target: Option<string>)

  datatype Revision = Revision(
    project: ProjectId,
    parent1: Option<Rev>,
    parent2: Option<Rev>,
    modules: Snapshot,
    documents: set<DocumentId>,
    operations: seq<Operation>)

  type Revisions = map<Rev, Revision>

  function SourceOf(revs: Revisions): Source {
    map r | r in revs :: Parents(revs[r].parent1, revs[r].parent2)
  }

  function Ancestry(revs: Revisions): Graph {
    GraphOf(SourceOf(revs))
  }

  /** Every parent is stored, and belongs to the same project. */
  ghost predicate ParentsKnown(revs: Revisions) {
    forall r :: r in revs ==> ParentKnown(revs, revs[r].project, revs[r].parent1) && ParentKnown(revs, revs[r].project, revs[r].parent2)
  }

  predicate ParentKnown(revs: Revisions, project: ProjectId, parent: Option<Rev>) {
    parent.Some? ==> parent.value in revs && revs[parent.value].project == project
  }

  /** Stored revisions stay as they are. */
  ghost predicate Kept(a: Revisions, b: Revisions) {
    forall r :: r in a ==> r in b && b[r] == a[r]
  }

  // ----- the first-parent chain

  /** The revision `n` first-parent links up. */
  function Forebear(revs: Revisions, r: Rev, n: nat): Option<Rev>
    decreases n
  {
    if n == 0 then Some(r)
    else if r in revs && revs[r].parent1.Some? then Forebear(revs, revs[r].parent1.value, n - 1)
    else None
  }

  /** `a` is on the first-parent chain of `r`. */
  ghost predicate OnChain(revs: Revisions, r: Rev, a: Rev) {
    exists n: nat :: Forebear(revs, r, n) == Some(a)
  }

  lemma ChainRefl(revs: Revisions, r: Rev)
    ensures OnChain(revs, r, r)
  {
    assert Forebear(revs, r, 0) == Some(r);
  }

  lemma {:induction false} ForebearAdd(revs: Revisions, r: Rev, m: nat, a: Rev, n: nat)
    requires Forebear(revs, r, m) == Some(a)
    ensures Forebear(revs, r, m + n) == Forebear(revs, a, n)
    decreases m
  {
    if m > 0 {
      ForebearAdd(revs, revs[r].parent1.value, m - 1, a, n);
    }
  }

  lemma ChainTrans(revs: Revisions, r: Rev, a: Rev, b: Rev)
    requires OnChain(revs, r, a) && OnChain(revs, a, b)
    ensures OnChain(revs, r, b)
  {
    var m: nat :| Forebear(revs, r, m) == Some(a);
    var n: nat :| Forebear(revs, a, n) == Some(b);
    ForebearAdd(revs, r, m, a, n);
  }

  lemma {:induction false} ForebearKept(a: Revisions, b: Revisions, r: Rev, n: nat)
    requires Kept(a, b) && Forebear(a, r, n).Some?
    ensures Forebear(b, r, n) == Forebear(a, r, n)
    decreases n
  {
    if n > 0 {
      ForebearKept(a, b, a[r].parent1.value, n - 1);
    }
  }

  lemma ChainKept(a: Revisions, b: Revisions, r: Rev, x: Rev)
    requires Kept(a, b) && OnChain(a, r, x)
    ensures OnChain(b, r, x)
  {
    var n: nat :| Forebear(a, r, n) == Some(x);
    ForebearKept(a, b, r, n);
  }

  lemma ChainParent(revs: Revisions, r: Rev, p: Rev)
    requires r in revs && revs[r].parent1 == Some(p)
    ensures OnChain(revs, r, p)
    ensures forall a :: OnChain(revs, r, a) && a != r ==> OnChain(revs, p, a)
  {
    assert Forebear(revs, r, 1) == Forebear(revs, p, 0) == Some(p);
    forall a | OnChain(revs, r, a) && a != r ensures OnChain(revs, p, a) {
      var n: nat :| Forebear(revs, r, n) == Some(a);
      assert Forebear(revs, p, n - 1) == Some(a);
    }
  }

  lemma {:induction false} ForebearKnown(revs: Revisions, r: Rev, n: nat)
    requires ParentsKnown(revs) && r in revs && Forebear(revs, r, n).Some?
    ensures Forebear(revs, r, n).value in revs && revs[Forebear(revs, r, n).value].project == revs[r].project
    decreases n
  {
    if n > 0 {
      ForebearKnown(revs, revs[r].parent1.value, n - 1);
    }
  }

  /** First-parent links are ancestry links. */
  lemma {:induction false} ForebearReached(revs: Revisions, r: Rev, n: nat)
    requires Forebear(revs, r, n).Some?
    ensures Reaches(Ancestry(revs), r, Forebear(revs, r, n).value)
    ensures n > 0 ==> Above(Ancestry(revs), r, Forebear(revs, r, n).value)
    decreases n
  {
    var g := Ancestry(revs);
    if n == 0 {
      ReachRefl(g, r);
    } else {
      var p := revs[r].parent1.value;
      assert Edge(g, r, p);
      EdgeAbove(g, r, p);
      ForebearReached(revs, p, n - 1);
      ReachTrans(g, r, p, Forebear(revs, p, n - 1).value);
    }
  }

  /** In an acyclic history a revision is met once along the chain. */
  lemma ForebearOnce(revs: Revisions, r: Rev, m: nat, n: nat)
    requires !Cyclic(Ancestry(revs)) && m < n && Forebear(revs, r, n).Some? && Forebear(revs, r, m).Some?
    ensures Forebear(revs, r, m) != Forebear(revs, r, n)
  {
    var a := Forebear(revs, r, m).value;
    ForebearAdd(revs, r, m, a, n - m);
    ForebearReached(revs, a, n - m);
  }

  // ----- a new revision

  lemma NewEdge(revs: Revisions, id: Rev, r: Revision, a: Rev, b: Rev)
    requires id !in revs && ParentsKnown(revs) && Edge(Ancestry(revs[id := r]), a, b)
    requires ParentKnown(revs, r.project, r.parent1) && ParentKnown(revs, r.project, r.parent2)
    ensures b != id && (a != id ==> Edge(Ancestry(revs), a, b))
  {
    assert a in revs[id := r];
  }

  /** A new revision on top of stored ones closes no cycle. */
  lemma AcyclicInsert(revs: Revisions, id: Rev, r: Revision)
    requires id !in revs && ParentsKnown(revs) && !Cyclic(Ancestry(revs))
    requires ParentKnown(revs, r.project, r.parent1) && ParentKnown(revs, r.project, r.parent2)
    ensures !Cyclic(Ancestry(revs[id := r]))
  {
    hide Ancestry;
    var g, h := Ancestry(revs), Ancestry(revs[id := r]);
    forall x | Above(h, x, x) ensures false {
      var p :| IsPath(h, p, x, x) && |p| > 1;
      forall i | 0 <= i < |p| - 1 ensures Edge(g, p[i], p[i + 1]) {
        var j := if i > 0 then i - 1 else |p| - 2;
        assert p[j + 1] == p[i];
        NewEdge(revs, id, r, p[j], p[j + 1]);
        NewEdge(revs, id, r, p[i], p[i + 1]);
      }
      LoopIsCycle(g, p, x);
    }
  }

  lemma LoopIsCycle(g: Graph, p: seq<Rev>, x: Rev)
    requires IsPath(g, p, x, x) && |p| > 1
    ensures Cyclic(g)
  {
    assert Above(g, x, x);
  }

  // ----- merges

  /** `modules` is the valid, conflict-free merge of two revisions over their one best common ancestor. */
  ghost predicate MergeRight(revs: Revisions, ours: Rev, theirs: Rev, base: Rev, modules: Snapshot) {
    && ours in revs && theirs in revs && base in revs
    && Best(Ancestry(revs), Common(SourceOf(revs), ours, theirs)) == {base}
    && MergedModules(revs[base].modules, revs[ours].modules, revs[theirs].modules, modules)
  }

  ghost predicate MergedModules(base: Snapshot, ours: Snapshot, theirs: Snapshot, modules: Snapshot) {
    && (forall name :: name in modules ==> ValidTree(modules[name]))
    && (forall name :: Look(modules, name) == DocumentMerge(base, ours, theirs, name).node && DocumentMerge(base, ours, theirs, name).conflicts == [])
  }

  /** Every revision with two different parents is the merge of the two. */
  ghost predicate MergesRight(revs: Revisions) {
    forall r :: r in revs && revs[r].parent2.Some? && revs[r].parent1 != revs[r].parent2 ==> MergeOf(revs, revs[r])
  }

  ghost predicate MergeOf(revs: Revisions, r: Revision) {
    r.parent1.Some? && r.parent2.Some? && exists base :: MergeRight(revs, r.parent1.value, r.parent2.value, base, r.modules)
  }

  lemma KnownClosed(revs: Revisions)
    requires ParentsKnown(revs)
    ensures Closed(Ancestry(revs), revs.Keys)
  {
    forall a, b | a in revs && Edge(Ancestry(revs), a, b) ensures b in revs {
      assert revs[a].parent1 == Some(b) || revs[a].parent2 == Some(b);
    }
  }

  lemma SameEdges(a: Revisions, b: Revisions)
    requires ParentsKnown(a) && Kept(a, b)
    ensures forall x, y :: x in a ==> (Edge(Ancestry(a), x, y) <==> Edge(Ancestry(b), x, y))
  {
  }

  lemma SameReach(a: Revisions, b: Revisions, x: Rev, y: Rev)
    requires ParentsKnown(a) && Kept(a, b) && x in a
    ensures Reaches(Ancestry(a), x, y) <==> Reaches(Ancestry(b), x, y)
    ensures Above(Ancestry(a), x, y) <==> Above(Ancestry(b), x, y)
  {
    var g, h := Ancestry(a), Ancestry(b);
    KnownClosed(a);
    SameEdges(a, b);
    AboveReaches(g, x, y);
    AboveReaches(h, x, y);
    if Above(g, x, y) {
      SameAbove(g, h, a.Keys, x, y);
    }
    if Above(h, x, y) {
      ClosedToo(g, h, a.Keys);
      SameAbove(h, g, a.Keys, x, y);
    }
  }

  lemma ClosedToo(g: Graph, h: Graph, s: set<Rev>)
    requires Closed(g, s) && forall x, y :: x in s ==> (Edge(g, x, y) <==> Edge(h, x, y))
    ensures Closed(h, s)
  {
  }

  /** The common ancestors of stored revisions, and the best of them, never change. */
  lemma BestKept(a: Revisions, b: Revisions, ours: Rev, theirs: Rev)
    requires ParentsKnown(a) && Kept(a, b) && ours in a && theirs in a
    ensures Common(SourceOf(a), ours, theirs) == Common(SourceOf(b), ours, theirs)
    ensures Best(Ancestry(a), Common(SourceOf(a), ours, theirs)) == Best(Ancestry(b), Common(SourceOf(b), ours, theirs))
  {
    var common := Common(SourceOf(a), ours, theirs);
    forall x ensures x in common <==> x in Common(SourceOf(b), ours, theirs) {
      LineageIs(SourceOf(a), ours, x);
      LineageIs(SourceOf(a), theirs, x);
      LineageIs(SourceOf(b), ours, x);
      LineageIs(SourceOf(b), theirs, x);
      SameReach(a, b, ours, x);
      SameReach(a, b, theirs, x);
    }
    KnownClosed(a);
    forall d, c | d in common ensures Above(Ancestry(a), d, c) <==> Above(Ancestry(b), d, c) {
      LineageIs(SourceOf(a), ours, d);
      ReachStays(Ancestry(a), a.Keys, ours, d);
      SameReach(a, b, d, c);
    }
  }

  /** What was a right merge stays one. */
  lemma MergeRightKept(a: Revisions, b: Revisions, ours: Rev, theirs: Rev, base: Rev, modules: Snapshot)
    requires ParentsKnown(a) && Kept(a, b) && MergeRight(a, ours, theirs, base, modules)
    ensures MergeRight(b, ours, theirs, base, modules)
  {
    BestKept(a, b, ours, theirs);
  }
}
