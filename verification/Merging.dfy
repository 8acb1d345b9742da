/** When two stored revisions have a merge, and that they have at most one
    (src/weave_frontend/service.py, revision_dag.py). */
module Merging {
  import opened Prelude
  import opened Trees
  import opened Validity
  import opened Graphs
  import opened Kahn
  import opened RevisionDag
  import opened Mergers
  import opened Revisions
  import opened StoreSpec
  import opened StoreRuns
  import Merge

  datatype MergeFailure =
    | NoSource
    | SourceMoved
    | HistoryLimits
    | Unrelated
    | SeveralBases(best: set<Rev>)
    | Conflicts(conflicts: seq<string>)
    | InvalidDocument

  ghost predicate HistoryFits(revs: Revisions, ours: Rev, theirs: Rev) {
    Within(SourceOf(revs), Lineage(SourceOf(revs), ours) + Lineage(SourceOf(revs), theirs), MAX_REVISION_DAG_NODES, MAX_REVISION_DAG_EDGES)
  }

  ghost function BestOf(revs: Revisions, ours: Rev, theirs: Rev): set<Rev> {
    Best(Ancestry(revs), Common(SourceOf(revs), ours, theirs))
  }

  ghost predicate ConflictsOf(base: Snapshot, ours: Snapshot, theirs: Snapshot, conflicts: seq<string>) {
    exists names: seq<string> ::
      && (forall n :: n in names <==> n in base || n in ours || n in theirs)
      && conflicts == AllConflicts(base, ours, theirs, names) != []
  }

  /** The merge has no conflict anywhere, and the merged document `name` is not valid. */
  ghost predicate InvalidAt(base: Snapshot, ours: Snapshot, theirs: Snapshot, name: string) {
    && (forall n :: DocumentMerge(base, ours, theirs, n).conflicts == [])
    && var m := DocumentMerge(base, ours, theirs, name).node; m.Some? && !ValidTree(m.value)
  }

  /** Why two revisions have no merge. */
  ghost predicate MergeFails(revs: Revisions, ours: Rev, theirs: Rev, e: MergeFailure)
    requires ours in revs && theirs in revs
  {
    match e
    case HistoryLimits => !HistoryFits(revs, ours, theirs)
    case Unrelated => HistoryFits(revs, ours, theirs) && Common(SourceOf(revs), ours, theirs) == {}
    case SeveralBases(best) => HistoryFits(revs, ours, theirs) && best == BestOf(revs, ours, theirs) && |best| > 1
    case Conflicts(conflicts) => HistoryFits(revs, ours, theirs) && ConflictsOver(revs, ours, theirs, conflicts)
    case InvalidDocument => HistoryFits(revs, ours, theirs) && InvalidOver(revs, ours, theirs)
    case _ => false
  }

  ghost predicate ConflictsOver(revs: Revisions, ours: Rev, theirs: Rev, conflicts: seq<string>)
    requires ours in revs && theirs in revs
  {
    exists base :: base in revs && BestOf(revs, ours, theirs) == {base} && ConflictsOf(revs[base].modules, revs[ours].modules, revs[theirs].modules, conflicts)
  }

  ghost predicate InvalidOver(revs: Revisions, ours: Rev, theirs: Rev)
    requires ours in revs && theirs in revs
  {
    exists base, name :: base in revs && BestOf(revs, ours, theirs) == {base} && InvalidAt(revs[base].modules, revs[ours].modules, revs[theirs].modules, name)
  }

  // ----- the common ancestor

  lemma BestStored(revs: Revisions, ours: Rev, theirs: Rev, base: Rev)
    requires ParentsKnown(revs) && ours in revs && base in BestOf(revs, ours, theirs)
    ensures base in revs
  {
    KnownClosed(revs);
    LineageIs(SourceOf(revs), ours, base);
    ReachStays(Ancestry(revs), revs.Keys, ours, base);
  }

  /** In a closed acyclic history the analysis fails for its limits or for want of an ancestor only, and
      finds stored revisions. */
  lemma AnalysisIs(revs: Revisions, ours: Rev, theirs: Rev, a: Result<Analysis, DagError>)
    requires ParentsKnown(revs) && !Cyclic(Ancestry(revs)) && ours in revs && theirs in revs
    requires var all, common := Lineage(SourceOf(revs), ours) + Lineage(SourceOf(revs), theirs), Common(SourceOf(revs), ours, theirs);
      if !HistoryFits(revs, ours, theirs) then a.Err? && LoadError(SourceOf(revs), all, MAX_REVISION_DAG_NODES, MAX_REVISION_DAG_EDGES, a.error)
      else if CycleIn(Ancestry(revs), all) then a == Err(Cycle)
      else if common == {} then a == Err(NoCommonAncestor)
      else a.Ok? && a.value.best == Best(Ancestry(revs), common)
    ensures a.Err? ==> MergeFails(revs, ours, theirs, if a.error == NoCommonAncestor then Unrelated else HistoryLimits)
    ensures a.Ok? ==> HistoryFits(revs, ours, theirs) && a.value.best == BestOf(revs, ours, theirs) != {} && a.value.best <= revs.Keys
  {
    hide Lineage;
    hide Common;
    hide Best;
    hide ParentsKnown;
    hide Within;
    if a.Ok? {
      BestNonEmpty(SourceOf(revs), ours, theirs);
      forall b | b in a.value.best ensures b in revs {
        BestStored(revs, ours, theirs, b);
      }
    }
  }

  // ----- the documents

  lemma MergedIs(base: Snapshot, ours: Snapshot, theirs: Snapshot, merged: MergedState)
    requires AllValid(merged.documents)
    requires forall n :: Settled(merged, base, ours, theirs, n)
    requires forall n :: DocumentMerge(base, ours, theirs, n).conflicts == []
    ensures MergedModules(base, ours, theirs, merged.documents)
  {
    hide DocumentMerge;
    hide ValidTree;
    forall name ensures Look(merged.documents, name) == DocumentMerge(base, ours, theirs, name).node {
      assert Settled(merged, base, ours, theirs, name);
    }
  }

  lemma MergedInvalid(base: Snapshot, ours: Snapshot, theirs: Snapshot, merged: MergedState)
    requires !AllValid(merged.documents)
    requires forall n :: Settled(merged, base, ours, theirs, n)
    requires forall n :: DocumentMerge(base, ours, theirs, n).conflicts == []
    ensures exists name :: InvalidAt(base, ours, theirs, name)
  {
    hide DocumentMerge;
    hide ValidTree;
    var name :| name in merged.documents && !ValidTree(merged.documents[name]);
    assert Settled(merged, base, ours, theirs, name);
    assert InvalidAt(base, ours, theirs, name);
  }

  lemma {:induction false} SomeConflict(base: Snapshot, ours: Snapshot, theirs: Snapshot, names: seq<string>) returns (name: string)
    requires AllConflicts(base, ours, theirs, names) != []
    ensures DocumentMerge(base, ours, theirs, name).conflicts != []
    decreases |names|
  {
    hide DocumentMerge;
    name := names[|names| - 1];
    if DocumentMerge(base, ours, theirs, name).conflicts == [] {
      name := SomeConflict(base, ours, theirs, names[..|names| - 1]);
    }
  }

  // ----- one merge or none

  /** Two revisions have at most one merge. */
  lemma MergeOnce(revs: Revisions, ours: Rev, theirs: Rev, b: Rev, m: Snapshot, c: Rev, n: Snapshot)
    requires MergeRight(revs, ours, theirs, b, m) && MergeRight(revs, ours, theirs, c, n)
    ensures b == c && m == n
  {
    hide DocumentMerge;
    hide ValidTree;
    assert b in {c};
    forall name ensures name in m <==> name in n {
      assert Look(m, name) == Look(n, name);
    }
    forall name | name in m ensures m[name] == n[name] {
      assert Look(m, name) == Look(n, name);
    }
  }

  /** A failure other than the limits means that there is none. */
  lemma NoMerge(revs: Revisions, ours: Rev, theirs: Rev, e: MergeFailure, b: Rev, m: Snapshot)
    requires ours in revs && theirs in revs && MergeFails(revs, ours, theirs, e) && e != HistoryLimits
    ensures !MergeRight(revs, ours, theirs, b, m)
  {
    hide DocumentMerge;
    hide ValidTree;
    hide HistoryFits;
    if MergeRight(revs, ours, theirs, b, m) {
      NothingInvalid(revs, ours, theirs, b, m);
      if e.Conflicts? {
        NoConflicts(revs, ours, theirs, e.conflicts, b, m);
      }
      SomeBest(revs, ours, theirs, b);
    }
  }

  lemma SomeBest(revs: Revisions, ours: Rev, theirs: Rev, b: Rev)
    requires BestOf(revs, ours, theirs) == {b}
    ensures b in Common(SourceOf(revs), ours, theirs)
  {
    assert b in BestOf(revs, ours, theirs);
  }

  lemma NoConflicts(revs: Revisions, ours: Rev, theirs: Rev, conflicts: seq<string>, b: Rev, m: Snapshot)
    requires MergeRight(revs, ours, theirs, b, m)
    ensures !ConflictsOver(revs, ours, theirs, conflicts)
  {
    hide DocumentMerge;
    hide ValidTree;
    hide AllConflicts;
    if c :| c in revs && BestOf(revs, ours, theirs) == {c} && ConflictsOf(revs[c].modules, revs[ours].modules, revs[theirs].modules, conflicts) {
      assert c in {b};
      var names :| conflicts == AllConflicts(revs[b].modules, revs[ours].modules, revs[theirs].modules, names) != [];
      var name := SomeConflict(revs[b].modules, revs[ours].modules, revs[theirs].modules, names);
    }
  }

  lemma NothingInvalid(revs: Revisions, ours: Rev, theirs: Rev, b: Rev, m: Snapshot)
    requires MergeRight(revs, ours, theirs, b, m)
    ensures !InvalidOver(revs, ours, theirs)
  {
    hide DocumentMerge;
    hide ValidTree;
    assert forall name :: Look(m, name) == DocumentMerge(revs[b].modules, revs[ours].modules, revs[theirs].modules, name).node;
    assert forall c :: {b} == {c} ==> c in {b};
  }

  // ----- the writers' step

  ghost predicate MayAdvance(db: Db, c: Captured) {
    exists s :: Advance(db, c, s).Ok?
  }

  ghost predicate OnlyAdvance(db: Db, c: Captured, next: Captured) {
    forall s :: Advance(db, c, s).Ok? ==> Advance(db, c, s) == Ok(Progress(db, Some(next)))
  }

  lemma MergeAdvances(db: Db, half: Captured, sourceHead: Rev, base: Rev, modules: Snapshot)
    requires half.HalfMerge? && BranchHead(db, half.project, half.source) == Ok(sourceHead)
    requires ExpectedHead(sourceHead, half.expectedSource).Ok?
    requires MergeRight(db.revisions, half.targetHead, sourceHead, base, modules)
    ensures MayAdvance(db, half)
    ensures OnlyAdvance(db, half, ReadyCommit(MergeCommit(half.project, half.target, half.targetHead, half.source, sourceHead, modules)))
  {
    hide MergeRight;
    assert Advance(db, half, Supplies("", "", "", 0, 0, base, modules)).Ok?;
    forall s: Supplies | Advance(db, half, s).Ok? ensures s.merged == modules {
      MergeOnce(db.revisions, half.targetHead, sourceHead, base, modules, s.mergeBase, s.merged);
    }
  }

  lemma MergeStops(db: Db, half: Captured, sourceHead: Rev, e: MergeFailure)
    requires half.HalfMerge? && BranchHead(db, half.project, half.source) == Ok(sourceHead)
    requires half.targetHead in db.revisions && sourceHead in db.revisions
    requires MergeFails(db.revisions, half.targetHead, sourceHead, e) && e != HistoryLimits
    ensures !MayAdvance(db, half)
  {
    hide MergeRight;
    hide MergeFails;
    forall s: Supplies ensures Advance(db, half, s).Err? {
      NoMerge(db.revisions, half.targetHead, sourceHead, e, s.mergeBase, s.merged);
    }
  }

  predicate SameDocument(a: Snapshot, b: Snapshot, name: string) {
    (name in a <==> name in b) && (name in a && name in b ==> a[name] == b[name])
  }

  /** A document that one side left as it was comes out as the other side has it, added or removed ones included;
      one that both changed is there on both sides and in the base, and comes out as the merge of the three. */
  lemma DocumentMerged(base: Snapshot, ours: Snapshot, theirs: Snapshot, modules: Snapshot, name: string)
    requires MergedModules(base, ours, theirs, modules)
    ensures SameDocument(base, ours, name) ==> SameDocument(modules, theirs, name)
    ensures SameDocument(base, theirs, name) ==> SameDocument(modules, ours, name)
    ensures SameDocument(ours, theirs, name) ==> SameDocument(modules, ours, name)
    ensures !SameDocument(base, ours, name) && !SameDocument(base, theirs, name) && !SameDocument(ours, theirs, name) ==>
            name in base && name in ours && name in theirs && name in modules
    ensures name in base && name in ours && name in theirs && name in modules && ours[name] != theirs[name] ==>
            Merge.MergeNode(Some(base[name]), Some(ours[name]), Some(theirs[name]), "document:" + name) == Merge.Merged(Some(modules[name]), [])
  {
    assert Look(modules, name) == DocumentMerge(base, ours, theirs, name).node;
    hide Merge.MergeChildren;
  }
}
