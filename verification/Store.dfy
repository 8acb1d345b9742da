/** The store as the services use it: transactions on its tables, and the loops over history
    (src/weave_frontend/service.py, edit_candidates.py). */
module Stores {
  import opened Prelude
  import opened Trees
  import opened Validity
  import opened Graphs
  import opened Kahn
  import opened RevisionDag
  import opened Mergers
  import opened Revisions
  import opened StoreSpec
  import opened StoreRuns
  import opened Merging
  import opened Effects
  import BatchSpec
  import BatchLaws
  import Documents

  const MAX_HISTORY_PAGE := 200

  datatype HistoryError = HistoryLimit | HistoryCycle | HistoryMissing | NoBranch

  // One page of a branch's history, newest first, and where the next one starts.
  datatype HistoryPage = HistoryPage(revisions: seq<Rev>, next: Option<Rev>)

  /** `h` lists the first-parent chain of `r`, newest first. */
  ghost predicate Lists(revs: Revisions, r: Rev, h: seq<Rev>) {
    forall i :: 0 <= i < |h| ==> Forebear(revs, r, i) == Some(h[i])
  }

  function Reverse<T>(s: seq<T>): (r: seq<T>)
    ensures |r| == |s| && forall i :: 0 <= i < |s| ==> r[i] == s[|s| - 1 - i]
  {
    if s == [] then [] else Reverse(s[1..]) + [s[0]]
  }

  lemma ListedOnce(revs: Revisions, r: Rev, h: seq<Rev>, n: nat)
    requires !Cyclic(Ancestry(revs)) && Lists(revs, r, h) && |h| <= n && Forebear(revs, r, n).Some?
    ensures Forebear(revs, r, n).value !in h
  {
    if i :| 0 <= i < |h| && h[i] == Forebear(revs, r, n).value {
      ForebearOnce(revs, r, i, n);
    }
  }

  lemma NextForebear(revs: Revisions, r: Rev, n: nat)
    requires Forebear(revs, r, n).Some?
    ensures var a := Forebear(revs, r, n).value;
      Forebear(revs, r, n + 1) == if a in revs && revs[a].parent1.Some? then revs[a].parent1 else None
  {
    var a := Forebear(revs, r, n).value;
    ForebearAdd(revs, r, n, a, 1);
    if a in revs && revs[a].parent1.Some? {
      assert Forebear(revs, a, 1) == Forebear(revs, revs[a].parent1.value, 0);
    }
  }

  class Store {
    var revisions: Revisions
    var branches: map<Branch, Rev>
    var candidates: map<CandidateId, Candidate>
    var qualifications: map<QualificationId, Qualification>
    var contents: map<Content, DocumentId>

    ghost function Tables(): Db
      reads this
    {
      Db(revisions, branches, candidates, qualifications, contents)
    }

    /** What every store that the writers of `StoreRuns` can make satisfies. */
    ghost predicate Valid()
      reads this
    {
      Inv(Tables())
    }

    constructor ()
      ensures Tables() == EMPTY.db && Valid()
    {
      revisions, branches, candidates, qualifications, contents := map[], map[], map[], map[], map[];
      new;
      EmptyInv();
    }

    // The transaction did what is specified, or failed as specified and was rolled back.
    ghost predicate Did<T>(r: Result<T, StoreError>, spec: Result<Db, StoreError>, before: Db)
      reads this
    {
      match spec
      case Ok(after) => r.Ok? && Tables() == after
      case Err(e) => r == Err(e) && Tables() == before
    }

    /** Inserts a revision that also links its first parent's documents. */
    method WriteRevision(id: Rev, r: Revision) returns (done: Result<(), StoreError>)
      requires Valid() && AllValid(r.modules) && (r.parent2.Some? && r.parent1 != r.parent2 ==> MergeOf(revisions, r))
      modifies this`revisions
      ensures Valid() && Evolves(old(Tables()), Tables())
      ensures Did(done, InsertRevision(old(Tables()), id, r), old(Tables()))
    {
      hide Inv;
      hide Evolves;
      hide MergeOf;
      EvolvesRefl(Tables());
      var documents := r.documents;
      if r.parent1.Some? && r.parent1.value in revisions {
        documents := documents + revisions[r.parent1.value].documents;
      }
      assert documents == r.documents + InheritedDocuments(Tables(), r.parent1);
      if id in revisions {
        return Err(DuplicateId);
      }
      if !ParentKnown(revisions, r.project, r.parent1) || !ParentKnown(revisions, r.project, r.parent2) {
        return Err(ForeignRevision);
      }
      if !(r.documents <= contents.Values) {
        return Err(UnknownDocument);
      }
      InsertKeeps(Tables(), id, r);
      revisions := revisions[id := r.(documents := documents)];
      return Ok(());
    }

    method InitializeProject(project: ProjectId, id: Rev) returns (r: Result<Rev, StoreError>)
      requires Valid()
      modifies this
      ensures Valid() && Evolves(old(Tables()), Tables())
      ensures Did(r, InitializeTx(old(Tables()), project, id), old(Tables()))
    {
      hide Inv;
      hide Evolves;
      hide InsertRevision;
      ghost var before := Tables();
      EvolvesRefl(before);
      if StoreSpec.Branch(project, "main") in branches {
        return Err(DuplicateBranch);
      }
      var written := WriteRevision(id, Revision(project, None, None, map[], {}, []));
      if written.Err? {
        return Err(written.error);
      }
      branches := branches[StoreSpec.Branch(project, "main") := id];
      InitializeKeeps(before, project, id);
      return Ok(id);
    }

    method HeadsAreExpected(project: ProjectId, heads: map<string, Rev>) returns (ok: bool)
      ensures ok <==> HeadsMatch(Tables(), project, heads)
    {
      var left := heads.Keys;
      while left != {}
        invariant left <= heads.Keys
        invariant forall name :: name in heads && name !in left ==>
          StoreSpec.Branch(project, name) in branches && branches[StoreSpec.Branch(project, name)] == heads[name]
      {
        var name :| name in left;
        var b := StoreSpec.Branch(project, name);
        if b !in branches || branches[b] != heads[name] {
          return false;
        }
        left := left - {name};
      }
      return true;
    }

    /** The content document of a write: the stored one with the same content, or a new one. */
    method LinkContent(content: Option<Content>, document: DocumentId) returns (r: Result<set<DocumentId>, StoreError>)
      requires Valid()
      modifies this`contents
      ensures Valid() && Evolves(old(Tables()), Tables())
      ensures match StoreContent(old(Tables()), content, document)
        case Ok(stored) => r == Ok(stored.1) && Tables() == stored.0
        case Err(e) => r == Err(e) && Tables() == old(Tables())
    {
      hide Inv;
      hide Evolves;
      EvolvesRefl(Tables());
      if content.None? {
        return Ok({});
      }
      if content.value in contents {
        return Ok({contents[content.value]});
      }
      if document in contents.Values {
        return Err(DuplicateId);
      }
      ContentKeeps(Tables(), content, document);
      contents := contents[content.value := document];
      return Ok({document});
    }

    /** The compare-and-set commit of every direct write and merge. A merge brings the merge of its heads. */
    method CommitRevision(c: Commit, id: Rev, document: DocumentId) returns (r: Result<Rev, StoreError>)
      requires Valid() && CommitOk(Tables(), c)
      modifies this
      ensures Valid() && Evolves(old(Tables()), Tables())
      ensures Did(r, CommitTx(old(Tables()), c, id, document), old(Tables()))
      ensures r.Ok? ==> Advanced(old(Tables()), Tables(), StoreSpec.Branch(c.project, c.branch), c.heads[c.branch], id)
      ensures r.Ok? ==> Committed(old(Tables()), Tables(), c, c.heads[c.branch], id, document)
    {
      hide Inv;
      hide Evolves;
      hide InsertRevision;
      hide Advanced;
      hide Committed;
      hide MergeRight;
      hide StoreContent;
      ghost var before := Tables();
      EvolvesRefl(before);
      var contents0 := contents;
      var matching := HeadsAreExpected(c.project, c.heads);
      if !matching {
        return Err(StaleHead);
      }
      var documents := LinkContent(c.content, document);
      if documents.Err? {
        return Err(documents.error);
      }
      var base := c.heads[c.branch];
      var written := WriteRevision(id, Revision(c.project, Some(base), c.parent2, c.modules, documents.value, c.operations));
      if written.Err? {
        contents := contents0;
        return Err(written.error);
      }
      branches := branches[StoreSpec.Branch(c.project, c.branch) := id];
      CommitKeeps(before, c, id, document);
      CommitDid(before, c, id, document);
      return Ok(id);
    }

    /** The batch executor's compare-and-set commit. */
    method CommitIfHead(project: ProjectId, branch: string, base: Rev, modules: Snapshot, operations: seq<Operation>, id: Rev)
      returns (r: Result<Rev, StoreError>)
      requires Valid() && AllValid(modules)
      modifies this
      ensures Valid() && Evolves(old(Tables()), Tables())
      ensures Did(r, BatchTx(old(Tables()), project, branch, base, modules, operations, id), old(Tables()))
      ensures r.Ok? ==> Advanced(old(Tables()), Tables(), StoreSpec.Branch(project, branch), base, id)
    {
      hide Inv;
      hide Evolves;
      hide InsertRevision;
      hide Advanced;
      ghost var before := Tables();
      EvolvesRefl(before);
      var b := StoreSpec.Branch(project, branch);
      if b !in branches {
        return Err(BranchMissing);
      }
      if branches[b] != base {
        return Err(StaleHead);
      }
      var written := WriteRevision(id, Revision(project, Some(base), None, modules, {}, operations));
      if written.Err? {
        return Err(written.error);
      }
      branches := branches[b := id];
      BatchKeeps(before, project, branch, base, modules, operations, id);
      return Ok(id);
    }

    method InsertBranch(project: ProjectId, name: string, from: Option<string>, head: Rev) returns (r: Result<Rev, StoreError>)
      requires Valid()
      modifies this
      ensures Valid() && Evolves(old(Tables()), Tables())
      ensures Did(r, BranchTx(old(Tables()), project, name, from, head), old(Tables()))
    {
      hide Inv;
      hide Evolves;
      ghost var before := Tables();
      EvolvesRefl(before);
      if from.Some? {
        var matching := HeadsAreExpected(project, map[from.value := head]);
        if !matching {
          return Err(StaleHead);
        }
      }
      if StoreSpec.Branch(project, name) in branches {
        return Err(DuplicateBranch);
      }
      if head !in revisions || revisions[head].project != project {
        return Err(ForeignRevision);
      }
      branches := branches[StoreSpec.Branch(project, name) := head];
      BranchKeeps(before, project, name, from, head);
      return Ok(head);
    }

    /** The caller has found the base in the project. */
    method InsertCandidate(id: CandidateId, project: ProjectId, name: string, base: Rev) returns (r: Result<(), StoreError>)
      requires Valid() && InProject(Tables(), project, base)
      modifies this
      ensures Valid() && Evolves(old(Tables()), Tables())
      ensures Did(r, OpenTx(old(Tables()), id, project, name, base), old(Tables()))
    {
      hide Inv;
      hide Evolves;
      ghost var before := Tables();
      EvolvesRefl(before);
      if exists c :: c in candidates && OpenNamed(candidates[c], project, name) {
        return Err(DuplicateCandidate);
      }
      if id in candidates {
        return Err(DuplicateId);
      }
      if base !in revisions {
        return Err(RevisionMissing);
      }
      candidates := candidates[id := Candidate(project, name, base, base, Open, None, None)];
      OpenKeeps(before, id, project, name, base);
      return Ok(());
    }

    predicate CandidateAt(id: CandidateId, head: Rev)
      reads this
    {
      id in candidates && candidates[id].status.Open? && candidates[id].head == head
    }

    method CommitCandidateRevision(id: CandidateId, head: Rev, modules: Snapshot, operations: seq<Operation>, revision: Rev)
      returns (r: Result<Rev, StoreError>)
      requires Valid() && AllValid(modules)
      modifies this
      ensures Valid() && Evolves(old(Tables()), Tables())
      ensures Did(r, EditTx(old(Tables()), id, head, modules, operations, revision), old(Tables()))
      ensures r.Ok? ==> branches == old(branches) && revisions[revision].parent1 == Some(head)
    {
      hide Inv;
      hide Evolves;
      hide InsertRevision;
      ghost var before := Tables();
      EvolvesRefl(before);
      if !CandidateAt(id, head) {
        return Err(StaleRevision);
      }
      var c := candidates[id];
      var written := WriteRevision(revision, Revision(c.project, Some(head), None, modules, {}, operations));
      if written.Err? {
        return Err(written.error);
      }
      candidates := candidates[id := c.(head := revision)];
      EditKeeps(before, id, head, modules, operations, revision);
      return Ok(revision);
    }

    /** The outcome comes from the documents of the head that the caller has read. */
    method RecordQualification(id: CandidateId, head: Rev, level: Level, outcome: Outcome, qualification: QualificationId, now: nat)
      returns (r: Result<(), StoreError>)
      requires Valid() && (outcome.Passed? ==> head in revisions && AllValid(revisions[head].modules))
      modifies this
      ensures Valid() && Evolves(old(Tables()), Tables())
      ensures Did(r, QualifyTx(old(Tables()), id, head, level, outcome, qualification, now), old(Tables()))
    {
      hide Inv;
      hide Evolves;
      hide AllValid;
      ghost var before := Tables();
      EvolvesRefl(before);
      if id !in candidates || !candidates[id].status.Open? {
        return Err(CandidateConflict);
      }
      if candidates[id].head != head {
        return Err(StaleRevision);
      }
      if qualification in qualifications {
        return Err(DuplicateId);
      }
      qualifications := qualifications[qualification := Qualification(id, head, level, outcome, now)];
      QualifyKeeps(before, id, head, level, outcome, qualification, now);
      return Ok(());
    }

    /** A fast-forward exactly when the expected base is on the chain of the head. */
    method PublishCandidate(id: CandidateId, project: ProjectId, branch: string, head: Rev, base: Rev) returns (r: Result<(), StoreError>)
      requires Valid()
      modifies this
      ensures Valid() && Grows(old(Tables()), Tables())
      ensures r.Ok? ==> revisions == old(revisions) && (Evolves(old(Tables()), Tables()) <==> OnChain(revisions, head, base))
      ensures Did(r, PublishTx(old(Tables()), id, project, branch, head, base), old(Tables()))
    {
      hide Inv;
      hide Evolves;
      hide OnChain;
      ghost var before := Tables();
      EvolvesRefl(before);
      var b := StoreSpec.Branch(project, branch);
      if b !in branches {
        return Err(BranchMissing);
      }
      if branches[b] != base {
        return Err(PublicationRace);
      }
      if !CandidateAt(id, head) {
        return Err(CandidateConflict);
      }
      if head !in revisions || revisions[head].project != project {
        return Err(ForeignRevision);
      }
      branches := branches[b := head];
      candidates := candidates[id := candidates[id].(status := Published, publishedBranch := Some(branch), publishedRevision := Some(head))];
      PublishKeeps(before, id, project, branch, head, base);
      return Ok(());
    }

    method AbandonCandidate(id: CandidateId) returns (r: Result<(), StoreError>)
      requires Valid()
      modifies this
      ensures Valid() && Evolves(old(Tables()), Tables())
      ensures Did(r, AbandonTx(old(Tables()), id), old(Tables()))
    {
      hide Inv;
      hide Evolves;
      ghost var before := Tables();
      EvolvesRefl(before);
      if id !in candidates || !candidates[id].status.Open? {
        return Err(CandidateConflict);
      }
      candidates := candidates[id := candidates[id].(status := Abandoned)];
      AbandonKeeps(before, id);
      return Ok(());
    }

    /** The caller has read the head, which is not the base, and its first parent. */
    method RevertCandidate(id: CandidateId, head: Rev, parent: Rev) returns (r: Result<(), StoreError>)
      requires Valid() && CapturedOk(Tables(), ReadyRevert(id, head, parent))
      modifies this
      ensures Valid() && Evolves(old(Tables()), Tables())
      ensures Did(r, RevertTx(old(Tables()), id, head, parent), old(Tables()))
      ensures r.Ok? ==> id in candidates && OnChain(revisions, candidates[id].head, candidates[id].base)
    {
      hide Inv;
      hide Evolves;
      hide OnChain;
      ghost var before := Tables();
      EvolvesRefl(before);
      if !CandidateAt(id, head) {
        return Err(StaleRevision);
      }
      candidates := candidates[id := candidates[id].(head := parent)];
      RevertKeeps(before, id, head, parent);
      CandidateIs(Tables(), id);
      return Ok(());
    }

    // ----- reads

    /** The newest qualification of a candidate. */
    method LatestQualification(candidate: CandidateId) returns (r: Option<QualificationId>)
      ensures r.Some? ==> Latest(Tables(), candidate, r.value)
      ensures r.None? ==> forall q :: q in qualifications ==> qualifications[q].candidate != candidate
    {
      r := None;
      var left := qualifications.Keys;
      while left != {}
        invariant left <= qualifications.Keys
        invariant r.Some? ==> r.value in qualifications && r.value !in left && qualifications[r.value].candidate == candidate
        invariant forall q :: q in qualifications && q !in left && qualifications[q].candidate == candidate ==>
          r.Some? && !Newer(qualifications[q], q, qualifications[r.value], r.value)
      {
        var q :| q in left;
        if qualifications[q].candidate == candidate &&
          (r.None? || Newer(qualifications[q], q, qualifications[r.value], r.value)) {
          r := Some(q);
        }
        left := left - {q};
      }
    }

    /** The check that a publication makes of a required level. */
    method CheckQualification(candidate: CandidateId, head: Rev, level: Level) returns (r: Result<(), StoreError>)
      ensures r.Ok? <==> Qualified(Tables(), candidate, head, level)
      ensures r == Err(StaleQualification) ==> PassElsewhere(Tables(), candidate, head, level)
    {
      var q := LatestQualification(candidate);
      if q.None? {
        return Err(QualificationFailure);
      }
      var found := qualifications[q.value];
      LatestIsOne(Tables(), candidate, q.value);
      if found.outcome != Passed || found.level != level {
        return Err(QualificationFailure);
      }
      if found.revision != head {
        return Err(StaleQualification);
      }
      return Ok(());
    }

    /** The edits of a candidate, oldest first: each revision above the base once, ending at the head. */
    method EditHistory(id: CandidateId) returns (r: Result<seq<Rev>, HistoryError>)
      requires Valid() && id in candidates
      ensures r.Ok?
      ensures Forebear(revisions, candidates[id].head, |r.value|) == Some(candidates[id].base)
      ensures forall i :: 0 <= i < |r.value| ==>
        r.value[i] != candidates[id].base && Forebear(revisions, candidates[id].head, |r.value| - 1 - i) == Some(r.value[i])
      ensures forall i, j :: 0 <= i < j < |r.value| ==> r.value[i] != r.value[j]
    {
      hide Inv;
      hide Cyclic;
      hide MergesRight;
      var head, base := candidates[id].head, candidates[id].base;
      CandidateIs(Tables(), id);
      InvParts(Tables());
      HistoryParts(revisions);
      ghost var n: nat :| Forebear(revisions, head, n) == Some(base);
      var history: seq<Rev> := [];
      var current := head;
      var seen: set<Rev> := {};
      while current != base
        invariant |history| <= n && Forebear(revisions, head, |history|) == Some(current)
        invariant Lists(revisions, head, history) && base !in history && seen == (set x | x in history)
        decreases n - |history|
      {
        NextOnChain(revisions, head, n, |history|, base);
        ListedOnce(revisions, head, history, |history|);
        NextForebear(revisions, head, |history|);
        if current in seen {
          return Err(HistoryCycle);
        }
        seen := seen + {current};
        history := history + [current];
        if revisions[current].parent1.None? {
          break;
        }
        current := revisions[current].parent1.value;
      }
      HistoryOnce(revisions, head, history);
      return Ok(Reverse(history));
    }

    /** A bounded page of a branch's first-parent history, newest first. It never fails on a
        branch that exists, and it is complete exactly when no next revision is given. */
    method BranchHistory(project: ProjectId, branch: string, limit: int) returns (r: Result<HistoryPage, HistoryError>)
      requires Valid()
      ensures !(1 <= limit <= MAX_HISTORY_PAGE) <==> r == Err(HistoryLimit)
      ensures var b := StoreSpec.Branch(project, branch);
        1 <= limit <= MAX_HISTORY_PAGE ==>
          if b !in branches then r == Err(NoBranch)
          else r.Ok? && PageOfHistory(revisions, branches[b], limit, r.value)
    {
      hide Inv;
      hide Cyclic;
      hide MergesRight;
      InvParts(Tables());
      HistoryParts(revisions);
      if !(1 <= limit <= MAX_HISTORY_PAGE) {
        return Err(HistoryLimit);
      }
      var b := StoreSpec.Branch(project, branch);
      if b !in branches {
        return Err(NoBranch);
      }
      var head := branches[b];
      assert InProject(Tables(), project, head);
      var current := Some(head);
      var history: seq<Rev> := [];
      var seen: set<Rev> := {};
      while current.Some? && |history| < limit
        invariant |history| <= limit && current == Forebear(revisions, head, |history|)
        invariant Lists(revisions, head, history) && seen == (set x | x in history)
        decreases limit - |history|
      {
        ListedOnce(revisions, head, history, |history|);
        ForebearKnown(revisions, head, |history|);
        NextForebear(revisions, head, |history|);
        if current.value in seen {
          return Err(HistoryCycle);
        }
        seen := seen + {current.value};
        if current.value !in revisions {
          return Err(HistoryMissing);
        }
        history := history + [current.value];
        current := revisions[current.value].parent1;
      }
      HistoryOnce(revisions, head, history);
      return Ok(HistoryPage(history, current));
    }

    /** The read of a direct write, up to a write that is ready to commit. */
    method PrepareWrite(project: ProjectId, branch: string, expected: Option<Rev>, change: Change, operation: Operation)
      returns (r: Result<Captured, StoreError>)
      requires Valid()
      ensures r == Begin(Tables(), Write(project, branch, expected, change, operation))
      ensures r.Ok? ==>
        var b := StoreSpec.Branch(project, branch);
        && b in branches && branches[b] in revisions && r.value.ReadyCommit?
        && Does(revisions[branches[b]].modules, change, r.value.commit.modules)
      ensures r.Ok? ==> CapturedOk(Tables(), r.value)
    {
      hide Inv;
      hide AllValid;
      hide Changed;
      hide Does;
      hide CapturedOk;
      var b := StoreSpec.Branch(project, branch);
      if b !in branches {
        return Err(BranchMissing);
      }
      var base := branches[b];
      if expected.Some? && expected.value != base {
        return Err(StaleHead);
      }
      HeadStored(Tables(), project, branch);
      ChangedDoes(revisions[base].modules, change);
      var next := ChangeState(revisions[base].modules, change);
      if next.Err? {
        return Err(next.error);
      }
      BeginOk(Tables(), Write(project, branch, expected, change, operation));
      return Ok(ReadyCommit(Commit(project, branch, map[branch := base], None, next.value, [operation],
                                   if change.Attach? then Some(change.content) else None)));
    }

    /** The read and the run of an edit batch on a branch, up to a write that is ready to commit: the writers'
        step, unless the run passes a limit on the way. New ids are in no stored document. */
    method PrepareBatch(project: ProjectId, branch: string, expected: Option<Rev>, batch: Batch) returns (r: Result<Captured, StoreError>)
      requires Valid() && forall x :: x in revisions ==> Supplied(revisions[x].modules, batch)
      ensures r == Begin(Tables(), Apply(project, branch, expected, batch)) || PassedLimit(r)
      ensures r.Ok? ==> CapturedOk(Tables(), r.value)
      ensures r.Ok? ==> r.value.ReadyBatch? && r.value.base in revisions && CarriedOut(revisions[r.value.base].modules, batch, r.value.modules)
    {
      hide Inv;
      hide AllValid;
      hide Edited;
      hide Supplied;
      hide CapturedOk;
      hide CarriedOut;
      var b := StoreSpec.Branch(project, branch);
      if b !in branches {
        return Err(BranchMissing);
      }
      var base := branches[b];
      if expected.Some? && expected.value != base {
        return Err(StaleHead);
      }
      HeadStored(Tables(), project, branch);
      ModulesValid(Tables(), base);
      var edited := EditState(revisions[base].modules, batch);
      if edited.Err? {
        return Err(edited.error);
      }
      BeginOk(Tables(), Apply(project, branch, expected, batch));
      return Ok(ReadyBatch(project, branch, base, edited.value.0, edited.value.1));
    }

    /** The same on a candidate. */
    method PrepareEdit(candidate: CandidateId, expected: Option<Rev>, batch: Batch) returns (r: Result<Captured, StoreError>)
      requires Valid() && forall x :: x in revisions ==> Supplied(revisions[x].modules, batch)
      ensures r == Begin(Tables(), StoreRuns.Edit(candidate, expected, batch)) || PassedLimit(r)
      ensures r.Ok? ==> CapturedOk(Tables(), r.value)
      ensures r.Ok? ==> r.value.ReadyEdit? && r.value.head in revisions && CarriedOut(revisions[r.value.head].modules, batch, r.value.modules)
    {
      hide Inv;
      hide AllValid;
      hide Edited;
      hide Supplied;
      hide CapturedOk;
      hide CarriedOut;
      if candidate !in candidates {
        return Err(CandidateMissing);
      }
      if !candidates[candidate].status.Open? {
        return Err(CandidateConflict);
      }
      var head := candidates[candidate].head;
      if expected.Some? && expected.value != head {
        return Err(StaleRevision);
      }
      CandidateIs(Tables(), candidate);
      ModulesValid(Tables(), head);
      var edited := EditState(revisions[head].modules, batch);
      if edited.Err? {
        return Err(edited.error);
      }
      BeginOk(Tables(), StoreRuns.Edit(candidate, expected, batch));
      return Ok(ReadyEdit(candidate, head, edited.value.0, edited.value.1));
    }

    /** The one best common ancestor of two stored revisions. */
    method SingleBase(ours: Rev, theirs: Rev) returns (r: Result<Rev, MergeFailure>)
      requires Valid() && ours in revisions && theirs in revisions
      ensures r.Ok? ==> HistoryFits(revisions, ours, theirs) && BestOf(revisions, ours, theirs) == {r.value} && r.value in revisions
      ensures r.Err? ==> MergeFails(revisions, ours, theirs, r.error)
    {
      hide Inv;
      hide ParentsKnown;
      hide Cyclic;
      hide Lineage;
      hide Within;
      InvParts(Tables());
      HistoryParts(revisions);
      var analysis := AnalyzeCommonAncestors(SourceOf(revisions), ours, theirs, MAX_REVISION_DAG_NODES, MAX_REVISION_DAG_EDGES);
      AnalysisIs(revisions, ours, theirs, analysis);
      if analysis.Err? {
        return Err(if analysis.error == NoCommonAncestor then Unrelated else HistoryLimits);
      }
      var single := RequireSingleBest(analysis.value);
      if single.Err? {
        return Err(SeveralBases(single.error));
      }
      return Ok(single.value);
    }

    /** The merge of two stored revisions over their best common ancestor, or the reason why there is none. */
    method MergeRevisions(ours: Rev, theirs: Rev) returns (r: Result<(Rev, Snapshot), MergeFailure>)
      requires Valid() && ours in revisions && theirs in revisions
      ensures r.Ok? ==> HistoryFits(revisions, ours, theirs) && MergeRight(revisions, ours, theirs, r.value.0, r.value.1)
      ensures r.Err? ==> MergeFails(revisions, ours, theirs, r.error)
    {
      hide Inv;
      hide HistoryFits;
      hide MergedModules;
      hide ConflictsOf;
      hide InvalidAt;
      var single := SingleBase(ours, theirs);
      if single.Err? {
        return Err(single.error);
      }
      var base := single.value;
      var merged := MergeDocuments(revisions[base].modules, revisions[ours].modules, revisions[theirs].modules);
      if merged.Err? {
        return Err(merged.error);
      }
      return Ok((base, merged.value));
    }

    /** The second read of a merge, from the captured head of its target to a write that is ready to commit.
        It succeeds exactly when the writers' next step can and the history is within the limits, and gives
        the one write that this step allows. */
    method PrepareMerge(project: ProjectId, target: string, targetHead: Rev, source: string, expectedSource: Option<Rev>)
      returns (r: Result<Commit, MergeFailure>)
      requires Valid() && InProject(Tables(), project, targetHead)
      ensures var half := HalfMerge(project, target, targetHead, source, expectedSource);
        && (r.Ok? ==> MayAdvance(Tables(), half) && OnlyAdvance(Tables(), half, ReadyCommit(r.value)))
        && (r.Err? && r.error != HistoryLimits ==> !MayAdvance(Tables(), half))
      ensures var head := BranchHead(Tables(), project, source);
        if head.Err? then r == Err(NoSource)
        else if expectedSource.Some? && expectedSource.value != head.value then r == Err(SourceMoved)
        else if r.Err? then MergeFails(revisions, targetHead, head.value, r.error)
        else HistoryFits(revisions, targetHead, head.value)
    {
      var b := StoreSpec.Branch(project, source);
      if b !in branches {
        return Err(NoSource);
      }
      var sourceHead := branches[b];
      if expectedSource.Some? && expectedSource.value != sourceHead {
        return Err(SourceMoved);
      }
      HeadStored(Tables(), project, source);
      var merged := MergeRevisions(targetHead, sourceHead);
      if merged.Err? {
        if merged.error != HistoryLimits {
          MergeStops(Tables(), HalfMerge(project, target, targetHead, source, expectedSource), sourceHead, merged.error);
        }
        return Err(merged.error);
      }
      var (base, modules) := merged.value;
      MergeAdvances(Tables(), HalfMerge(project, target, targetHead, source, expectedSource), sourceHead, base, modules);
      return Ok(MergeCommit(project, target, targetHead, source, sourceHead, modules));
    }
  }

  predicate Newer(a: Qualification, p: QualificationId, b: Qualification, q: QualificationId) {
    a.createdAt > b.createdAt || (a.createdAt == b.createdAt && p > q)
  }

  /** The newest qualification passes at the level, for another revision. */
  ghost predicate PassElsewhere(db: Db, candidate: CandidateId, head: Rev, level: Level) {
    exists q :: Latest(db, candidate, q) && db.qualifications[q].outcome.Passed? && db.qualifications[q].level == level
      && db.qualifications[q].revision != head
  }

  lemma LatestIsOne(db: Db, candidate: CandidateId, q: QualificationId)
    requires Latest(db, candidate, q)
    ensures forall p :: Latest(db, candidate, p) ==> p == q
  {
  }

  // Below the base's place on the chain, the chain goes on.
  lemma NextOnChain(revs: Revisions, r: Rev, n: nat, k: nat, base: Rev)
    requires ParentsKnown(revs) && r in revs && Forebear(revs, r, n) == Some(base) && k <= n && Forebear(revs, r, k).Some?
    requires Forebear(revs, r, k) != Some(base)
    ensures k < n && Forebear(revs, r, k).value in revs && revs[Forebear(revs, r, k).value].parent1.Some?
  {
    ForebearAdd(revs, r, k, Forebear(revs, r, k).value, n - k);
    ForebearKnown(revs, r, k);
  }

  lemma HistoryOnce(revs: Revisions, r: Rev, h: seq<Rev>)
    requires !Cyclic(Ancestry(revs)) && Lists(revs, r, h)
    ensures forall i, j :: 0 <= i < j < |h| ==> h[i] != h[j]
  {
    forall i, j | 0 <= i < j < |h| ensures h[i] != h[j] {
      ForebearOnce(revs, r, i, j);
    }
  }

  ghost predicate PageOfHistory(revs: Revisions, head: Rev, limit: int, page: HistoryPage) {
    && |page.revisions| <= limit && Lists(revs, head, page.revisions)
    && page.next == Forebear(revs, head, |page.revisions|)
    && (page.next.Some? ==> |page.revisions| == limit)
    && (forall i, j :: 0 <= i < j < |page.revisions| ==> page.revisions[i] != page.revisions[j])
  }

  /** The members of a set, in some order. */
  method ListOf(s: set<string>) returns (names: seq<string>)
    ensures forall i, j :: 0 <= i < j < |names| ==> names[i] != names[j]
    ensures forall n :: n in names <==> n in s
  {
    names := [];
    var left := s;
    while left != {}
      invariant left <= s && forall n :: n in names <==> n in s && n !in left
      invariant forall i, j :: 0 <= i < j < |names| ==> names[i] != names[j]
    {
      var n :| n in left;
      names := names + [n];
      left := left - {n};
    }
  }

  /** Every document of a state is valid. */
  method ValidateState(state: Snapshot) returns (ok: bool)
    ensures ok <==> AllValid(state)
  {
    hide ValidTree;
    var left := state.Keys;
    while left != {}
      invariant left <= state.Keys && forall n :: n in state && n !in left ==> ValidTree(state[n])
    {
      var n :| n in left;
      var valid := ValidateTree(state[n]);
      if !valid {
        return false;
      }
      left := left - {n};
    }
    return true;
  }

  /** The valid merge of every document, or the conflicts, or a merged document that is not valid. */
  method MergeDocuments(base: Snapshot, ours: Snapshot, theirs: Snapshot) returns (r: Result<Snapshot, MergeFailure>)
    ensures match r
      case Ok(merged) => MergedModules(base, ours, theirs, merged)
      case Err(Conflicts(conflicts)) => ConflictsOf(base, ours, theirs, conflicts)
      case Err(e) => e == InvalidDocument && exists name :: InvalidAt(base, ours, theirs, name)
  {
    hide AllConflicts;
    hide DocumentMerge;
    hide AllValid;
    hide Settled;
    hide InvalidAt;
    hide MergedModules;
    var names := ListOf(base.Keys + ours.Keys + theirs.Keys);
    var merged := MergeStates(base, ours, theirs, names);
    if merged.Err? {
      return Err(Conflicts(merged.error));
    }
    var valid := ValidateState(merged.value.documents);
    if !valid {
      MergedInvalid(base, ours, theirs, merged.value);
      return Err(InvalidDocument);
    }
    MergedIs(base, ours, theirs, merged.value);
    return Ok(merged.value.documents);
  }

  // ----- the documents of a write

  /** New ids are well formed, never repeat, and are neither in the document nor asked for by the edits. */
  ghost predicate Supplied(state: Snapshot, batch: Batch) {
    && GoodSupply(batch.newId) && (forall i :: 0 <= i < |batch.edits| ==> BatchSpec.NoClash(batch.edits[i], batch.newId))
    && (batch.document in state ==> BatchSpec.Unused(batch.newId, 0, IdSet(state[batch.document])))
  }

  predicate PassedLimit<T>(r: Result<T, StoreError>) {
    r.Err? && r.error.EditFailed? && (r.error.error.TooDeep? || r.error.error.TooLarge?)
  }

  method ChangeState(state: Snapshot, change: Change) returns (r: Result<Snapshot, StoreError>)
    ensures r == Changed(state, change)
  {
    hide ValidTree;
    hide AllValid;
    match change
    case Create(document, root) =>
      if document in state {
        return Err(DuplicateDocument);
      }
      r := PutDocument(state, document, root);
    case Put(document, root) =>
      r := PutDocument(state, document, root);
    case Mutate(document, root) =>
      if document !in state {
        return Err(NoDocument);
      }
      r := PutDocument(state, document, root);
    case Remove(document) =>
      if document !in state {
        return Err(NoDocument);
      }
      return Ok(state - {document});
    case Restore(modules) =>
      var valid := ValidateState(modules);
      if !valid {
        return Err(InvalidState);
      }
      return Ok(modules);
    case Attach(_) =>
      return Ok(state);
  }

  method PutDocument(state: Snapshot, document: string, root: Tree) returns (r: Result<Snapshot, StoreError>)
    ensures r == if ValidTree(root) then Ok(state[document := root]) else Err(InvalidState)
  {
    hide ValidTree;
    var valid := ValidateTree(root);
    if !valid {
      return Err(InvalidState);
    }
    return Ok(state[document := root]);
  }

  /** The one document of the batch is what its edits, one after the other, make of it; the others are as they
      were. */
  ghost predicate CarriedOut(was: Snapshot, batch: Batch, now: Snapshot) {
    && batch.document in was && batch.document in now && OnlyAt(was, now, batch.document, Some(now[batch.document]))
    && exists d :: BatchLaws.Carries(Documents.StartOf(was[batch.document]), batch.edits, batch.newId, d) && BatchSpec.Shows(d, now[batch.document])
  }

  lemma CarriedBy(was: Snapshot, batch: Batch, root: Tree)
    requires batch.document in was
    requires exists d :: BatchLaws.Carries(Documents.StartOf(was[batch.document]), batch.edits, batch.newId, d) && BatchSpec.Shows(d, root)
    ensures CarriedOut(was, batch, was[batch.document := root])
  {
    hide BatchLaws.Carries;
    hide BatchSpec.Shows;
  }

  /** The executor on one document of a state, and the validation of the whole state. */
  method EditState(state: Snapshot, batch: Batch) returns (r: Result<(Snapshot, seq<Operation>), StoreError>)
    requires AllValid(state) && Supplied(state, batch)
    ensures r == Edited(state, batch) || PassedLimit(r)
    ensures r.Ok? ==> CarriedOut(state, batch, r.value.0)
  {
    if batch.document !in state {
      return Err(NoDocument);
    }
    assert Unique(state[batch.document]);
    hide ValidTree;
    hide Documents.Transformed;
    hide CarriedOut;
    hide BatchLaws.Carries;
    hide BatchSpec.Shows;
    var t := Documents.Transform(state[batch.document], batch.edits, batch.newId);
    if t.Err? {
      return Err(EditFailed(t.error));
    }
    var next := state[batch.document := t.value.root];
    CarriedBy(state, batch, t.value.root);
    var valid := ValidateState(next);
    if !valid {
      return Err(InvalidState);
    }
    return Ok((next, Logged(t.value.log)));
  }
}
