/** Writers that read, compute and commit, in any interleaving: what holds in every run. */
module StoreRuns {
  import opened Prelude
  import opened Trees
  import opened Validity
  import opened Graphs
  import opened RevisionDag
  import opened Mergers
  import opened Revisions
  import opened StoreSpec
  import BatchSpec
  import Documents

  // ----- requests and what a writer has captured

  /** What a direct write does to the documents it has read: a new one, one put in any case, an edited one, one
      taken out, the state that a revert restores, or none of them and a content document attached. */
  datatype Change =
    | Create(document: string, root: Tree)
    | Put(document: string, root: Tree)
    | Mutate(document: string, root: Tree)
    | Remove(document: string)
    | Restore(modules: Snapshot)
    | Attach(content: Content)

  // A batch of edits of one document, with the ids that its run would hand out.
  datatype Batch = Batch(document: string, edits: seq<BatchSpec.Request>, newId: Supply)

  datatype Request =
    | Initialize(project: ProjectId)
    | Write(project: ProjectId, branch: string, expected: Option<Rev>, change: Change, operation: Operation)
    | Apply(project: ProjectId, branch: string, expected: Option<Rev>, batch: Batch)
    | Merge(project: ProjectId, target: string, source: string, expectedTarget: Option<Rev>, expectedSource: Option<Rev>)
    | NewBranch(project: ProjectId, name: string, from: string, expected: Option<Rev>)
    | BranchAt(project: ProjectId, name: string, revision: Rev)
    | OpenCandidate(project: ProjectId, name: string, branch: string, base: Option<Rev>)
    | Edit(candidate: CandidateId, expected: Option<Rev>, batch: Batch)
    | Qualify(candidate: CandidateId, level: Level, expected: Option<Rev>, compiler: CompilerVerdict)
    | Publish(candidate: CandidateId, branch: string, required: Option<Level>, expected: Option<Rev>, base: Option<Rev>)
    | Abandon(candidate: CandidateId)
    | Revert(candidate: CandidateId)

  datatype CompilerVerdict = CompilerMissing | Verdict(valid: bool)

  /** What a writer has read so far; all but the first two are ready to commit. */
  datatype Captured =
    | HalfMerge(project: ProjectId, target: string, targetHead: Rev, source: string, expectedSource: Option<Rev>)
    | UncheckedPublish(candidate: CandidateId, project: ProjectId, head: Rev, base: Rev, branch: string, required: Option<Level>)
    | ReadyInitialize(project: ProjectId)
    | ReadyCommit(commit: Commit)
    | ReadyBatch(project: ProjectId, branch: string, base: Rev, modules: Snapshot, operations: seq<Operation>)
    | ReadyBranch(project: ProjectId, name: string, from: Option<string>, head: Rev)
    | ReadyOpen(project: ProjectId, name: string, base: Rev)
    | ReadyEdit(candidate: CandidateId, head: Rev, modules: Snapshot, operations: seq<Operation>)
    | ReadyQualify(candidate: CandidateId, head: Rev, level: Level, outcome: Outcome)
    | ReadyPublish(candidate: CandidateId, project: ProjectId, head: Rev, base: Rev, branch: string, required: Option<Level>)
    | ReadyAbandon(candidate: CandidateId)
    | ReadyRevert(candidate: CandidateId, head: Rev, parent: Rev)

  function BranchHead(db: Db, project: ProjectId, branch: string): Result<Rev, StoreError> {
    var b := StoreSpec.Branch(project, branch);
    if b in db.branches then Ok(db.branches[b]) else Err(BranchMissing)
  }

  function ExpectedHead(actual: Rev, expected: Option<Rev>): Result<Rev, StoreError> {
    if expected.Some? && expected.value != actual then Err(StaleHead) else Ok(actual)
  }

  function RequireOpen(db: Db, id: CandidateId): Result<Candidate, StoreError> {
    if id !in db.candidates then Err(CandidateMissing)
    else if !db.candidates[id].status.Open? then Err(CandidateConflict)
    else Ok(db.candidates[id])
  }

  /** The outcome of a qualification run over a snapshot. Without documents the compiler is not asked. */
  ghost function Judge(modules: Snapshot, level: Level, compiler: CompilerVerdict): Outcome {
    var verdict := if modules == map[] then Verdict(true) else compiler;
    if level.Syntactic? then (if AllValid(modules) then Passed else Failed)
    else if verdict.CompilerMissing? then Unavailable
    else if !verdict.valid || !AllValid(modules) then Failed
    else Passed
  }

  function Modules(db: Db, r: Rev): Result<Snapshot, StoreError> {
    if r in db.revisions then Ok(db.revisions[r].modules) else Err(RevisionMissing)
  }

  /** The state that a direct write commits; a document that is put in is validated, a restored state as a
      whole. */
  ghost function Changed(state: Snapshot, change: Change): Result<Snapshot, StoreError> {
    match change
    case Create(document, root) =>
      if document in state then Err(DuplicateDocument) else if !ValidTree(root) then Err(InvalidState) else Ok(state[document := root])
    case Put(document, root) =>
      if !ValidTree(root) then Err(InvalidState) else Ok(state[document := root])
    case Mutate(document, root) =>
      if document !in state then Err(NoDocument) else if !ValidTree(root) then Err(InvalidState) else Ok(state[document := root])
    case Remove(document) =>
      if document !in state then Err(NoDocument) else Ok(state - {document})
    case Restore(modules) =>
      if !AllValid(modules) then Err(InvalidState) else Ok(modules)
    case Attach(_) => Ok(state)
  }

  /** The state that a batch commits, and its operations. The whole state is validated. */
  ghost function Edited(state: Snapshot, batch: Batch): Result<(Snapshot, seq<Operation>), StoreError> {
    if batch.document !in state then Err(NoDocument)
    else
      match Documents.Transformed(state[batch.document], batch.edits, batch.newId)
      case Err(e) => Err(EditFailed(e))
      case Ok(t) =>
        var next := state[batch.document := t.root];
        if AllValid(next) then Ok((next, Logged(t.log))) else Err(InvalidState)
  }

  function Logged(log: seq<(string, NodeId)>): seq<Operation> {
    seq(|log|, i requires 0 <= i < |log| => Operation(log[i].0, Some(log[i].1)))
  }

  /** The first read of a request. */
  ghost function Begin(db: Db, request: Request): Result<Captured, StoreError> {
    match request
    case Initialize(project) => Ok(ReadyInitialize(project))
    case Write(project, branch, expected, change, operation) =>
      var head :- BranchHead(db, project, branch);
      var base :- ExpectedHead(head, expected);
      var state :- Modules(db, base);
      var next :- Changed(state, change);
      Ok(ReadyCommit(Commit(project, branch, map[branch := base], None, next, [operation], if change.Attach? then Some(change.content) else None)))
    case Apply(project, branch, expected, batch) =>
      var head :- BranchHead(db, project, branch);
      var base :- ExpectedHead(head, expected);
      var state :- Modules(db, base);
      var next :- Edited(state, batch);
      Ok(ReadyBatch(project, branch, base, next.0, next.1))
    case Merge(project, target, source, expectedTarget, expectedSource) =>
      var head :- BranchHead(db, project, target);
      var base :- ExpectedHead(head, expectedTarget);
      Ok(HalfMerge(project, target, base, source, expectedSource))
    case NewBranch(project, name, from, expected) =>
      var head :- BranchHead(db, project, from);
      var base :- ExpectedHead(head, expected);
      Ok(ReadyBranch(project, name, Some(from), base))
    case BranchAt(project, name, revision) =>
      if InProject(db, project, revision) then Ok(ReadyBranch(project, name, None, revision)) else Err(RevisionMissing)
    case OpenCandidate(project, name, branch, base) =>
      if !CandidateName(name) then Err(InvalidName)
      else
        var head :- BranchHead(db, project, branch);
        var start := if base.Some? then base.value else head;
        if InProject(db, project, start) then Ok(ReadyOpen(project, name, start)) else Err(RevisionMissing)
    case Edit(candidate, expected, batch) =>
      var c :- RequireOpen(db, candidate);
      if expected.Some? && expected.value != c.head then Err(StaleRevision)
      else
        var state :- Modules(db, c.head);
        var next :- Edited(state, batch);
        Ok(ReadyEdit(candidate, c.head, next.0, next.1))
    case Qualify(candidate, level, expected, compiler) =>
      var c :- RequireOpen(db, candidate);
      if expected.Some? && expected.value != c.head then Err(StaleRevision)
      else
        var state :- Modules(db, c.head);
        Ok(ReadyQualify(candidate, c.head, level, Judge(state, level, compiler)))
    case Publish(candidate, branch, level, expected, base) =>
      var c :- RequireOpen(db, candidate);
      if expected.Some? && expected.value != c.head then Err(StaleRevision)
      else Ok(UncheckedPublish(candidate, c.project, c.head, if NamesBase(base) then base.value else c.base, branch, level))
    case Abandon(candidate) =>
      var c :- RequireOpen(db, candidate);
      Ok(ReadyAbandon(candidate))
    case Revert(candidate) =>
      var c :- RequireOpen(db, candidate);
      if c.head == c.base then Err(NothingToRevert)
      else if c.head !in db.revisions then Err(RevisionMissing)
      else if db.revisions[c.head].parent1.None? then Err(NothingToRevert)
      else Ok(ReadyRevert(candidate, c.head, db.revisions[c.head].parent1.value))
  }

  /** A publication may expect its branch at another revision than the candidate's base. */
  predicate NamesBase(base: Option<Rev>) {
    base.Some? && base.value != ""
  }

  /** A letter, then up to 63 letters, digits, underscores or hyphens. The pattern's end anchor also
      accepts one final newline. */
  predicate CandidateName(name: string) {
    NamePattern(if name != "" && name[|name| - 1] == '\n' then name[..|name| - 1] else name)
  }

  predicate NamePattern(core: string) {
    && 1 <= |core| <= 64 && ('A' <= core[0] <= 'Z' || 'a' <= core[0] <= 'z')
    && forall i :: 1 <= i < |core| ==> IdChar(core[i])
  }

  /** The newest qualification by time, then by id. */
  ghost predicate Latest(db: Db, candidate: CandidateId, q: QualificationId) {
    && q in db.qualifications && db.qualifications[q].candidate == candidate
    && forall p :: p in db.qualifications && db.qualifications[p].candidate == candidate ==>
      db.qualifications[p].createdAt < db.qualifications[q].createdAt ||
      (db.qualifications[p].createdAt == db.qualifications[q].createdAt && p <= q)
  }

  /** The check of a required level against the newest qualification. */
  ghost predicate Qualified(db: Db, candidate: CandidateId, head: Rev, level: Level) {
    exists q :: Latest(db, candidate, q) && IsPass(db.qualifications[q], candidate, head, level)
  }

  predicate IsPass(q: Qualification, candidate: CandidateId, head: Rev, level: Level) {
    q.candidate == candidate && q.outcome.Passed? && q.level == level && q.revision == head
  }

  /** Identities and the time that a step may take from outside, and the outcome of a merge. */
  datatype Supplies = Supplies(
    revision: Rev,
    document: DocumentId,
    candidate: CandidateId,
    qualification: QualificationId,
    now: nat,
    mergeBase: Rev,
    merged: Snapshot)

  datatype Progress = Progress(db: Db, captured: Option<Captured>)

  /** A merge is written on top of both heads it has read. */
  function MergeCommit(project: ProjectId, target: string, targetHead: Rev, source: string, sourceHead: Rev, merged: Snapshot): Commit {
    Commit(project, target, map[target := targetHead][source := sourceHead], Some(sourceHead), merged, [Operation("merge", Some(target))], None)
  }

  /** The next read of a writer, or its commit. */
  ghost function Advance(db: Db, captured: Captured, s: Supplies): Result<Progress, StoreError> {
    match captured
    case HalfMerge(project, target, targetHead, source, expectedSource) =>
      var head :- BranchHead(db, project, source);
      var sourceHead :- ExpectedHead(head, expectedSource);
      if MergeRight(db.revisions, targetHead, sourceHead, s.mergeBase, s.merged) then
        Ok(Progress(db, Some(ReadyCommit(MergeCommit(project, target, targetHead, source, sourceHead, s.merged)))))
      else Err(MergeFailed)
    case UncheckedPublish(candidate, project, head, base, branch, level) =>
      if level.None? || Qualified(db, candidate, head, level.value) then
        Ok(Progress(db, Some(ReadyPublish(candidate, project, head, base, branch, level))))
      else Err(QualificationFailure)
    case _ =>
      var next :- Finish(db, captured, s);
      Ok(Progress(next, None))
  }

  function Finish(db: Db, captured: Captured, s: Supplies): Result<Db, StoreError>
    requires !captured.HalfMerge? && !captured.UncheckedPublish?
  {
    match captured
    case ReadyInitialize(project) => InitializeTx(db, project, s.revision)
    case ReadyCommit(commit) =>
      if commit.branch in commit.heads then CommitTx(db, commit, s.revision, s.document) else Err(StaleHead)
    case ReadyBatch(project, branch, base, modules, operations) => BatchTx(db, project, branch, base, modules, operations, s.revision)
    case ReadyBranch(project, name, from, head) => BranchTx(db, project, name, from, head)
    case ReadyOpen(project, name, base) => OpenTx(db, s.candidate, project, name, base)
    case ReadyEdit(candidate, head, modules, operations) => EditTx(db, candidate, head, modules, operations, s.revision)
    case ReadyQualify(candidate, head, level, outcome) => QualifyTx(db, candidate, head, level, outcome, s.qualification, s.now)
    case ReadyPublish(candidate, project, head, base, branch, _) => PublishTx(db, candidate, project, branch, head, base)
    case ReadyAbandon(candidate) => AbandonTx(db, candidate)
    case ReadyRevert(candidate, head, parent) => RevertTx(db, candidate, head, parent)
  }

  // ----- the system

  type WriterId = nat

  datatype System = System(db: Db, writers: map<WriterId, Captured>)

  datatype Action = Start(writer: WriterId, request: Request) | Continue(writer: WriterId, supplies: Supplies)

  /** One step of one writer. A failed step ends the writer and changes nothing in the store. */
  ghost function Step(s: System, a: Action): System {
    match a
    case Start(w, request) =>
      var r := Begin(s.db, request);
      if r.Ok? then s.(writers := s.writers[w := r.value]) else s.(writers := s.writers - {w})
    case Continue(w, supplies) =>
      if w !in s.writers then s
      else
        var r := Advance(s.db, s.writers[w], supplies);
        if r.Err? then s.(writers := s.writers - {w})
        else System(r.value.db, if r.value.captured.Some? then s.writers[w := r.value.captured.value] else s.writers - {w})
  }

  /** Any sequence of steps of any writers. */
  ghost function Run(s: System, actions: seq<Action>): System {
    if actions == [] then s else Step(Run(s, actions[..|actions| - 1]), actions[|actions| - 1])
  }

  // ----- what a captured value still means later

  ghost predicate PassRecorded(db: Db, candidate: CandidateId, head: Rev, level: Level) {
    exists q :: q in db.qualifications && IsPass(db.qualifications[q], candidate, head, level)
  }

  ghost predicate CapturedOk(db: Db, c: Captured) {
    match c
    case HalfMerge(project, _, targetHead, _, _) => InProject(db, project, targetHead)
    case ReadyCommit(commit) => CommitOk(db, commit)
    case ReadyBatch(_, _, _, modules, _) => AllValid(modules)
    case ReadyEdit(_, _, modules, _) => AllValid(modules)
    case ReadyOpen(project, _, base) => InProject(db, project, base)
    case ReadyQualify(_, head, _, outcome) => outcome.Passed? ==> head in db.revisions && AllValid(db.revisions[head].modules)
    case ReadyPublish(candidate, _, head, _, _, level) => level.Some? ==> PassRecorded(db, candidate, head, level.value)
    case ReadyRevert(candidate, head, parent) =>
      candidate in db.candidates && head != db.candidates[candidate].base && head in db.revisions && db.revisions[head].parent1 == Some(parent)
    case _ => true
  }

  /** A publication expects its branch at a revision on the candidate's chain. */
  ghost predicate Grounded(db: Db, c: Captured) {
    match c
    case UncheckedPublish(_, _, head, base, _, _) => OnChain(db.revisions, head, base)
    case ReadyPublish(_, _, head, base, _, _) => OnChain(db.revisions, head, base)
    case _ => true
  }

  /** Whatever other writers do, what was captured stays true. */
  lemma CapturedKept(a: Db, b: Db, c: Captured)
    requires ParentsKnown(a.revisions) && Grows(a, b) && CapturedOk(a, c)
    ensures CapturedOk(b, c)
  {
    hide MergeRight;
    hide OnChain;
    hide AllValid;
    match c
    case ReadyCommit(commit) =>
      if commit.parent2.Some? && commit.parent2 != Some(commit.heads[commit.branch]) {
        var base :| MergeRight(a.revisions, commit.heads[commit.branch], commit.parent2.value, base, commit.modules);
        MergeRightKept(a.revisions, b.revisions, commit.heads[commit.branch], commit.parent2.value, base, commit.modules);
      }
    case ReadyPublish(candidate, _, head, _, _, level) =>
      if level.Some? {
        var q :| q in a.qualifications && IsPass(a.qualifications[q], candidate, head, level.value);
        assert IsPass(b.qualifications[q], candidate, head, level.value);
      }
    case _ =>
  }

  ghost predicate SystemInv(s: System) {
    Inv(s.db) && forall w :: w in s.writers ==> CapturedOk(s.db, s.writers[w])
  }

  lemma BeginOk(db: Db, request: Request)
    requires Inv(db) && Begin(db, request).Ok?
    ensures CapturedOk(db, Begin(db, request).value)
  {
    hide Inv;
    hide AllValid;
    hide MergeRight;
    hide CandidateName;
    hide Changed;
    hide Edited;
    match request
    case Merge(project, target, _, _, _) => HeadStored(db, project, target);
    case Write(project, branch, _, change, _) =>
      var state := db.revisions[db.branches[StoreSpec.Branch(project, branch)]].modules;
      ModulesValid(db, db.branches[StoreSpec.Branch(project, branch)]);
      ChangedValid(state, change);
    case Apply(project, branch, _, batch) =>
      EditedValid(db.revisions[db.branches[StoreSpec.Branch(project, branch)]].modules, batch);
    case Edit(candidate, _, batch) =>
      EditedValid(db.revisions[db.candidates[candidate].head].modules, batch);
    case _ =>
  }

  lemma ModulesValid(db: Db, r: Rev)
    requires Inv(db) && r in db.revisions
    ensures AllValid(db.revisions[r].modules)
  {
    InvParts(db);
    HistoryParts(db.revisions);
  }

  lemma ChangedValid(state: Snapshot, change: Change)
    requires AllValid(state) && Changed(state, change).Ok?
    ensures AllValid(Changed(state, change).value)
  {
    hide ValidTree;
  }

  lemma EditedValid(state: Snapshot, batch: Batch)
    requires Edited(state, batch).Ok?
    ensures AllValid(Edited(state, batch).value.0)
  {
    hide AllValid;
  }

  lemma HeadStored(db: Db, project: ProjectId, branch: string)
    requires Inv(db) && BranchHead(db, project, branch).Ok?
    ensures InProject(db, project, BranchHead(db, project, branch).value)
  {
    hide HistoryOk;
    hide CandidatesOk;
    hide QualificationsOk;
    hide DocumentsOk;
  }

  lemma FinishOk(db: Db, c: Captured, s: Supplies)
    requires Inv(db) && CapturedOk(db, c) && !c.HalfMerge? && !c.UncheckedPublish? && Finish(db, c, s).Ok?
    ensures Inv(Finish(db, c, s).value) && Grows(db, Finish(db, c, s).value)
    ensures Grounded(db, c) ==> Evolves(db, Finish(db, c, s).value)
  {
    hide Inv;
    hide Grows;
    hide OnChain;
    hide InitializeTx;
    hide CommitTx;
    hide BatchTx;
    hide BranchTx;
    hide OpenTx;
    hide EditTx;
    hide QualifyTx;
    hide AllValid;
    hide CommitOk;
    match c
    case ReadyInitialize(project) => InitializeKeeps(db, project, s.revision);
    case ReadyCommit(commit) => CommitKeeps(db, commit, s.revision, s.document);
    case ReadyBatch(project, branch, base, modules, operations) => BatchKeeps(db, project, branch, base, modules, operations, s.revision);
    case ReadyBranch(project, name, from, head) => BranchKeeps(db, project, name, from, head);
    case ReadyOpen(project, name, base) => OpenKeeps(db, s.candidate, project, name, base);
    case ReadyEdit(candidate, head, modules, operations) => EditKeeps(db, candidate, head, modules, operations, s.revision);
    case ReadyQualify(candidate, head, level, outcome) => QualifyKeeps(db, candidate, head, level, outcome, s.qualification, s.now);
    case ReadyPublish(candidate, project, head, base, branch, _) => PublishKeeps(db, candidate, project, branch, head, base);
    case ReadyAbandon(candidate) => AbandonKeeps(db, candidate);
    case ReadyRevert(candidate, head, parent) => RevertKeeps(db, candidate, head, parent);
  }

  lemma AdvanceOk(db: Db, c: Captured, s: Supplies)
    requires Inv(db) && CapturedOk(db, c) && Advance(db, c, s).Ok?
    ensures var p := Advance(db, c, s).value;
      && Inv(p.db) && Grows(db, p.db) && (p.captured.Some? ==> p.db == db && CapturedOk(db, p.captured.value))
      && (Grounded(db, c) ==> Evolves(db, p.db) && (p.captured.Some? ==> Grounded(db, p.captured.value)))
  {
    hide Inv;
    hide Grows;
    hide OnChain;
    hide Finish;
    hide MergeRight;
    hide AllValid;
    hide Latest;
    EvolvesRefl(db);
    match c
    case HalfMerge(_, _, targetHead, _, _) => MergeValid(db.revisions, targetHead, s);
    case UncheckedPublish(candidate, _, head, _, _, required) =>
      if required.Some? {
        QualifiedIsRecorded(db, candidate, head, required.value);
      }
    case _ => FinishOk(db, c, s);
  }

  lemma MergeValid(revs: Revisions, ours: Rev, s: Supplies)
    ensures forall theirs :: MergeRight(revs, ours, theirs, s.mergeBase, s.merged) ==> AllValid(s.merged)
  {
    hide DocumentMerge;
    hide ValidTree;
  }

  lemma QualifiedIsRecorded(db: Db, candidate: CandidateId, head: Rev, level: Level)
    requires Qualified(db, candidate, head, level)
    ensures PassRecorded(db, candidate, head, level)
  {
  }

  /** Every step of every writer keeps the invariants, and no row is lost or rewritten. */
  lemma StepKeeps(s: System, a: Action)
    requires SystemInv(s)
    ensures SystemInv(Step(s, a)) && Grows(s.db, Step(s, a).db)
  {
    hide Grows;
    hide Begin;
    hide Advance;
    hide CapturedOk;
    hide Inv;
    EvolvesRefl(s.db);
    match a
    case Start(w, request) =>
      if Begin(s.db, request).Ok? {
        BeginOk(s.db, request);
      }
    case Continue(w, supplies) =>
      if w in s.writers && Advance(s.db, s.writers[w], supplies).Ok? {
        AdvanceOk(s.db, s.writers[w], supplies);
        OthersKept(s, Advance(s.db, s.writers[w], supplies).value.db);
      }
  }

  lemma OthersKept(s: System, next: Db)
    requires SystemInv(s) && Grows(s.db, next)
    ensures forall w :: w in s.writers ==> CapturedOk(next, s.writers[w])
    ensures forall w :: w in s.writers && Grounded(s.db, s.writers[w]) ==> Grounded(next, s.writers[w])
  {
    hide CapturedOk;
    InvParts(s.db);
    HistoryParts(s.db.revisions);
    forall w | w in s.writers
      ensures CapturedOk(next, s.writers[w]) && (Grounded(s.db, s.writers[w]) ==> Grounded(next, s.writers[w]))
    {
      CapturedKept(s.db, next, s.writers[w]);
      if Grounded(s.db, s.writers[w]) {
        GroundedKept(s.db, next, s.writers[w]);
      }
    }
  }

  lemma GroundedKept(a: Db, b: Db, c: Captured)
    requires Kept(a.revisions, b.revisions) && Grounded(a, c)
    ensures Grounded(b, c)
  {
    hide OnChain;
    match c
    case UncheckedPublish(_, _, head, base, _, _) => ChainKept(a.revisions, b.revisions, head, base);
    case ReadyPublish(_, _, head, base, _, _) => ChainKept(a.revisions, b.revisions, head, base);
    case _ =>
  }

  /** In every run, whatever the interleaving: ancestry stays acyclic and closed, merges are right, stored
      rows never change, candidates stay on their bases, and published and abandoned are final. */
  lemma {:induction false} RunKeeps(s: System, actions: seq<Action>)
    requires SystemInv(s)
    ensures SystemInv(Run(s, actions)) && Grows(s.db, Run(s, actions).db)
    decreases |actions|
  {
    hide Grows;
    hide Step;
    hide SystemInv;
    if actions == [] {
      EvolvesRefl(s.db);
    } else {
      var before := Run(s, actions[..|actions| - 1]);
      RunKeeps(s, actions[..|actions| - 1]);
      StepKeeps(before, actions[|actions| - 1]);
      GrowsTrans(s.db, before.db, Step(before, actions[|actions| - 1]).db);
    }
  }

  // ----- runs that only move branches forward

  ghost predicate AllGrounded(s: System) {
    forall w :: w in s.writers ==> Grounded(s.db, s.writers[w])
  }

  ghost predicate StartsGrounded(s: System, a: Action) {
    a.Start? && Begin(s.db, a.request).Ok? ==> Grounded(s.db, Begin(s.db, a.request).value)
  }

  /** Every publication of the run expects its branch on the candidate's chain when it starts. */
  ghost predicate RunsGrounded(s: System, actions: seq<Action>) {
    actions != [] ==>
      RunsGrounded(s, actions[..|actions| - 1]) && StartsGrounded(Run(s, actions[..|actions| - 1]), actions[|actions| - 1])
  }

  lemma StepForward(s: System, a: Action)
    requires SystemInv(s) && AllGrounded(s) && StartsGrounded(s, a)
    ensures AllGrounded(Step(s, a)) && Evolves(s.db, Step(s, a).db)
  {
    hide Grounded;
    hide Begin;
    hide Advance;
    hide CapturedOk;
    hide Inv;
    EvolvesRefl(s.db);
    match a
    case Start(w, request) =>
    case Continue(w, supplies) =>
      if w in s.writers && Advance(s.db, s.writers[w], supplies).Ok? {
        AdvanceOk(s.db, s.writers[w], supplies);
        OthersKept(s, Advance(s.db, s.writers[w], supplies).value.db);
      }
  }

  /** Then branches only move up along first-parent chains, through the whole run. */
  lemma {:induction false} RunForward(s: System, actions: seq<Action>)
    requires SystemInv(s) && AllGrounded(s) && RunsGrounded(s, actions)
    ensures AllGrounded(Run(s, actions)) && Evolves(s.db, Run(s, actions).db)
    decreases |actions|
  {
    hide Evolves;
    hide Step;
    hide SystemInv;
    hide StartsGrounded;
    hide AllGrounded;
    if actions == [] {
      EvolvesRefl(s.db);
    } else {
      var before := Run(s, actions[..|actions| - 1]);
      RunForward(s, actions[..|actions| - 1]);
      RunKeeps(s, actions[..|actions| - 1]);
      StepForward(before, actions[|actions| - 1]);
      EvolvesTrans(s.db, before.db, Step(before, actions[|actions| - 1]).db);
    }
  }

  predicate NamesNoBase(a: Action) {
    a.Start? && a.request.Publish? ==> !NamesBase(a.request.base)
  }

  /** So do all runs in which no publication names a base of its own. */
  lemma {:induction false} OwnBasesGrounded(s: System, actions: seq<Action>)
    requires SystemInv(s) && forall i :: 0 <= i < |actions| ==> NamesNoBase(actions[i])
    ensures RunsGrounded(s, actions)
    decreases |actions|
  {
    hide Step;
    hide SystemInv;
    hide StartsGrounded;
    if actions != [] {
      var before := Run(s, actions[..|actions| - 1]);
      OwnBasesGrounded(s, actions[..|actions| - 1]);
      RunKeeps(s, actions[..|actions| - 1]);
      OwnBaseGrounded(before, actions[|actions| - 1]);
    }
  }

  lemma OwnBaseGrounded(s: System, a: Action)
    requires SystemInv(s) && NamesNoBase(a)
    ensures StartsGrounded(s, a)
  {
    hide Inv;
    hide OnChain;
    hide CapturedOk;
    if a.Start? && a.request.Publish? && a.request.candidate in s.db.candidates {
      CandidateIs(s.db, a.request.candidate);
    }
  }

  // ----- races

  /** What a writer captured is no longer so. */
  ghost predicate Stale(db: Db, c: Captured) {
    match c
    case ReadyCommit(commit) => !HeadsMatch(db, commit.project, commit.heads)
    case ReadyBatch(project, branch, base, _, _) => BranchHead(db, project, branch) != Ok(base)
    case ReadyBranch(project, _, from, head) => from.Some? && BranchHead(db, project, from.value) != Ok(head)
    case ReadyEdit(candidate, head, _, _) => !StillAt(db, candidate, head)
    case ReadyQualify(candidate, head, _, _) => !StillAt(db, candidate, head)
    case ReadyPublish(candidate, project, head, base, branch, _) =>
      BranchHead(db, project, branch) != Ok(base) || !StillAt(db, candidate, head)
    case ReadyAbandon(candidate) => candidate !in db.candidates || !db.candidates[candidate].status.Open?
    case ReadyRevert(candidate, head, _) => !StillAt(db, candidate, head)
    case _ => false
  }

  /** The branch and the head that a ready write is to move. */
  ghost predicate Writes(c: Captured, b: Branch, base: Rev) {
    match c
    case ReadyCommit(commit) =>
      commit.branch in commit.heads && b == StoreSpec.Branch(commit.project, commit.branch) && base == commit.heads[commit.branch]
    case ReadyBatch(project, branch, head, _, _) => b == StoreSpec.Branch(project, branch) && base == head
    case _ => false
  }

  /** A write that wins moves its branch one first-parent link up from the head it had read. */
  lemma WinnerAdvances(s: System, w: WriterId, supplies: Supplies, b: Branch, base: Rev)
    requires SystemInv(s) && w in s.writers && Writes(s.writers[w], b, base)
    requires Advance(s.db, s.writers[w], supplies).Ok?
    ensures Advanced(s.db, Step(s, Continue(w, supplies)).db, b, base, supplies.revision)
  {
    hide Inv;
    hide Evolves;
    hide CommitTx;
    hide BatchTx;
    hide Advanced;
    hide CommitOk;
    match s.writers[w]
    case ReadyCommit(commit) => CommitKeeps(s.db, commit, supplies.revision, supplies.document);
    case ReadyBatch(project, branch, head, modules, operations) => BatchKeeps(s.db, project, branch, head, modules, operations, supplies.revision);
  }

  /** A branch that has left a head never comes back to it. */
  lemma NeverBack(s: System, first: seq<Action>, second: seq<Action>, b: Branch)
    requires SystemInv(s) && AllGrounded(s) && RunsGrounded(s, first) && RunsGrounded(Run(s, first), second) && b in s.db.branches
    ensures var t := Run(s, first);
      var u := Run(t, second);
      && b in t.db.branches && b in u.db.branches
      && (t.db.branches[b] != s.db.branches[b] ==> u.db.branches[b] != s.db.branches[b])
  {
    hide Run;
    hide Inv;
    hide CapturedOk;
    hide RunsGrounded;
    hide AllGrounded;
    var t := Run(s, first);
    RunKeeps(s, first);
    RunForward(s, first);
    var u := Run(t, second);
    RunKeeps(t, second);
    RunForward(t, second);
    InvParts(u.db);
    HistoryParts(u.db.revisions);
    var revs, h, k := u.db.revisions, s.db.branches[b], t.db.branches[b];
    ChainKept(t.db.revisions, revs, k, h);
    if u.db.branches[b] == h && k != h {
      ChainBothWays(revs, h, k);
      assert false;
    }
  }

  lemma ChainBothWays(revs: Revisions, a: Rev, b: Rev)
    requires !Cyclic(Ancestry(revs)) && OnChain(revs, a, b) && OnChain(revs, b, a)
    ensures a == b
  {
    var m: nat :| Forebear(revs, a, m) == Some(b);
    var n: nat :| Forebear(revs, b, n) == Some(a);
    if m > 0 {
      ForebearReached(revs, a, m);
      ForebearReached(revs, b, n);
      ReachTrans(Ancestry(revs), a, b, a);
      assert false;
    }
  }

  /** A branch and a head that a ready writer has read and compares again when it commits: the written
      branch, a merge's source, the branch that a new one starts from, and a publication's base. */
  ghost predicate Expects(c: Captured, b: Branch, head: Rev) {
    match c
    case ReadyCommit(commit) => b.project == commit.project && b.name in commit.heads && commit.heads[b.name] == head
    case ReadyBatch(project, branch, base, _, _) => b == StoreSpec.Branch(project, branch) && base == head
    case ReadyBranch(project, _, from, h) => from.Some? && b == StoreSpec.Branch(project, from.value) && h == head
    case ReadyPublish(_, project, _, base, branch, _) => b == StoreSpec.Branch(project, branch) && base == head
    case _ => false
  }

  lemma MovedIsStale(db: Db, c: Captured, b: Branch, head: Rev)
    requires Expects(c, b, head) && b in db.branches && db.branches[b] != head
    ensures Stale(db, c)
  {
    match c
    case ReadyCommit(commit) => assert StoreSpec.Branch(commit.project, b.name) == b;
    case _ =>
  }

  /** Every next step of a writer that has captured `c` ends it and changes nothing else. */
  ghost predicate Loses(s: System, c: Captured) {
    forall w, supplies :: w in s.writers && s.writers[w] == c ==> Step(s, Continue(w, supplies)) == s.(writers := s.writers - {w})
  }

  lemma StaleLoses(s: System, c: Captured)
    requires Stale(s.db, c)
    ensures Loses(s, c)
  {
    hide Advance;
    hide Stale;
    StaleFails(s.db, c);
  }

  lemma StaleFails(db: Db, c: Captured)
    requires Stale(db, c)
    ensures forall supplies :: Advance(db, c, supplies).Err?
  {
    hide InsertRevision;
    hide StoreContent;
  }

  /** So a writer that compares a head from which the branch has moved can never win, however long it waits:
      comparing heads is enough. */
  lemma LostForGood(s: System, c: Captured, b: Branch, head: Rev, first: seq<Action>, second: seq<Action>)
    requires SystemInv(s) && AllGrounded(s) && RunsGrounded(s, first) && RunsGrounded(Run(s, first), second)
    requires Expects(c, b, head) && b in s.db.branches && s.db.branches[b] == head
    requires b in Run(s, first).db.branches && Run(s, first).db.branches[b] != head
    ensures Loses(Run(Run(s, first), second), c)
  {
    hide Run;
    hide SystemInv;
    hide Stale;
    hide Loses;
    hide Expects;
    hide AllGrounded;
    hide RunsGrounded;
    NeverBack(s, first, second, b);
    var u := Run(Run(s, first), second);
    MovedIsStale(u.db, c, b, head);
    StaleLoses(u, c);
  }

  /** The candidate that a ready writer finds open again when it commits. */
  ghost predicate NeedsOpen(c: Captured, candidate: CandidateId) {
    match c
    case ReadyEdit(id, _, _, _) => id == candidate
    case ReadyQualify(id, _, _, _) => id == candidate
    case ReadyPublish(id, _, _, _, _, _) => id == candidate
    case ReadyAbandon(id) => id == candidate
    case ReadyRevert(id, _, _) => id == candidate
    case _ => false
  }

  lemma ClosedIsStale(db: Db, c: Captured, candidate: CandidateId)
    requires NeedsOpen(c, candidate) && candidate in db.candidates && !db.candidates[candidate].status.Open?
    ensures Stale(db, c)
  {
  }

  /** Neither can a writer on a candidate that has been published or abandoned: a candidate's head may come
      back by a revert, its end does not. */
  lemma ClosedForGood(s: System, c: Captured, candidate: CandidateId, actions: seq<Action>)
    requires SystemInv(s) && NeedsOpen(c, candidate) && candidate in s.db.candidates && !s.db.candidates[candidate].status.Open?
    ensures var u := Run(s, actions);
      candidate in u.db.candidates && u.db.candidates[candidate] == s.db.candidates[candidate] && Loses(u, c)
  {
    hide Run;
    hide SystemInv;
    hide Stale;
    hide Loses;
    hide NeedsOpen;
    RunKeeps(s, actions);
    var u := Run(s, actions);
    ClosedIsStale(u.db, c, candidate);
    StaleLoses(u, c);
  }

  // ----- publication

  /** A publication that asks for a level moves the branch to exactly the head that has a recorded pass at
      that level; every document there is valid, and the candidate is closed. It is a fast-forward exactly
      when the base it expects is on the chain of that head. */
  lemma PublicationSafe(s: System, w: WriterId, supplies: Supplies)
    requires SystemInv(s) && w in s.writers && s.writers[w].ReadyPublish? && Advance(s.db, s.writers[w], supplies).Ok?
    ensures var p, next := s.writers[w], Step(s, Continue(w, supplies)).db;
      var b := StoreSpec.Branch(p.project, p.branch);
      && b in s.db.branches && s.db.branches[b] == p.base && b in next.branches && next.branches[b] == p.head
      && next.candidates[p.candidate].status == Published && next.candidates[p.candidate].publishedRevision == Some(p.head)
      && (p.required.Some? ==> PassRecorded(next, p.candidate, p.head, p.required.value) && p.head in next.revisions && AllValid(next.revisions[p.head].modules))
      && (Evolves(s.db, next) <==> Grounded(s.db, p))
  {
    hide Evolves;
    hide Grows;
    hide OnChain;
    hide AllValid;
    hide HistoryOk;
    hide CandidatesOk;
    var p := s.writers[w];
    PublishKeeps(s.db, p.candidate, p.project, p.branch, p.head, p.base);
    if p.required.Some? {
      var q :| q in s.db.qualifications && IsPass(s.db.qualifications[q], p.candidate, p.head, p.required.value);
      assert QualificationOk(s.db, s.db.qualifications[q]);
    }
  }

  // ----- documents

  /** Along first parents the linked documents only grow. */
  lemma {:induction false} DocumentsGrow(db: Db, r: Rev, n: nat)
    requires Inv(db) && r in db.revisions && Forebear(db.revisions, r, n).Some?
    ensures Forebear(db.revisions, r, n).value in db.revisions
    ensures db.revisions[Forebear(db.revisions, r, n).value].documents <= db.revisions[r].documents
    decreases n
  {
    if n > 0 {
      var p := db.revisions[r].parent1.value;
      ParentStored(db, r);
      DocumentsGrow(db, p, n - 1);
    }
  }

  lemma ParentStored(db: Db, r: Rev)
    requires Inv(db) && r in db.revisions && db.revisions[r].parent1.Some?
    ensures db.revisions[r].parent1.value in db.revisions
    ensures db.revisions[db.revisions[r].parent1.value].documents <= db.revisions[r].documents
  {
    hide Cyclic;
    hide MergesRight;
    assert ParentKnown(db.revisions, db.revisions[r].project, db.revisions[r].parent1);
  }

  /** A run that moves branches forward drops no document that one of them links. */
  lemma BranchDocumentsGrow(s: System, actions: seq<Action>, b: Branch)
    requires SystemInv(s) && AllGrounded(s) && RunsGrounded(s, actions) && b in s.db.branches
    ensures var t := Run(s, actions).db;
      && b in t.branches && s.db.branches[b] in s.db.revisions && t.branches[b] in t.revisions
      && s.db.revisions[s.db.branches[b]].documents <= t.revisions[t.branches[b]].documents
  {
    hide Run;
    hide HistoryOk;
    hide RunsGrounded;
    hide AllGrounded;
    RunKeeps(s, actions);
    RunForward(s, actions);
    var t := Run(s, actions).db;
    var n: nat :| Forebear(t.revisions, t.branches[b], n) == Some(s.db.branches[b]);
    assert InProject(s.db, b.project, s.db.branches[b]) && InProject(t, b.project, t.branches[b]);
    DocumentsGrow(t, t.branches[b], n);
  }

  // ----- from the empty store

  const EMPTY := System(Db(map[], map[], map[], map[], map[]), map[])

  lemma EmptyInv()
    ensures SystemInv(EMPTY)
  {
    RankedAcyclic(Ancestry(map[]), map[]);
  }

  /** What a reader finds in any store that any writers have made. */
  lemma Reachable(actions: seq<Action>)
    ensures var db := Run(EMPTY, actions).db;
      && !Cyclic(Ancestry(db.revisions)) && ParentsKnown(db.revisions) && MergesRight(db.revisions)
      && (forall r :: r in db.revisions ==> AllValid(db.revisions[r].modules))
      && (forall b :: b in db.branches ==> InProject(db, b.project, db.branches[b]))
      && (forall c :: c in db.candidates ==> OnChain(db.revisions, db.candidates[c].head, db.candidates[c].base))
      && (forall q :: q in db.qualifications && db.qualifications[q].outcome.Passed? ==>
           db.qualifications[q].revision in db.revisions && AllValid(db.revisions[db.qualifications[q].revision].modules))
  {
    EmptyInv();
    RunKeeps(EMPTY, actions);
    var db := Run(EMPTY, actions).db;
    hide Run;
    hide OnChain;
    hide AllValid;
    assert forall c :: c in db.candidates ==> CandidateOk(db, db.candidates[c]);
    assert forall q :: q in db.qualifications ==> QualificationOk(db, db.qualifications[q]);
  }

  /** What the compiler says of a state; without documents it is not asked. */
  function CompilerSays(modules: Snapshot, compiler: CompilerVerdict): Outcome {
    if modules == map[] then Passed
    else if compiler.CompilerMissing? then Unavailable
    else if compiler.valid then Passed
    else Failed
  }

  /** No store that writers have made holds an invalid document, so a syntactic qualification passes for every
      candidate, and the compiler alone decides the other level. */
  lemma SyntacticPasses(actions: seq<Action>, candidate: CandidateId, level: Level, expected: Option<Rev>, compiler: CompilerVerdict)
    ensures var db := Run(EMPTY, actions).db;
      var r := Begin(db, Qualify(candidate, level, expected, compiler));
      r.Ok? ==> Judged(db, level, compiler, r.value)
  {
    hide Run;
    hide Inv;
    hide Begin;
    EmptyInv();
    RunKeeps(EMPTY, actions);
    JudgedRight(Run(EMPTY, actions).db, candidate, level, expected, compiler);
  }

  ghost predicate Judged(db: Db, level: Level, compiler: CompilerVerdict, c: Captured) {
    && c.ReadyQualify? && c.level == level && c.head in db.revisions
    && c.outcome == if level.Syntactic? then Passed else CompilerSays(db.revisions[c.head].modules, compiler)
  }

  lemma JudgedRight(db: Db, candidate: CandidateId, level: Level, expected: Option<Rev>, compiler: CompilerVerdict)
    requires Inv(db)
    ensures var r := Begin(db, Qualify(candidate, level, expected, compiler)); r.Ok? ==> Judged(db, level, compiler, r.value)
  {
    hide Inv;
    hide AllValid;
    if candidate in db.candidates && db.candidates[candidate].head in db.revisions {
      ModulesValid(db, db.candidates[candidate].head);
    }
  }
}
