/** The revision store: its tables, the transactions that change them, and what every transaction keeps
    (src/weave_frontend/service.py, concurrent_workspace.py, batch_edit.py, edit_candidates.py). */
module StoreSpec {
  import opened Prelude
  import opened Trees
  import opened Validity
  import opened Graphs
  import opened RevisionDag
  import opened Mergers
  import opened Revisions
  import BatchSpec

  // ----- tables

  type CandidateId = string
  type QualificationId = nat

  datatype Content = Content(scopeKind: string, scopeName: string, title: string, body: string)

  datatype Level = Syntactic | Compiler
  datatype Outcome = Passed | Failed | Unavailable
  datatype Status = Open | Abandoned | Published

  datatype Candidate = Candidate(
    project: ProjectId,
    name: string,
    base: Rev,
    head: Rev,
    status: Status,
    publishedBranch: Option<string>,
    publishedRevision: Option<Rev>)

  datatype Qualification = Qualification(candidate: CandidateId, revision: Rev, level: Level, outcome: Outcome, createdAt: nat)

  datatype Branch = Branch(project: ProjectId, name: string)

  /** A content document is found by its content and has one id. */
  datatype Db = Db(
    revisions: Revisions,
    branches: map<Branch, Rev>,
    candidates: map<CandidateId, Candidate>,
    qualifications: map<QualificationId, Qualification>,
    contents: map<Content, DocumentId>)

  datatype StoreError =
    | BranchMissing
    | StaleHead
    | DuplicateBranch
    | DuplicateId
    | ForeignRevision
    | UnknownDocument
    | RevisionMissing
    | CandidateMissing
    | CandidateConflict
    | DuplicateCandidate
    | InvalidName
    | StaleRevision
    | NothingToRevert
    | QualificationFailure
    | StaleQualification
    | PublicationRace
    | MergeFailed
    | DuplicateDocument
    | NoDocument
    | InvalidState
    | EditFailed(error: BatchSpec.EditError)

  predicate InProject(db: Db, project: ProjectId, r: Rev) {
    r in db.revisions && db.revisions[r].project == project
  }

  function InheritedDocuments(db: Db, parent1: Option<Rev>): set<DocumentId> {
    if parent1.Some? && parent1.value in db.revisions then db.revisions[parent1.value].documents else {}
  }

  /** Writes one revision. Its parents must be stored revisions of its project and its documents stored
      documents; it links its first parent's documents besides its own. */
  function InsertRevision(db: Db, id: Rev, r: Revision): Result<Db, StoreError> {
    if id in db.revisions then Err(DuplicateId)
    else if !ParentKnown(db.revisions, r.project, r.parent1) || !ParentKnown(db.revisions, r.project, r.parent2) then Err(ForeignRevision)
    else if !(r.documents <= db.contents.Values) then Err(UnknownDocument)
    else Ok(db.(revisions := db.revisions[id := r.(documents := r.documents + InheritedDocuments(db, r.parent1))]))
  }

  // ----- transactions

  /** A new project: one revision without parents, and its main branch. */
  function InitializeTx(db: Db, project: ProjectId, id: Rev): Result<Db, StoreError> {
    if Branch(project, "main") in db.branches then Err(DuplicateBranch)
    else
      var inserted :- InsertRevision(db, id, Revision(project, None, None, map[], {}, []));
      Ok(inserted.(branches := inserted.branches[Branch(project, "main") := id]))
  }

  /** A write on top of captured branch heads. The first parent is the captured head of the branch that
      is written. */
  datatype Commit = Commit(
    project: ProjectId,
    branch: string,
    heads: map<string, Rev>,
    parent2: Option<Rev>,
    modules: Snapshot,
    operations: seq<Operation>,
    content: Option<Content>)

  predicate HeadsMatch(db: Db, project: ProjectId, heads: map<string, Rev>) {
    forall name :: name in heads ==> Branch(project, name) in db.branches && db.branches[Branch(project, name)] == heads[name]
  }

  /** The content document of a write: the stored one with the same content, or a new one. */
  function StoreContent(db: Db, content: Option<Content>, id: DocumentId): Result<(Db, set<DocumentId>), StoreError> {
    match content
    case None => Ok((db, {}))
    case Some(c) =>
      if c in db.contents then Ok((db, {db.contents[c]}))
      else if id in db.contents.Values then Err(DuplicateId)
      else Ok((db.(contents := db.contents[c := id]), {id}))
  }

  /** Compare and set: the heads must be as captured; then the new revision is stored and the branch moves
      to it. */
  function CommitTx(db: Db, c: Commit, id: Rev, document: DocumentId): Result<Db, StoreError>
    requires c.branch in c.heads
  {
    if !HeadsMatch(db, c.project, c.heads) then Err(StaleHead)
    else
      var stored :- StoreContent(db, c.content, document);
      var inserted :- InsertRevision(stored.0, id,
        Revision(c.project, Some(c.heads[c.branch]), c.parent2, c.modules, stored.1, c.operations));
      Ok(inserted.(branches := inserted.branches[Branch(c.project, c.branch) := id]))
  }

  /** The batch executor's own compare and set. */
  function BatchTx(db: Db, project: ProjectId, branch: string, base: Rev, modules: Snapshot, operations: seq<Operation>, id: Rev): Result<Db, StoreError> {
    var b := Branch(project, branch);
    if b !in db.branches then Err(BranchMissing)
    else if db.branches[b] != base then Err(StaleHead)
    else
      var inserted :- InsertRevision(db, id, Revision(project, Some(base), None, modules, {}, operations));
      Ok(inserted.(branches := inserted.branches[b := id]))
  }

  /** A new branch at a captured head, or at a stored revision. */
  function BranchTx(db: Db, project: ProjectId, name: string, from: Option<string>, head: Rev): Result<Db, StoreError> {
    if from.Some? && !HeadsMatch(db, project, map[from.value := head]) then Err(StaleHead)
    else if Branch(project, name) in db.branches then Err(DuplicateBranch)
    else if !InProject(db, project, head) then Err(ForeignRevision)
    else Ok(db.(branches := db.branches[Branch(project, name) := head]))
  }

  predicate OpenNamed(c: Candidate, project: ProjectId, name: string) {
    c.status.Open? && c.project == project && c.name == name
  }

  function OpenTx(db: Db, id: CandidateId, project: ProjectId, name: string, base: Rev): Result<Db, StoreError> {
    if exists c :: c in db.candidates && OpenNamed(db.candidates[c], project, name) then Err(DuplicateCandidate)
    else if id in db.candidates then Err(DuplicateId)
    else if base !in db.revisions then Err(RevisionMissing)
    else Ok(db.(candidates := db.candidates[id := Candidate(project, name, base, base, Open, None, None)]))
  }

  predicate StillAt(db: Db, id: CandidateId, head: Rev) {
    id in db.candidates && db.candidates[id].status.Open? && db.candidates[id].head == head
  }

  /** An edit on top of the captured candidate head. */
  function EditTx(db: Db, id: CandidateId, head: Rev, modules: Snapshot, operations: seq<Operation>, revision: Rev): Result<Db, StoreError> {
    if !StillAt(db, id, head) then Err(StaleRevision)
    else
      var c := db.candidates[id];
      var inserted :- InsertRevision(db, revision, Revision(c.project, Some(head), None, modules, {}, operations));
      Ok(inserted.(candidates := inserted.candidates[id := c.(head := revision)]))
  }

  function QualifyTx(db: Db, id: CandidateId, head: Rev, level: Level, outcome: Outcome, qualification: QualificationId, now: nat): Result<Db, StoreError> {
    if id !in db.candidates || !db.candidates[id].status.Open? then Err(CandidateConflict)
    else if db.candidates[id].head != head then Err(StaleRevision)
    else if qualification in db.qualifications then Err(DuplicateId)
    else Ok(db.(qualifications := db.qualifications[qualification := Qualification(id, head, level, outcome, now)]))
  }

  /** Moves the branch from the required base to the candidate's head, and closes the candidate. */
  function PublishTx(db: Db, id: CandidateId, project: ProjectId, branch: string, head: Rev, base: Rev): Result<Db, StoreError> {
    var b := Branch(project, branch);
    if b !in db.branches then Err(BranchMissing)
    else if db.branches[b] != base then Err(PublicationRace)
    else if !StillAt(db, id, head) then Err(CandidateConflict)
    else if !InProject(db, project, head) then Err(ForeignRevision)
    else Ok(db.(branches := db.branches[b := head],
                candidates := db.candidates[id :=
                  db.candidates[id].(status := Published, publishedBranch := Some(branch), publishedRevision := Some(head))]))
  }

  function AbandonTx(db: Db, id: CandidateId): Result<Db, StoreError> {
    if id !in db.candidates || !db.candidates[id].status.Open? then Err(CandidateConflict)
    else Ok(db.(candidates := db.candidates[id := db.candidates[id].(status := Abandoned)]))
  }

  function RevertTx(db: Db, id: CandidateId, head: Rev, parent: Rev): Result<Db, StoreError> {
    if !StillAt(db, id, head) then Err(StaleRevision)
    else Ok(db.(candidates := db.candidates[id := db.candidates[id].(head := parent)]))
  }

  // ----- what is true of every reachable store

  ghost predicate HeadsKnown(db: Db) {
    forall b :: b in db.branches ==> InProject(db, b.project, db.branches[b])
  }

  /** A candidate's base is on the first-parent chain of its head, in its project. */
  ghost predicate CandidateOk(db: Db, c: Candidate) {
    && InProject(db, c.project, c.base) && InProject(db, c.project, c.head)
    && OnChain(db.revisions, c.head, c.base)
    && (c.status.Published? ==> c.publishedRevision == Some(c.head))
  }

  ghost predicate CandidatesOk(db: Db) {
    forall c :: c in db.candidates ==> CandidateOk(db, db.candidates[c])
  }

  ghost predicate OpenNamesApart(db: Db) {
    forall c, d :: c in db.candidates && d in db.candidates && c != d && db.candidates[c].status.Open? ==>
      !OpenNamed(db.candidates[d], db.candidates[c].project, db.candidates[c].name)
  }

  ghost predicate AllValid(modules: Snapshot) {
    forall name :: name in modules ==> ValidTree(modules[name])
  }

  /** A passing qualification is of a stored revision whose documents are all valid. */
  ghost predicate QualificationOk(db: Db, q: Qualification) {
    q.candidate in db.candidates && q.revision in db.revisions && (q.outcome.Passed? ==> AllValid(db.revisions[q.revision].modules))
  }

  ghost predicate QualificationsOk(db: Db) {
    forall q :: q in db.qualifications ==> QualificationOk(db, db.qualifications[q])
  }

  /** Documents are stored, and a revision links all that its first parent links. */
  ghost predicate DocumentsOk(db: Db) {
    && (forall r :: r in db.revisions ==> db.revisions[r].documents <= db.contents.Values)
    && (forall r :: r in db.revisions ==> InheritedDocuments(db, db.revisions[r].parent1) <= db.revisions[r].documents)
  }

  ghost predicate ContentsApart(db: Db) {
    forall c, d :: c in db.contents && d in db.contents && c != d ==> db.contents[c] != db.contents[d]
  }

  /** Every document of every revision is valid. */
  ghost predicate SnapshotsValid(revs: Revisions) {
    forall r :: r in revs ==> AllValid(revs[r].modules)
  }

  ghost predicate HistoryOk(revs: Revisions) {
    ParentsKnown(revs) && !Cyclic(Ancestry(revs)) && MergesRight(revs) && SnapshotsValid(revs)
  }

  ghost predicate Inv(db: Db) {
    && HistoryOk(db.revisions) && HeadsKnown(db) && CandidatesOk(db) && OpenNamesApart(db)
    && QualificationsOk(db) && DocumentsOk(db) && ContentsApart(db)
  }

  // ----- how a store may change

  ghost predicate CandidateKept(a: Candidate, b: Candidate) {
    b.project == a.project && b.name == a.name && b.base == a.base && (!a.status.Open? ==> b == a)
  }

  /** Revisions, qualifications and content documents stay as they are, branches stay, a candidate keeps
      its base, and published and abandoned are final. */
  ghost predicate Grows(a: Db, b: Db) {
    && Kept(a.revisions, b.revisions) && a.branches.Keys <= b.branches.Keys
    && (forall c :: c in a.candidates ==> c in b.candidates && CandidateKept(a.candidates[c], b.candidates[c]))
    && (forall q :: q in a.qualifications ==> q in b.qualifications && b.qualifications[q] == a.qualifications[q])
    && (forall c :: c in a.contents ==> c in b.contents && b.contents[c] == a.contents[c])
  }

  /** Besides, a branch's old head is on the first-parent chain of its new one. */
  ghost predicate Evolves(a: Db, b: Db) {
    Grows(a, b) && forall k :: k in a.branches ==> OnChain(b.revisions, b.branches[k], a.branches[k])
  }

  lemma GrowsTrans(a: Db, b: Db, c: Db)
    requires Grows(a, b) && Grows(b, c)
    ensures Grows(a, c)
  {
  }

  lemma EvolvesRefl(a: Db)
    ensures Evolves(a, a)
  {
    forall k | k in a.branches ensures OnChain(a.revisions, a.branches[k], a.branches[k]) {
      ChainRefl(a.revisions, a.branches[k]);
    }
  }

  lemma EvolvesTrans(a: Db, b: Db, c: Db)
    requires Evolves(a, b) && Evolves(b, c)
    ensures Evolves(a, c)
  {
    GrowsTrans(a, b, c);
    forall k | k in a.branches ensures k in c.branches && OnChain(c.revisions, c.branches[k], a.branches[k]) {
      ChainKept(b.revisions, c.revisions, b.branches[k], a.branches[k]);
      ChainTrans(c.revisions, c.branches[k], b.branches[k], a.branches[k]);
    }
  }

  // ----- inserting a revision

  lemma MergesKept(revs: Revisions, id: Rev, r: Revision)
    requires HistoryOk(revs) && id !in revs
    requires r.parent2.Some? && r.parent1 != r.parent2 ==> MergeOf(revs, r)
    ensures MergesRight(revs[id := r])
  {
    var more := revs[id := r];
    forall x | x in more && more[x].parent2.Some? && more[x].parent1 != more[x].parent2 ensures MergeOf(more, more[x]) {
      assert MergeOf(revs, more[x]);
      var base :| MergeRight(revs, more[x].parent1.value, more[x].parent2.value, base, more[x].modules);
      MergeRightKept(revs, more, more[x].parent1.value, more[x].parent2.value, base, more[x].modules);
    }
  }

  /** A stored revision keeps history in order and everything else unchanged. */
  lemma InsertKeeps(db: Db, id: Rev, r: Revision)
    requires Inv(db) && InsertRevision(db, id, r).Ok? && AllValid(r.modules)
    requires r.parent2.Some? && r.parent1 != r.parent2 ==> MergeOf(db.revisions, r)
    ensures var e := InsertRevision(db, id, r).value;
      Inv(e) && Evolves(db, e) && e.branches == db.branches && e.candidates == db.candidates && id in e.revisions
    ensures var e := InsertRevision(db, id, r).value;
      e.revisions == db.revisions[id := r.(documents := r.documents + InheritedDocuments(db, r.parent1))]
  {
    hide *;
    var s := r.(documents := r.documents + InheritedDocuments(db, r.parent1));
    InsertIs(db, id, r, s);
    var e := InsertRevision(db, id, r).value;
    InvParts(db);
    InsertHistory(db.revisions, id, r, s);
    HistoryParts(db.revisions);
    InsertDocuments(db, id, r, s);
    InsertRest(db, e);
    InvWhole(e);
  }

  lemma InsertIs(db: Db, id: Rev, r: Revision, s: Revision)
    requires InsertRevision(db, id, r).Ok? && s == r.(documents := r.documents + InheritedDocuments(db, r.parent1))
    ensures InsertRevision(db, id, r).value == db.(revisions := db.revisions[id := s]) && Kept(db.revisions, db.revisions[id := s])
    ensures id !in db.revisions && r.documents <= db.contents.Values
    ensures ParentKnown(db.revisions, r.project, r.parent1) && ParentKnown(db.revisions, r.project, r.parent2)
  {
  }

  lemma InvParts(db: Db)
    requires Inv(db)
    ensures HistoryOk(db.revisions) && HeadsKnown(db) && CandidatesOk(db) && OpenNamesApart(db)
    ensures QualificationsOk(db) && DocumentsOk(db) && ContentsApart(db)
  {
  }

  lemma InvWhole(db: Db)
    requires HistoryOk(db.revisions) && HeadsKnown(db) && CandidatesOk(db) && OpenNamesApart(db)
    requires QualificationsOk(db) && DocumentsOk(db) && ContentsApart(db)
    ensures Inv(db)
  {
  }

  lemma HistoryParts(revs: Revisions)
    requires HistoryOk(revs)
    ensures ParentsKnown(revs) && !Cyclic(Ancestry(revs)) && MergesRight(revs) && SnapshotsValid(revs)
  {
  }

  lemma InsertHistory(revs: Revisions, id: Rev, r: Revision, s: Revision)
    requires HistoryOk(revs) && id !in revs && s == r.(documents := s.documents) && AllValid(r.modules)
    requires ParentKnown(revs, r.project, r.parent1) && ParentKnown(revs, r.project, r.parent2)
    requires r.parent2.Some? && r.parent1 != r.parent2 ==> MergeOf(revs, r)
    ensures HistoryOk(revs[id := s])
  {
    hide MergesRight;
    hide MergeOf;
    hide Cyclic;
    hide Ancestry;
    hide AllValid;
    MergeSame(revs, r, s);
    MergesKept(revs, id, s);
    AcyclicInsert(revs, id, s);
  }

  lemma InsertDocuments(db: Db, id: Rev, r: Revision, s: Revision)
    requires DocumentsOk(db) && OpenNamesApart(db) && ContentsApart(db) && r.documents <= db.contents.Values && id !in db.revisions
    requires s == r.(documents := r.documents + InheritedDocuments(db, r.parent1))
    requires ParentsKnown(db.revisions) && ParentKnown(db.revisions, r.project, r.parent1)
    ensures var e := db.(revisions := db.revisions[id := s]); DocumentsOk(e) && OpenNamesApart(e) && ContentsApart(e)
  {
  }

  lemma MergeSame(revs: Revisions, r: Revision, s: Revision)
    requires s.parent1 == r.parent1 && s.parent2 == r.parent2 && s.modules == r.modules
    ensures MergeOf(revs, r) <==> MergeOf(revs, s)
  {
  }

  // Tables that only refer to revisions stay in order as revisions are added.
  lemma InsertRest(db: Db, e: Db)
    requires Kept(db.revisions, e.revisions) && e == db.(revisions := e.revisions)
    requires HeadsKnown(db) && CandidatesOk(db) && QualificationsOk(db)
    ensures HeadsKnown(e) && CandidatesOk(e) && QualificationsOk(e) && Evolves(db, e)
  {
    EvolvesRefl(db);
    forall k | k in db.branches ensures OnChain(e.revisions, e.branches[k], db.branches[k]) {
      ChainKept(db.revisions, e.revisions, db.branches[k], db.branches[k]);
    }
    forall c | c in e.candidates ensures CandidateOk(e, e.candidates[c]) {
      ChainKept(db.revisions, e.revisions, e.candidates[c].head, e.candidates[c].base);
    }
  }

  // ----- moving one row

  // Tables that are left alone, or only grow, stay in order.
  lemma Frame(db: Db, e: Db)
    requires Inv(db) && e.revisions == db.revisions
    ensures HistoryOk(e.revisions)
    ensures e.branches == db.branches ==> HeadsKnown(e)
    ensures e.candidates == db.candidates ==> CandidatesOk(e) && OpenNamesApart(e)
    ensures e.qualifications == db.qualifications && db.candidates.Keys <= e.candidates.Keys ==> QualificationsOk(e)
    ensures db.contents.Values <= e.contents.Values ==> DocumentsOk(e)
    ensures e.contents == db.contents ==> ContentsApart(e)
  {
    hide HistoryOk;
    InvParts(db);
    FrameCandidates(db, e);
    FrameQualifications(db, e);
    FrameDocuments(db, e);
    hide CandidatesOk;
    hide QualificationsOk;
    hide DocumentsOk;
  }

  lemma FrameCandidates(db: Db, e: Db)
    requires CandidatesOk(db) && OpenNamesApart(db) && e.revisions == db.revisions
    ensures e.candidates == db.candidates ==> CandidatesOk(e) && OpenNamesApart(e)
  {
    hide OnChain;
    if e.candidates == db.candidates {
      forall c | c in e.candidates ensures CandidateOk(e, e.candidates[c]) {
        assert CandidateOk(db, e.candidates[c]);
      }
    }
  }

  lemma FrameQualifications(db: Db, e: Db)
    requires QualificationsOk(db) && e.revisions == db.revisions
    ensures e.qualifications == db.qualifications && db.candidates.Keys <= e.candidates.Keys ==> QualificationsOk(e)
  {
    hide AllValid;
    if e.qualifications == db.qualifications && db.candidates.Keys <= e.candidates.Keys {
      forall q | q in e.qualifications ensures QualificationOk(e, e.qualifications[q]) {
        assert QualificationOk(db, e.qualifications[q]);
      }
    }
  }

  lemma FrameDocuments(db: Db, e: Db)
    requires DocumentsOk(db) && e.revisions == db.revisions
    ensures db.contents.Values <= e.contents.Values ==> DocumentsOk(e)
  {
  }

  // One table changes, the revisions do not.
  lemma EvolvesBy(db: Db, e: Db)
    requires e.revisions == db.revisions && e.qualifications.Keys >= db.qualifications.Keys
    requires forall k :: k in db.branches ==> k in e.branches && OnChain(e.revisions, e.branches[k], db.branches[k])
    requires forall c :: c in db.candidates ==> c in e.candidates && CandidateKept(db.candidates[c], e.candidates[c])
    requires forall q :: q in db.qualifications ==> e.qualifications[q] == db.qualifications[q]
    requires forall c :: c in db.contents ==> c in e.contents && e.contents[c] == db.contents[c]
    ensures Evolves(db, e)
  {
  }

  lemma SameBranches(db: Db)
    ensures forall k :: k in db.branches ==> OnChain(db.revisions, db.branches[k], db.branches[k])
  {
    forall k | k in db.branches ensures OnChain(db.revisions, db.branches[k], db.branches[k]) {
      ChainRefl(db.revisions, db.branches[k]);
    }
  }

  /** A branch may move to any revision of its project; it moves forward when the old head is on the chain of
      the new one. */
  lemma MoveBranch(db: Db, b: Branch, r: Rev)
    requires Inv(db) && InProject(db, b.project, r)
    ensures var e := db.(branches := db.branches[b := r]);
      Inv(e) && Grows(db, e) && (Evolves(db, e) <==> (b in db.branches ==> OnChain(db.revisions, r, db.branches[b])))
  {
    hide *;
    var e := db.(branches := db.branches[b := r]);
    Frame(db, e);
    MovedHeads(db, b, r);
    MovedForward(db, b, r);
    InvWhole(e);
  }

  lemma MovedForward(db: Db, b: Branch, r: Rev)
    ensures var e := db.(branches := db.branches[b := r]);
      Grows(db, e) && (Evolves(db, e) <==> (b in db.branches ==> OnChain(db.revisions, r, db.branches[b])))
  {
    hide OnChain;
    SameBranches(db);
  }

  lemma AllCandidatesKept(db: Db)
    ensures forall c :: c in db.candidates ==> CandidateKept(db.candidates[c], db.candidates[c])
  {
  }

  lemma MovedHeads(db: Db, b: Branch, r: Rev)
    requires Inv(db) && InProject(db, b.project, r)
    ensures HeadsKnown(db.(branches := db.branches[b := r]))
  {
    hide HistoryOk;
    hide CandidatesOk;
  }

  /** An open candidate may change as long as it keeps its base on its chain. */
  lemma ChangeCandidate(db: Db, id: CandidateId, c: Candidate)
    requires Inv(db) && id in db.candidates && db.candidates[id].status.Open?
    requires CandidateOk(db, c) && CandidateKept(db.candidates[id], c)
    ensures var e := db.(candidates := db.candidates[id := c]); Inv(e) && Evolves(db, e)
  {
    hide *;
    var e := db.(candidates := db.candidates[id := c]);
    Frame(db, e);
    InvParts(db);
    PutCandidate(db, id, c);
    SameBranches(db);
    AllCandidatesKept(db);
    EvolvesBy(db, e);
    InvWhole(e);
  }

  // A candidate is added, or changed while it keeps its name.
  lemma PutCandidate(db: Db, id: CandidateId, c: Candidate)
    requires CandidatesOk(db) && OpenNamesApart(db) && CandidateOk(db, c)
    requires if id in db.candidates then db.candidates[id].status.Open? && CandidateKept(db.candidates[id], c)
             else forall d :: d in db.candidates ==> !OpenNamed(db.candidates[d], c.project, c.name)
    ensures var e := db.(candidates := db.candidates[id := c]); CandidatesOk(e) && OpenNamesApart(e)
  {
    hide OnChain;
    var e := db.(candidates := db.candidates[id := c]);
    forall x | x in e.candidates ensures CandidateOk(e, e.candidates[x]) {
      assert CandidateOk(db, e.candidates[x]);
    }
    forall x, y | x in e.candidates && y in e.candidates && x != y && e.candidates[x].status.Open?
      ensures !OpenNamed(e.candidates[y], e.candidates[x].project, e.candidates[x].name)
    {
      if x in db.candidates && y in db.candidates {
        assert db.candidates[x].status.Open? ==> !OpenNamed(db.candidates[y], db.candidates[x].project, db.candidates[x].name);
        assert db.candidates[y].status.Open? ==> !OpenNamed(db.candidates[x], db.candidates[y].project, db.candidates[y].name);
      }
    }
  }

  lemma ContentKeeps(db: Db, content: Option<Content>, id: DocumentId)
    requires Inv(db) && StoreContent(db, content, id).Ok?
    ensures var (e, documents) := StoreContent(db, content, id).value;
      && Inv(e) && Evolves(db, e) && e == db.(contents := e.contents) && documents <= e.contents.Values
      && (content.Some? ==> content.value in e.contents && documents == {e.contents[content.value]})
  {
    hide *;
    var (e, documents) := StoreContent(db, content, id).value;
    InvParts(db);
    ContentIs(db, content, id);
    Frame(db, e);
    SameBranches(db);
    AllCandidatesKept(db);
    EvolvesBy(db, e);
    InvWhole(e);
  }

  lemma ContentIs(db: Db, content: Option<Content>, id: DocumentId)
    requires ContentsApart(db) && StoreContent(db, content, id).Ok?
    ensures var (e, documents) := StoreContent(db, content, id).value;
      && e == db.(contents := e.contents) && ContentsApart(e) && documents <= e.contents.Values && db.contents.Values <= e.contents.Values
      && (content.Some? ==> content.value in e.contents && documents == {e.contents[content.value]})
      && forall c :: c in db.contents ==> c in e.contents && e.contents[c] == db.contents[c]
  {
    var (e, documents) := StoreContent(db, content, id).value;
    forall v | v in db.contents.Values ensures v in e.contents.Values {
      var c :| c in db.contents && db.contents[c] == v;
      assert e.contents[c] == v;
    }
    if content.Some? {
      assert e.contents[content.value] in e.contents.Values;
    }
  }

  // ----- the transactions

  /** What a captured write must be sure of: its documents are valid, and as a merge it is the merge of its
      parents. */
  ghost predicate CommitOk(db: Db, c: Commit) {
    && c.branch in c.heads && AllValid(c.modules)
    && (c.parent2.Some? && c.parent2 != Some(c.heads[c.branch]) ==>
      exists base :: MergeRight(db.revisions, c.heads[c.branch], c.parent2.value, base, c.modules))
  }

  /** A write that wins moves its branch one first-parent link up from the captured head, which was the
      head until then, and links every document of the old head and its own. */
  ghost predicate Advanced(db: Db, e: Db, b: Branch, base: Rev, id: Rev) {
    && b in db.branches && db.branches[b] == base && id !in db.revisions && id in e.revisions
    && e.branches == db.branches[b := id]
    && e.revisions[id].parent1 == Some(base) && e.revisions[id].project == b.project
    && base in db.revisions && db.revisions[base].documents <= e.revisions[id].documents
  }

  lemma AdvanceBranch(db: Db, b: Branch, base: Rev, id: Rev, r: Revision)
    requires Inv(db) && InsertRevision(db, id, r).Ok? && r.parent1 == Some(base) && r.project == b.project && AllValid(r.modules)
    requires r.parent2.Some? && r.parent1 != r.parent2 ==> MergeOf(db.revisions, r)
    requires b in db.branches && db.branches[b] == base
    ensures var inserted := InsertRevision(db, id, r).value;
      var e := inserted.(branches := inserted.branches[b := id]);
      && Inv(e) && Evolves(db, e) && Advanced(db, e, b, base, id)
      && e.revisions[id] == r.(documents := r.documents + InheritedDocuments(db, r.parent1))
  {
    hide *;
    InsertKeeps(db, id, r);
    InsertIs(db, id, r, r.(documents := r.documents + InheritedDocuments(db, r.parent1)));
    var inserted := InsertRevision(db, id, r).value;
    ChainParent(inserted.revisions, id, base);
    InsertedIn(db, b, base, id, r, inserted);
    MoveBranch(inserted, b, id);
    EvolvesTrans(db, inserted, inserted.(branches := inserted.branches[b := id]));
    AdvancedIs(db, b, base, id, r, inserted);
  }

  lemma InsertedIn(db: Db, b: Branch, base: Rev, id: Rev, r: Revision, inserted: Db)
    requires Inv(db) && r.project == b.project
    requires inserted == db.(revisions := db.revisions[id := r.(documents := r.documents + InheritedDocuments(db, r.parent1))])
    ensures InProject(inserted, b.project, id)
  {
  }

  lemma AdvancedIs(db: Db, b: Branch, base: Rev, id: Rev, r: Revision, inserted: Db)
    requires id !in db.revisions && r.parent1 == Some(base) && r.project == b.project && b in db.branches && db.branches[b] == base
    requires ParentKnown(db.revisions, r.project, r.parent1)
    requires inserted == db.(revisions := db.revisions[id := r.(documents := r.documents + InheritedDocuments(db, r.parent1))])
    ensures Advanced(db, inserted.(branches := inserted.branches[b := id]), b, base, id)
  {
  }

  lemma CommitKeeps(db: Db, c: Commit, id: Rev, document: DocumentId)
    requires Inv(db) && CommitOk(db, c) && CommitTx(db, c, id, document).Ok?
    ensures var e := CommitTx(db, c, id, document).value;
      && Inv(e) && Evolves(db, e) && Advanced(db, e, Branch(c.project, c.branch), c.heads[c.branch], id)
      && e.revisions[id].modules == c.modules && e.revisions[id].parent2 == c.parent2
      && (c.content.Some? ==> c.content.value in e.contents && e.contents[c.content.value] in e.revisions[id].documents)
  {
    hide Inv;
    hide Evolves;
    hide StoreContent;
    hide InsertRevision;
    hide MergeRight;
    hide AllValid;
    var stored := StoreContent(db, c.content, document).value;
    var b, base := Branch(c.project, c.branch), c.heads[c.branch];
    var r := Revision(c.project, Some(base), c.parent2, c.modules, stored.1, c.operations);
    ContentKeeps(db, c.content, document);
    AdvanceBranch(stored.0, b, base, id, r);
    EvolvesTrans(db, stored.0, CommitTx(db, c, id, document).value);
    InsertIs(stored.0, id, r, r.(documents := r.documents + InheritedDocuments(stored.0, r.parent1)));
  }

  lemma BatchKeeps(db: Db, project: ProjectId, branch: string, base: Rev, modules: Snapshot, operations: seq<Operation>, id: Rev)
    requires Inv(db) && BatchTx(db, project, branch, base, modules, operations, id).Ok? && AllValid(modules)
    ensures var e := BatchTx(db, project, branch, base, modules, operations, id).value;
      && Inv(e) && Evolves(db, e) && Advanced(db, e, Branch(project, branch), base, id) && e.revisions[id].modules == modules
  {
    hide Inv;
    hide Evolves;
    hide InsertRevision;
    AdvanceBranch(db, Branch(project, branch), base, id, Revision(project, Some(base), None, modules, {}, operations));
  }

  lemma BranchKeeps(db: Db, project: ProjectId, name: string, from: Option<string>, head: Rev)
    requires Inv(db) && BranchTx(db, project, name, from, head).Ok?
    ensures var e := BranchTx(db, project, name, from, head).value;
      Inv(e) && Evolves(db, e) && Branch(project, name) !in db.branches && e.branches == db.branches[Branch(project, name) := head]
  {
    hide Inv;
    hide Evolves;
    MoveBranch(db, Branch(project, name), head);
  }

  lemma OpenKeeps(db: Db, id: CandidateId, project: ProjectId, name: string, base: Rev)
    requires Inv(db) && InProject(db, project, base) && OpenTx(db, id, project, name, base).Ok?
    ensures var e := OpenTx(db, id, project, name, base).value; Inv(e) && Evolves(db, e)
  {
    var c := Candidate(project, name, base, base, Open, None, None);
    hide Inv;
    hide Evolves;
    hide OnChain;
    hide CandidatesOk;
    hide OpenNamesApart;
    var e := OpenTx(db, id, project, name, base).value;
    ChainRefl(db.revisions, base);
    InvParts(db);
    PutCandidate(db, id, c);
    Frame(db, e);
    SameBranches(db);
    EvolvesBy(db, e);
    InvWhole(e);
  }

  lemma EditKeeps(db: Db, id: CandidateId, head: Rev, modules: Snapshot, operations: seq<Operation>, revision: Rev)
    requires Inv(db) && EditTx(db, id, head, modules, operations, revision).Ok? && AllValid(modules)
    ensures var e := EditTx(db, id, head, modules, operations, revision).value;
      && Inv(e) && Evolves(db, e) && e.branches == db.branches
      && e.candidates == db.candidates[id := db.candidates[id].(head := revision)]
      && e.revisions[revision].parent1 == Some(db.candidates[id].head)
  {
    hide Inv;
    hide Evolves;
    hide InsertRevision;
    hide OnChain;
    var c := db.candidates[id];
    var r := Revision(c.project, Some(head), None, modules, {}, operations);
    InsertKeeps(db, revision, r);
    InsertIs(db, revision, r, r.(documents := r.documents + InheritedDocuments(db, r.parent1)));
    var inserted := InsertRevision(db, revision, r).value;
    CandidateIs(inserted, id);
    ChainParent(inserted.revisions, revision, head);
    ChainTrans(inserted.revisions, revision, head, c.base);
    ChangeCandidate(inserted, id, c.(head := revision));
    EvolvesTrans(db, inserted, EditTx(db, id, head, modules, operations, revision).value);
  }

  lemma CandidateIs(db: Db, id: CandidateId)
    requires Inv(db) && id in db.candidates
    ensures CandidateOk(db, db.candidates[id])
  {
  }

  lemma QualifyKeeps(db: Db, id: CandidateId, head: Rev, level: Level, outcome: Outcome, qualification: QualificationId, now: nat)
    requires Inv(db) && QualifyTx(db, id, head, level, outcome, qualification, now).Ok?
    requires outcome.Passed? ==> head in db.revisions && AllValid(db.revisions[head].modules)
    ensures var e := QualifyTx(db, id, head, level, outcome, qualification, now).value; Inv(e) && Evolves(db, e)
  {
    hide *;
    var q := Qualification(id, head, level, outcome, now);
    QualifiedIs(db, id, head, level, outcome, qualification, now);
    InvParts(db);
    CandidateIs(db, id);
    PutQualification(db, qualification, q);
    var e := QualifyTx(db, id, head, level, outcome, qualification, now).value;
    Frame(db, e);
    SameBranches(db);
    AllCandidatesKept(db);
    EvolvesBy(db, e);
    InvWhole(e);
  }

  lemma QualifiedIs(db: Db, id: CandidateId, head: Rev, level: Level, outcome: Outcome, qualification: QualificationId, now: nat)
    requires QualifyTx(db, id, head, level, outcome, qualification, now).Ok?
    ensures id in db.candidates && db.candidates[id].head == head && qualification !in db.qualifications
    ensures QualifyTx(db, id, head, level, outcome, qualification, now).value ==
      db.(qualifications := db.qualifications[qualification := Qualification(id, head, level, outcome, now)])
  {
  }

  lemma PutQualification(db: Db, id: QualificationId, q: Qualification)
    requires QualificationsOk(db) && q.candidate in db.candidates && CandidateOk(db, db.candidates[q.candidate])
    requires q.revision == db.candidates[q.candidate].head && (q.outcome.Passed? ==> q.revision in db.revisions && AllValid(db.revisions[q.revision].modules))
    ensures QualificationsOk(db.(qualifications := db.qualifications[id := q]))
  {
    hide AllValid;
    hide OnChain;
    var e := db.(qualifications := db.qualifications[id := q]);
    forall x | x in e.qualifications ensures QualificationOk(e, e.qualifications[x]) {
      assert x != id ==> QualificationOk(db, e.qualifications[x]);
    }
  }

  /** Publishing closes the candidate. It is a fast-forward exactly when the branch's head is on the chain of
      the candidate's, as the candidate's own base is. */
  lemma PublishKeeps(db: Db, id: CandidateId, project: ProjectId, branch: string, head: Rev, base: Rev)
    requires Inv(db) && PublishTx(db, id, project, branch, head, base).Ok?
    ensures var e := PublishTx(db, id, project, branch, head, base).value;
      && Inv(e) && Grows(db, e) && e.revisions == db.revisions && e.qualifications == db.qualifications
      && db.branches[Branch(project, branch)] == base && e.branches == db.branches[Branch(project, branch) := head]
      && e.candidates[id].status == Published && e.candidates[id].publishedRevision == Some(head)
      && (Evolves(db, e) <==> OnChain(db.revisions, head, base))
      && (db.candidates[id].base == base ==> Evolves(db, e))
  {
    hide Inv;
    hide Grows;
    hide Evolves;
    hide OnChain;
    var b, c := Branch(project, branch), db.candidates[id];
    CandidateIs(db, id);
    MoveBranch(db, b, head);
    var moved := db.(branches := db.branches[b := head]);
    CandidateIs(moved, id);
    var d := c.(status := Published, publishedBranch := Some(branch), publishedRevision := Some(head));
    ChangeCandidate(moved, id, d);
    PublishedForward(db, moved, b, id, d);
  }

  // Only the branches decide whether a store moved forward.
  lemma PublishedForward(db: Db, moved: Db, b: Branch, id: CandidateId, c: Candidate)
    requires id in db.candidates && CandidateKept(db.candidates[id], c) && Grows(db, moved) && moved == db.(branches := moved.branches)
    ensures var e := moved.(candidates := moved.candidates[id := c]);
      Grows(db, e) && (Evolves(db, e) <==> Evolves(db, moved))
  {
    hide OnChain;
  }

  lemma AbandonKeeps(db: Db, id: CandidateId)
    requires Inv(db) && AbandonTx(db, id).Ok?
    ensures var e := AbandonTx(db, id).value; Inv(e) && Evolves(db, e)
  {
    hide Inv;
    hide Evolves;
    hide OnChain;
    CandidateIs(db, id);
    ChangeCandidate(db, id, db.candidates[id].(status := Abandoned));
  }

  lemma RevertKeeps(db: Db, id: CandidateId, head: Rev, parent: Rev)
    requires Inv(db) && RevertTx(db, id, head, parent).Ok?
    requires head != db.candidates[id].base && head in db.revisions && db.revisions[head].parent1 == Some(parent)
    ensures var e := RevertTx(db, id, head, parent).value; Inv(e) && Evolves(db, e)
  {
    hide Evolves;
    hide Cyclic;
    hide MergesRight;
    hide OnChain;
    var c := db.candidates[id];
    CandidateIs(db, id);
    ChainParent(db.revisions, head, parent);
    assert ParentKnown(db.revisions, c.project, db.revisions[head].parent1);
    ChangeCandidate(db, id, c.(head := parent));
  }

  lemma InitializeKeeps(db: Db, project: ProjectId, id: Rev)
    requires Inv(db) && InitializeTx(db, project, id).Ok?
    ensures var e := InitializeTx(db, project, id).value; Inv(e) && Evolves(db, e)
  {
    hide Inv;
    hide Evolves;
    hide InsertRevision;
    var r, b := Revision(project, None, None, map[], {}, []), Branch(project, "main");
    InsertKeeps(db, id, r);
    InsertIs(db, id, r, r.(documents := r.documents + InheritedDocuments(db, r.parent1)));
    var inserted := InsertRevision(db, id, r).value;
    MoveBranch(inserted, b, id);
    EvolvesTrans(db, inserted, InitializeTx(db, project, id).value);
  }
}
