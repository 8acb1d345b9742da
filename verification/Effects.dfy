/** What each request does to the store when nobody interferes: its writer reads, computes and commits
    (src/weave_frontend/service.py, concurrent_workspace.py, batch_edit.py, edit_candidates.py, database.py). */
module Effects {
  import opened Prelude
  import opened Trees
  import opened Validity
  import opened Graphs
  import opened RevisionDag
  import opened Revisions
  import opened StoreSpec
  import opened StoreRuns
  import Documents

  /** The store after one writer has started a request and taken its two steps, of which the last may be
      none. */
  ghost function Alone(db: Db, request: Request, s: Supplies): Db {
    Step(Step(Step(System(db, map[]), Start(0, request)), Continue(0, s)), Continue(0, s)).db
  }

  lemma AloneFails(db: Db, request: Request, s: Supplies)
    requires Begin(db, request).Err?
    ensures Alone(db, request, s) == db
  {
    hide Begin;
    hide Advance;
  }

  lemma AloneIs(db: Db, request: Request, s: Supplies, c: Captured)
    requires Begin(db, request) == Ok(c) && !c.HalfMerge? && !c.UncheckedPublish?
    ensures Alone(db, request, s) == if Finish(db, c, s).Ok? then Finish(db, c, s).value else db
  {
    hide Begin;
    hide Finish;
    var start := System(db, map[]);
    assert Step(start, Start(0, request)) == System(db, map[0 := c]);
    assert map[0 := c] - {0} == map[];
  }

  lemma AloneTwice(db: Db, request: Request, s: Supplies, half: Captured)
    requires Begin(db, request) == Ok(half) && (half.HalfMerge? || half.UncheckedPublish?)
    ensures Advance(db, half, s).Err? ==> Alone(db, request, s) == db
    ensures Advance(db, half, s).Ok? ==>
      var p := Advance(db, half, s).value;
      && p.db == db && p.captured.Some? && !p.captured.value.HalfMerge? && !p.captured.value.UncheckedPublish?
      && Alone(db, request, s) == if Finish(db, p.captured.value, s).Ok? then Finish(db, p.captured.value, s).value else db
  {
    hide Begin;
    hide Finish;
    hide MergeRight;
    hide Qualified;
    var start := System(db, map[]);
    assert Step(start, Start(0, request)) == System(db, map[0 := half]);
    assert map[0 := half] - {0} == map[];
    if Advance(db, half, s).Ok? {
      var c := Advance(db, half, s).value.captured.value;
      assert map[0 := half][0 := c] == map[0 := c] && map[0 := c] - {0} == map[];
    }
  }

  // ----- a new revision

  /** One more revision and nothing else: it is as given, and links its first parent's documents besides
      its own. */
  ghost predicate OneMore(db: Db, e: Db, id: Rev, project: ProjectId, parent1: Option<Rev>, parent2: Option<Rev>,
                          operations: seq<Operation>, documents: set<DocumentId>) {
    && id !in db.revisions && e.revisions.Keys == db.revisions.Keys + {id}
    && (forall x :: x in db.revisions ==> e.revisions[x] == db.revisions[x])
    && var r := e.revisions[id];
      && r.project == project && r.parent1 == parent1 && r.parent2 == parent2 && r.operations == operations
      && r.documents == documents + (if parent1.Some? && parent1.value in db.revisions then db.revisions[parent1.value].documents else {})
  }

  lemma Inserted(db: Db, id: Rev, r: Revision)
    requires r.documents <= db.contents.Values
    requires ParentKnown(db.revisions, r.project, r.parent1) && ParentKnown(db.revisions, r.project, r.parent2)
    ensures InsertRevision(db, id, r).Ok? <==> id !in db.revisions
    ensures InsertRevision(db, id, r).Ok? ==>
      var e := InsertRevision(db, id, r).value;
      && e == db.(revisions := e.revisions) && OneMore(db, e, id, r.project, r.parent1, r.parent2, r.operations, r.documents)
      && e.revisions[id].modules == r.modules
  {
  }

  lemma SameRevisions(db: Db, stored: Db, e: Db, f: Db, id: Rev, r: Revision)
    requires stored.revisions == db.revisions && f.revisions == e.revisions
    requires OneMore(stored, e, id, r.project, r.parent1, r.parent2, r.operations, r.documents)
    ensures OneMore(db, f, id, r.project, r.parent1, r.parent2, r.operations, r.documents)
  {
  }

  /** The document that a write attaches: the one that holds its content, stored now if it was not. */
  ghost predicate Attached(db: Db, e: Db, content: Option<Content>, id: DocumentId, documents: set<DocumentId>) {
    match content
    case None => documents == {} && e.contents == db.contents
    case Some(c) =>
      && c in e.contents && documents == {e.contents[c]}
      && (forall x :: x in db.contents ==> x in e.contents && e.contents[x] == db.contents[x])
      && (forall x :: x in e.contents && x !in db.contents ==> x == c && e.contents[x] == id)
  }

  ghost predicate CanAttach(db: Db, content: Option<Content>, id: DocumentId) {
    content.Some? && content.value !in db.contents ==> forall c :: c in db.contents ==> db.contents[c] != id
  }

  lemma StoredContent(db: Db, content: Option<Content>, id: DocumentId)
    ensures StoreContent(db, content, id).Ok? <==> CanAttach(db, content, id)
    ensures StoreContent(db, content, id).Ok? ==>
      var (e, documents) := StoreContent(db, content, id).value;
      e == db.(contents := e.contents) && Attached(db, e, content, id, documents) && documents <= e.contents.Values
  {
    if content.Some? && content.value in db.contents {
      assert db.contents[content.value] in db.contents.Values;
    } else if content.Some? {
      assert id in db.contents.Values <==> exists c :: c in db.contents && db.contents[c] == id;
      var more := db.contents[content.value := id];
      assert more[content.value] in more.Values;
    }
  }

  /** A commit puts one new revision on the branch, with its content document. */
  ghost predicate Committed(db: Db, e: Db, c: Commit, base: Rev, id: Rev, document: DocumentId) {
    && e.branches == db.branches[StoreSpec.Branch(c.project, c.branch) := id]
    && e.candidates == db.candidates && e.qualifications == db.qualifications
    && id in e.revisions && e.revisions[id].modules == c.modules
    && exists documents ::
         Attached(db, e, c.content, document, documents) && OneMore(db, e, id, c.project, Some(base), c.parent2, c.operations, documents)
  }

  lemma CommitDoes(db: Db, c: Commit, id: Rev, document: DocumentId)
    requires c.branch in c.heads && HeadsMatch(db, c.project, c.heads)
    requires ParentKnown(db.revisions, c.project, Some(c.heads[c.branch])) && ParentKnown(db.revisions, c.project, c.parent2)
    ensures CommitTx(db, c, id, document).Ok? <==> CanAttach(db, c.content, document) && id !in db.revisions
    ensures CommitTx(db, c, id, document).Ok? ==> Committed(db, CommitTx(db, c, id, document).value, c, c.heads[c.branch], id, document)
  {
    hide HeadsMatch;
    hide StoreContent;
    hide InsertRevision;
    hide Attached;
    hide CanAttach;
    hide OneMore;
    StoredContent(db, c.content, document);
    if CanAttach(db, c.content, document) {
      var stored := StoreContent(db, c.content, document).value;
      var r := Revision(c.project, Some(c.heads[c.branch]), c.parent2, c.modules, stored.1, c.operations);
      Inserted(stored.0, id, r);
      if id !in db.revisions {
        var inserted := InsertRevision(stored.0, id, r).value;
        var e := CommitTx(db, c, id, document).value;
        SameRevisions(db, stored.0, inserted, e, id, r);
        SameContents(db, stored.0, e, c.content, document, stored.1);
      }
    }
  }

  /** Every commit that goes through does so. */
  lemma CommitDid(db: Db, c: Commit, id: Rev, document: DocumentId)
    requires c.branch in c.heads && CommitTx(db, c, id, document).Ok?
    ensures Committed(db, CommitTx(db, c, id, document).value, c, c.heads[c.branch], id, document)
  {
    hide HeadsMatch;
    hide Committed;
    StoredContent(db, c.content, document);
    CommitDoes(db, c, id, document);
  }

  lemma SameContents(db: Db, stored: Db, e: Db, content: Option<Content>, id: DocumentId, documents: set<DocumentId>)
    requires Attached(db, stored, content, id, documents) && e.contents == stored.contents
    ensures Attached(db, e, content, id, documents)
  {
  }

  // ----- direct writes

  predicate Expected(head: Rev, expected: Option<Rev>) {
    expected.None? || expected.value == head
  }

  /** The state allows the change. */
  ghost predicate Allowed(state: Snapshot, change: Change) {
    match change
    case Create(document, root) => document !in state && ValidTree(root)
    case Put(document, root) => ValidTree(root)
    case Mutate(document, root) => document in state && ValidTree(root)
    case Remove(document) => document in state
    case Restore(modules) => forall d :: d in modules ==> ValidTree(modules[d])
    case Attach(_) => true
  }

  /** One document is as given, the others as they were. */
  predicate OnlyAt(was: Snapshot, now: Snapshot, document: string, root: Option<Tree>) {
    && (if root.Some? then document in now && now[document] == root.value else document !in now)
    && (forall d :: d in was && d != document ==> d in now && now[d] == was[d])
    && (forall d :: d in now && d != document ==> d in was)
  }

  predicate Does(was: Snapshot, change: Change, now: Snapshot) {
    match change
    case Create(document, root) => OnlyAt(was, now, document, Some(root))
    case Put(document, root) => OnlyAt(was, now, document, Some(root))
    case Mutate(document, root) => OnlyAt(was, now, document, Some(root))
    case Remove(document) => OnlyAt(was, now, document, None)
    case Restore(modules) => now == modules
    case Attach(_) => now == was
  }

  lemma ChangedDoes(state: Snapshot, change: Change)
    ensures Changed(state, change).Ok? <==> Allowed(state, change)
    ensures Changed(state, change).Ok? ==> Does(state, change, Changed(state, change).value)
  {
    hide ValidTree;
  }

  function ContentOf(change: Change): Option<Content> {
    if change.Attach? then Some(change.content) else None
  }

  /** A direct write goes through exactly when its branch is where it expects it, the state allows the change
      and the new ids are new. Then the branch moves to one new revision on its old head, which holds the
      changed state, links the attached document and records the operation. Otherwise nothing changes. */
  lemma WriteAlone(db: Db, project: ProjectId, branch: string, expected: Option<Rev>, change: Change, operation: Operation, s: Supplies)
    requires Inv(db)
    ensures var b, e := StoreSpec.Branch(project, branch), Alone(db, Write(project, branch, expected, change, operation), s);
      if b in db.branches && db.branches[b] in db.revisions && Expected(db.branches[b], expected)
         && Allowed(db.revisions[db.branches[b]].modules, change) && CanAttach(db, ContentOf(change), s.document) && s.revision !in db.revisions
      then exists now: Snapshot ::
        && Does(db.revisions[db.branches[b]].modules, change, now)
        && Committed(db, e, Commit(project, branch, map[branch := db.branches[b]], None, now, [operation], ContentOf(change)), db.branches[b], s.revision, s.document)
      else e == db
  {
    hide Inv;
    hide Alone;
    hide Changed;
    hide Allowed;
    hide Does;
    hide CommitTx;
    hide Committed;
    hide CanAttach;
    var b, request := StoreSpec.Branch(project, branch), Write(project, branch, expected, change, operation);
    if BranchHead(db, project, branch).Ok? {
      HeadStored(db, project, branch);
      ChangedDoes(db.revisions[db.branches[b]].modules, change);
    }
    if Begin(db, request).Err? {
      AloneFails(db, request, s);
    } else {
      var c := Begin(db, request).value;
      AloneIs(db, request, s, c);
      CommitDoes(db, c.commit, s.revision, s.document);
    }
  }

  // ----- batches

  /** The batch succeeds on the state's document and the whole new state is valid; its operations are the
      executor's log, in order. */
  ghost predicate BatchDoes(was: Snapshot, batch: Batch, now: Snapshot, operations: seq<Operation>) {
    && batch.document in was
    && var t := Documents.Transformed(was[batch.document], batch.edits, batch.newId);
      && t.Ok? && OnlyAt(was, now, batch.document, Some(t.value.root)) && (forall d :: d in now ==> ValidTree(now[d]))
      && |operations| == |t.value.log|
      && forall i :: 0 <= i < |operations| ==> operations[i].kind == t.value.log[i].0 && operations[i].target == Some(t.value.log[i].1)
  }

  lemma EditedDoes(state: Snapshot, batch: Batch)
    requires AllValid(state)
    ensures Edited(state, batch).Ok? <==> exists now, operations :: BatchDoes(state, batch, now, operations)
    ensures Edited(state, batch).Ok? ==> BatchDoes(state, batch, Edited(state, batch).value.0, Edited(state, batch).value.1)
  {
    hide ValidTree;
    hide Documents.Transformed;
    if batch.document in state && Documents.Transformed(state[batch.document], batch.edits, batch.newId).Ok? {
      var t := Documents.Transformed(state[batch.document], batch.edits, batch.newId).value;
      TransformedValid(state[batch.document], batch);
      assert BatchDoes(state, batch, state[batch.document := t.root], Logged(t.log));
    }
  }

  lemma TransformedValid(root: Tree, batch: Batch)
    ensures var t := Documents.Transformed(root, batch.edits, batch.newId); t.Ok? ==> ValidTree(t.value.root)
  {
    hide ValidTree;
  }

  /** A batch on a branch goes through exactly when its branch is where it expects it, the executor accepts it
      and the new id is new. Then the branch moves to one new revision on its old head, with the edited
      document and the logged operations. Otherwise nothing changes. */
  lemma ApplyAlone(db: Db, project: ProjectId, branch: string, expected: Option<Rev>, batch: Batch, s: Supplies)
    requires Inv(db)
    ensures var b, e := StoreSpec.Branch(project, branch), Alone(db, Apply(project, branch, expected, batch), s);
      if b in db.branches && db.branches[b] in db.revisions && Expected(db.branches[b], expected) && s.revision !in db.revisions
         && exists now, operations :: BatchDoes(db.revisions[db.branches[b]].modules, batch, now, operations)
      then
        && e == db.(revisions := e.revisions, branches := db.branches[b := s.revision]) && s.revision in e.revisions
        && OneMore(db, e, s.revision, project, Some(db.branches[b]), None, e.revisions[s.revision].operations, {})
        && BatchDoes(db.revisions[db.branches[b]].modules, batch, e.revisions[s.revision].modules, e.revisions[s.revision].operations)
      else e == db
  {
    hide Inv;
    hide Alone;
    hide Edited;
    hide BatchDoes;
    hide InsertRevision;
    hide OneMore;
    hide AllValid;
    var b, request := StoreSpec.Branch(project, branch), Apply(project, branch, expected, batch);
    if BranchHead(db, project, branch).Ok? {
      HeadStored(db, project, branch);
      ModulesValid(db, db.branches[b]);
      EditedDoes(db.revisions[db.branches[b]].modules, batch);
    }
    if Begin(db, request).Err? {
      AloneFails(db, request, s);
    } else {
      var c := Begin(db, request).value;
      AloneIs(db, request, s, c);
      var r := Revision(project, Some(c.base), None, c.modules, {}, c.operations);
      Inserted(db, s.revision, r);
      if s.revision !in db.revisions {
        var inserted := InsertRevision(db, s.revision, r).value;
        SameRevisions(db, db, inserted, inserted.(branches := inserted.branches[b := s.revision]), s.revision, r);
      }
    }
  }

  /** The same on an open candidate, which moves; no branch does. */
  lemma EditAlone(db: Db, id: CandidateId, expected: Option<Rev>, batch: Batch, s: Supplies)
    requires Inv(db)
    ensures var e := Alone(db, StoreRuns.Edit(id, expected, batch), s);
      if id in db.candidates && db.candidates[id].status.Open? && db.candidates[id].head in db.revisions
         && Expected(db.candidates[id].head, expected) && s.revision !in db.revisions
         && exists now, operations :: BatchDoes(db.revisions[db.candidates[id].head].modules, batch, now, operations)
      then
        && e == db.(revisions := e.revisions, candidates := db.candidates[id := db.candidates[id].(head := s.revision)]) && s.revision in e.revisions
        && OneMore(db, e, s.revision, db.candidates[id].project, Some(db.candidates[id].head), None, e.revisions[s.revision].operations, {})
        && BatchDoes(db.revisions[db.candidates[id].head].modules, batch, e.revisions[s.revision].modules, e.revisions[s.revision].operations)
      else e == db
  {
    hide Inv;
    hide Alone;
    hide Edited;
    hide BatchDoes;
    hide InsertRevision;
    hide OneMore;
    hide AllValid;
    hide OnChain;
    var request := StoreRuns.Edit(id, expected, batch);
    if id in db.candidates {
      CandidateIs(db, id);
      ModulesValid(db, db.candidates[id].head);
      EditedDoes(db.revisions[db.candidates[id].head].modules, batch);
    }
    if Begin(db, request).Err? {
      AloneFails(db, request, s);
    } else {
      var c := Begin(db, request).value;
      AloneIs(db, request, s, c);
      var d := db.candidates[id];
      var r := Revision(d.project, Some(d.head), None, c.modules, {}, c.operations);
      Inserted(db, s.revision, r);
      if s.revision !in db.revisions {
        var inserted := InsertRevision(db, s.revision, r).value;
        SameRevisions(db, db, inserted, inserted.(candidates := inserted.candidates[id := d.(head := s.revision)]), s.revision, r);
      }
    }
  }

  // ----- merges

  /** A merge of two branches goes through exactly when both are where it expects them and what it is given is
      their merge. Then the target moves to one new revision on both heads. Otherwise nothing changes. */
  lemma MergeAlone(db: Db, project: ProjectId, target: string, source: string, expectedTarget: Option<Rev>, expectedSource: Option<Rev>, s: Supplies)
    requires Inv(db)
    ensures var b, c := StoreSpec.Branch(project, target), StoreSpec.Branch(project, source);
      var e := Alone(db, StoreRuns.Merge(project, target, source, expectedTarget, expectedSource), s);
      if b in db.branches && c in db.branches && Expected(db.branches[b], expectedTarget) && Expected(db.branches[c], expectedSource)
         && MergeRight(db.revisions, db.branches[b], db.branches[c], s.mergeBase, s.merged) && s.revision !in db.revisions
      then
        && e == db.(revisions := e.revisions, branches := db.branches[b := s.revision])
        && OneMore(db, e, s.revision, project, Some(db.branches[b]), Some(db.branches[c]), [Operation("merge", Some(target))], {})
        && e.revisions[s.revision].modules == s.merged
      else e == db
  {
    hide Inv;
    hide Alone;
    hide MergeRight;
    hide CommitTx;
    var b, c := StoreSpec.Branch(project, target), StoreSpec.Branch(project, source);
    var request := StoreRuns.Merge(project, target, source, expectedTarget, expectedSource);
    if Begin(db, request).Err? {
      AloneFails(db, request, s);
    } else {
      var half := Begin(db, request).value;
      AloneTwice(db, request, s, half);
      HeadStored(db, project, target);
      if Advance(db, half, s).Ok? {
        HeadStored(db, project, source);
        MergeDoes(db, MergeCommit(project, target, db.branches[b], source, db.branches[c], s.merged), db.branches[b], db.branches[c], s);
      }
    }
  }

  lemma MergeDoes(db: Db, c: Commit, base: Rev, other: Rev, s: Supplies)
    requires c.branch in c.heads && c.heads[c.branch] == base && HeadsMatch(db, c.project, c.heads) && c.content.None? && c.parent2 == Some(other)
    requires InProject(db, c.project, base) && InProject(db, c.project, other)
    ensures CommitTx(db, c, s.revision, s.document).Ok? <==> s.revision !in db.revisions
    ensures CommitTx(db, c, s.revision, s.document).Ok? ==>
      var e := CommitTx(db, c, s.revision, s.document).value;
      && e == db.(revisions := e.revisions, branches := db.branches[StoreSpec.Branch(c.project, c.branch) := s.revision])
      && OneMore(db, e, s.revision, c.project, Some(base), Some(other), c.operations, {}) && e.revisions[s.revision].modules == c.modules
  {
    hide HeadsMatch;
    hide InsertRevision;
    hide OneMore;
    var r := Revision(c.project, Some(base), c.parent2, c.modules, {}, c.operations);
    Inserted(db, s.revision, r);
    if s.revision !in db.revisions {
      var inserted := InsertRevision(db, s.revision, r).value;
      SameRevisions(db, db, inserted, CommitTx(db, c, s.revision, s.document).value, s.revision, r);
    }
  }

  // ----- branches and projects

  lemma InitializeAlone(db: Db, project: ProjectId, s: Supplies)
    requires Inv(db)
    ensures var b, e := StoreSpec.Branch(project, "main"), Alone(db, Initialize(project), s);
      if b !in db.branches && s.revision !in db.revisions
      then
        && e == db.(revisions := e.revisions, branches := db.branches[b := s.revision])
        && OneMore(db, e, s.revision, project, None, None, [], {}) && e.revisions[s.revision].modules == map[]
      else e == db
  {
    hide Inv;
    hide Alone;
    hide InsertRevision;
    hide OneMore;
    AloneIs(db, Initialize(project), s, ReadyInitialize(project));
    var r := Revision(project, None, None, map[], {}, []);
    Inserted(db, s.revision, r);
    if s.revision !in db.revisions {
      var inserted := InsertRevision(db, s.revision, r).value;
      SameRevisions(db, db, inserted, inserted.(branches := inserted.branches[StoreSpec.Branch(project, "main") := s.revision]), s.revision, r);
    }
  }

  /** A new branch starts at the head of the one it is taken from, or at a stored revision of the project. */
  lemma NewBranchAlone(db: Db, project: ProjectId, name: string, from: string, expected: Option<Rev>, s: Supplies)
    requires Inv(db)
    ensures var b, f := StoreSpec.Branch(project, name), StoreSpec.Branch(project, from);
      Alone(db, NewBranch(project, name, from, expected), s) ==
      if f in db.branches && Expected(db.branches[f], expected) && b !in db.branches then db.(branches := db.branches[b := db.branches[f]]) else db
  {
    hide Inv;
    hide Alone;
    var request := NewBranch(project, name, from, expected);
    if Begin(db, request).Err? {
      AloneFails(db, request, s);
    } else {
      HeadStored(db, project, from);
      AloneIs(db, request, s, Begin(db, request).value);
    }
  }

  lemma BranchAtAlone(db: Db, project: ProjectId, name: string, revision: Rev, s: Supplies)
    ensures var b := StoreSpec.Branch(project, name);
      Alone(db, BranchAt(project, name, revision), s) ==
      if revision in db.revisions && db.revisions[revision].project == project && b !in db.branches then db.(branches := db.branches[b := revision]) else db
  {
    hide Alone;
    var request := BranchAt(project, name, revision);
    if Begin(db, request).Err? {
      AloneFails(db, request, s);
    } else {
      AloneIs(db, request, s, Begin(db, request).value);
    }
  }

  // ----- candidates

  predicate NameChar(c: char) {
    'a' <= c <= 'z' || 'A' <= c <= 'Z' || '0' <= c <= '9' || c == '_' || c == '-'
  }

  predicate NamedBy(name: string, core: string, end: string) {
    && name == core + end && (end == "" || end == "\n") && 1 <= |core| <= 64
    && ('a' <= core[0] <= 'z' || 'A' <= core[0] <= 'Z') && forall c :: c in core ==> NameChar(c)
  }

  lemma CoreNames(name: string, core: string, end: string)
    requires name == core + end && (end == "" || end == "\n") && 1 <= |core| <= 64
    requires ('a' <= core[0] <= 'z' || 'A' <= core[0] <= 'Z') && forall i :: 1 <= i < |core| ==> IdChar(core[i])
    ensures NamedBy(name, core, end)
  {
    forall c | c in core ensures NameChar(c) {
      var i :| 0 <= i < |core| && core[i] == c;
      assert i > 0 ==> IdChar(core[i]);
    }
  }

  /** A candidate's name is a letter, then letters, digits, underscores and hyphens, 64 in all at most, with one
      newline behind at most. */
  lemma NameExactly(name: string)
    ensures CandidateName(name) <==> exists core, end :: NamedBy(name, core, end)
  {
    if CandidateName(name) {
      if name[|name| - 1] == '\n' {
        assert name == name[..|name| - 1] + "\n";
        CoreNames(name, name[..|name| - 1], "\n");
      } else {
        assert name == name + "";
        CoreNames(name, name, "");
      }
    }
    forall core, end | NamedBy(name, core, end) ensures CandidateName(name) {
      assert name[..|core|] == core;
      forall i | 1 <= i < |core| ensures IdChar(core[i]) {
        assert NameChar(core[i]);
      }
      if end == "" {
        assert name == core && NameChar(core[|core| - 1]);
      }
    }
  }

  /** A candidate opens at the given revision of its project, or at the head of its branch, under a name that no
      open candidate of the project has. */
  lemma OpenAlone(db: Db, project: ProjectId, name: string, branch: string, base: Option<Rev>, s: Supplies)
    requires Inv(db)
    ensures var b := StoreSpec.Branch(project, branch);
      var e := Alone(db, OpenCandidate(project, name, branch, base), s);
      if CandidateName(name) && b in db.branches && s.candidate !in db.candidates
         && (base.Some? ==> base.value in db.revisions && db.revisions[base.value].project == project)
         && (forall c :: c in db.candidates ==>
              !(db.candidates[c].status == Open && db.candidates[c].project == project && db.candidates[c].name == name))
      then
        var start := if base.Some? then base.value else db.branches[b];
        e == db.(candidates := db.candidates[s.candidate := Candidate(project, name, start, start, Open, None, None)])
      else e == db
  {
    hide Inv;
    hide Alone;
    hide CandidateName;
    var request := OpenCandidate(project, name, branch, base);
    if BranchHead(db, project, branch).Ok? {
      HeadStored(db, project, branch);
    }
    if Begin(db, request).Err? {
      AloneFails(db, request, s);
    } else {
      AloneIs(db, request, s, Begin(db, request).value);
      assert forall c :: c in db.candidates ==> (OpenNamed(db.candidates[c], project, name) <==>
        db.candidates[c].status == Open && db.candidates[c].project == project && db.candidates[c].name == name);
    }
  }

  /** A qualification is recorded of the head that an open candidate has. It passes at the syntactic level; at the
      compiler's it is what the compiler says, which is not asked without documents. */
  lemma QualifyAlone(db: Db, id: CandidateId, level: Level, expected: Option<Rev>, compiler: CompilerVerdict, s: Supplies)
    requires Inv(db)
    ensures var e := Alone(db, Qualify(id, level, expected, compiler), s);
      if id in db.candidates && db.candidates[id].status.Open? && Expected(db.candidates[id].head, expected) && s.qualification !in db.qualifications
      then
        var head := db.candidates[id].head;
        head in db.revisions &&
        var outcome :=
          if level.Syntactic? || db.revisions[head].modules == map[] then Passed
          else match compiler case CompilerMissing => Unavailable case Verdict(valid) => if valid then Passed else Failed;
        e == db.(qualifications := db.qualifications[s.qualification := Qualification(id, head, level, outcome, s.now)])
      else e == db
  {
    hide Inv;
    hide Alone;
    hide AllValid;
    hide OnChain;
    var request := Qualify(id, level, expected, compiler);
    if id in db.candidates {
      CandidateIs(db, id);
      ModulesValid(db, db.candidates[id].head);
    }
    if Begin(db, request).Err? {
      AloneFails(db, request, s);
    } else {
      AloneIs(db, request, s, Begin(db, request).value);
    }
  }

  /** The newest qualification, by time and then by id, is a pass of this head at this level. */
  ghost predicate NewestPasses(db: Db, id: CandidateId, head: Rev, level: Level) {
    exists q :: q in db.qualifications && db.qualifications[q] == Qualification(id, head, level, Passed, db.qualifications[q].createdAt)
      && forall p :: p in db.qualifications && p != q && db.qualifications[p].candidate == id ==>
           db.qualifications[p].createdAt < db.qualifications[q].createdAt || (db.qualifications[p].createdAt == db.qualifications[q].createdAt && p < q)
  }

  lemma NewestIsQualified(db: Db, id: CandidateId, head: Rev, level: Level)
    ensures Qualified(db, id, head, level) <==> NewestPasses(db, id, head, level)
  {
    if Qualified(db, id, head, level) {
      var q :| Latest(db, id, q) && IsPass(db.qualifications[q], id, head, level);
      assert q in db.qualifications;
    }
    if NewestPasses(db, id, head, level) {
      var q :| q in db.qualifications && db.qualifications[q] == Qualification(id, head, level, Passed, db.qualifications[q].createdAt)
        && forall p :: p in db.qualifications && p != q && db.qualifications[p].candidate == id ==>
             db.qualifications[p].createdAt < db.qualifications[q].createdAt || (db.qualifications[p].createdAt == db.qualifications[q].createdAt && p < q);
      assert Latest(db, id, q);
    }
  }

  /** A publication goes through exactly when the candidate is open at the expected head, the level it asks for is
      what the newest qualification passed at, and the branch is at the expected base: the one it names, or the
      candidate's own. Then the branch is at the candidate's head and the candidate is closed. */
  lemma PublishAlone(db: Db, id: CandidateId, branch: string, level: Option<Level>, expected: Option<Rev>, base: Option<Rev>, s: Supplies)
    requires Inv(db)
    ensures var e := Alone(db, Publish(id, branch, level, expected, base), s);
      if id in db.candidates && db.candidates[id].status.Open? && Expected(db.candidates[id].head, expected)
         && (level.Some? ==> NewestPasses(db, id, db.candidates[id].head, level.value))
         && var b := StoreSpec.Branch(db.candidates[id].project, branch);
           b in db.branches && db.branches[b] == if base.Some? && base.value != "" then base.value else db.candidates[id].base
      then
        var c := db.candidates[id];
        e == db.(branches := db.branches[StoreSpec.Branch(c.project, branch) := c.head],
                 candidates := db.candidates[id := c.(status := Published, publishedBranch := Some(branch), publishedRevision := Some(c.head))])
      else e == db
  {
    hide Inv;
    hide Alone;
    hide Qualified;
    hide NewestPasses;
    hide OnChain;
    var request := Publish(id, branch, level, expected, base);
    if Begin(db, request).Err? {
      AloneFails(db, request, s);
    } else {
      CandidateIs(db, id);
      if level.Some? {
        NewestIsQualified(db, id, db.candidates[id].head, level.value);
      }
      AloneTwice(db, request, s, Begin(db, request).value);
    }
  }

  lemma AbandonAlone(db: Db, id: CandidateId, s: Supplies)
    ensures Alone(db, Abandon(id), s) ==
      if id in db.candidates && db.candidates[id].status.Open?
      then db.(candidates := db.candidates[id := db.candidates[id].(status := Abandoned)]) else db
  {
    hide Alone;
    if Begin(db, Abandon(id)).Err? {
      AloneFails(db, Abandon(id), s);
    } else {
      AloneIs(db, Abandon(id), s, ReadyAbandon(id));
    }
  }

  /** An open candidate above its base steps down to its head's first parent. */
  lemma RevertAlone(db: Db, id: CandidateId, s: Supplies)
    requires Inv(db)
    ensures var e := Alone(db, Revert(id), s);
      if id in db.candidates && db.candidates[id].status.Open? && db.candidates[id].head != db.candidates[id].base
      then
        var head := db.candidates[id].head;
        && head in db.revisions && db.revisions[head].parent1.Some?
        && e == db.(candidates := db.candidates[id := db.candidates[id].(head := db.revisions[head].parent1.value)])
      else e == db
  {
    hide Inv;
    hide Alone;
    if id in db.candidates {
      CandidateIs(db, id);
      var c := db.candidates[id];
      if c.head != c.base {
        var n: nat :| Forebear(db.revisions, c.head, n) == Some(c.base);
      }
    }
    if Begin(db, Revert(id)).Err? {
      AloneFails(db, Revert(id), s);
    } else {
      AloneIs(db, Revert(id), s, Begin(db, Revert(id)).value);
    }
  }
}
