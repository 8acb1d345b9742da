/** Runs from the empty store that show what publication does not promise: the newest qualification need not
    be the last, and a branch need not move forward (src/weave_frontend/edit_candidates.py). */
module Scenarios {
  import opened Prelude
  import opened Chars
  import opened Trees
  import opened Validity
  import opened Graphs
  import opened RevisionDag
  import opened Revisions
  import opened StoreSpec
  import opened StoreRuns
  import opened TreeTables
  import BatchEdit
  import BatchSpec
  import Documents

  // ----- the newest qualification

  /** Whatever has been recorded, one qualification is the newest. */
  lemma {:induction false} LatestExists(db: Db, candidate: CandidateId, among: set<QualificationId>, some: QualificationId)
    returns (q: QualificationId)
    requires among <= db.qualifications.Keys && some in among && db.qualifications[some].candidate == candidate
    ensures q in among && db.qualifications[q].candidate == candidate
    ensures forall p :: p in among && db.qualifications[p].candidate == candidate ==> NoLater(db, p, q)
    decreases |among|
  {
    q := some;
    if x :| x in among && x != some && db.qualifications[x].candidate == candidate {
      q := LatestExists(db, candidate, among - {some}, x);
      q := if NoLater(db, some, q) then q else some;
    }
  }

  ghost predicate NoLater(db: Db, p: QualificationId, q: QualificationId)
    requires p in db.qualifications && q in db.qualifications
  {
    db.qualifications[p].createdAt < db.qualifications[q].createdAt ||
    (db.qualifications[p].createdAt == db.qualifications[q].createdAt && p <= q)
  }

  /** The qualification recorded last is the newest exactly when its time is later than the newest one's
      before it, or the same with a larger id; the first of its candidate always is. */
  lemma NewestExactly(db: Db, e: Db, candidate: CandidateId, head: Rev, level: Level, outcome: Outcome, q: QualificationId, now: nat)
    requires QualifyTx(db, candidate, head, level, outcome, q, now) == Ok(e)
    ensures Latest(e, candidate, q) <==>
      forall p :: Latest(db, candidate, p) ==> now > db.qualifications[p].createdAt || (now == db.qualifications[p].createdAt && q > p)
    ensures (exists p :: Latest(db, candidate, p)) <==> exists x :: x in db.qualifications && db.qualifications[x].candidate == candidate
  {
    assert e.qualifications[q] == Qualification(candidate, head, level, outcome, now);
    if x :| x in db.qualifications && db.qualifications[x].candidate == candidate {
      var p := LatestExists(db, candidate, db.qualifications.Keys, x);
      assert Latest(db, candidate, p);
      assert p != q && e.qualifications[p] == db.qualifications[p];
    }
    forall x | x in e.qualifications && x != q ensures x in db.qualifications && e.qualifications[x] == db.qualifications[x] {
    }
  }

  // ----- runs of one writer

  lemma {:induction false} RunOn(s: System, first: seq<Action>, second: seq<Action>)
    ensures Run(s, first + second) == Run(Run(s, first), second)
    decreases |second|
  {
    hide Step;
    var all := first + second;
    if second == [] {
      assert all == first;
    } else {
      assert all[..|all| - 1] == first + second[..|second| - 1];
      RunOn(s, first, second[..|second| - 1]);
    }
  }

  /** One writer makes its request and commits it. */
  function Once(request: Request, s: Supplies): seq<Action> {
    [Start(0, request), Continue(0, s)]
  }

  lemma OnceIs(db: Db, request: Request, c: Captured, s: Supplies, next: Db)
    requires Begin(db, request) == Ok(c) && !c.HalfMerge? && !c.UncheckedPublish? && Finish(db, c, s) == Ok(next)
    ensures Run(System(db, map[]), Once(request, s)) == System(next, map[])
  {
    hide Begin;
    hide Finish;
    var start, actions := System(db, map[]), Once(request, s);
    var mid := System(db, map[0 := c]);
    assert Step(start, actions[0]) == mid;
    assert Advance(db, c, s) == Ok(Progress(next, None));
    assert mid.writers - {0} == map[];
    assert Step(mid, actions[1]) == System(next, map[]);
    assert actions[..1] == [actions[0]] && actions[..1][..0] == [];
    assert Run(start, actions[..1]) == Step(Run(start, []), actions[0]);
  }

  /** One writer publishes: it reads the candidate, checks the level and commits. */
  function ToPublish(request: Request, s: Supplies): seq<Action> {
    [Start(0, request), Continue(0, s), Continue(0, s)]
  }

  lemma ThreeSteps(s: System, x: Action, y: Action, z: Action)
    ensures Run(s, [x, y, z]) == Step(Step(Step(s, x), y), z)
  {
    hide Step;
    assert [x, y, z][..2] == [x, y] && [x, y][..1] == [x] && [x][..0] == [];
    assert Run(s, [x]) == Step(Run(s, []), x);
    assert Run(s, [x, y]) == Step(Run(s, [x]), y);
  }

  lemma PublishIs(db: Db, request: Request, c: Captured, s: Supplies, next: Db)
    requires Begin(db, request) == Ok(c) && c.UncheckedPublish?
    requires c.required.None? || Qualified(db, c.candidate, c.head, c.required.value)
    requires PublishTx(db, c.candidate, c.project, c.branch, c.head, c.base) == Ok(next)
    ensures Run(System(db, map[]), ToPublish(request, s)) == System(next, map[])
  {
    hide Begin;
    hide PublishTx;
    hide Qualified;
    hide Run;
    var start := System(db, map[]);
    var ready := ReadyPublish(c.candidate, c.project, c.head, c.base, c.branch, c.required);
    ThreeSteps(start, Start(0, request), Continue(0, s), Continue(0, s));
    assert Step(start, Start(0, request)) == System(db, map[0 := c]);
    assert Step(System(db, map[0 := c]), Continue(0, s)) == System(db, map[0 := ready]);
    assert map[0 := ready] - {0} == map[];
  }

  // A revision on parents without documents.
  lemma Inserting(db: Db, id: Rev, r: Revision)
    requires id !in db.revisions && r.documents <= db.contents.Values && InheritedDocuments(db, r.parent1) == {}
    requires ParentKnown(db.revisions, r.project, r.parent1) && ParentKnown(db.revisions, r.project, r.parent2)
    ensures InsertRevision(db, id, r) == Ok(db.(revisions := db.revisions[id := r]))
  {
    assert r.(documents := r.documents + {}) == r;
  }

  /** A direct write that puts documents in. */
  lemma WriteIs(db: Db, b: Branch, base: Rev, change: Change, operation: Operation, modules: Snapshot, s: Supplies)
    requires b in db.branches && db.branches[b] == base && InProject(db, b.project, base) && db.revisions[base].documents == {}
    requires !change.Attach? && Changed(db.revisions[base].modules, change) == Ok(modules) && s.revision !in db.revisions
    ensures var r := Revision(b.project, Some(base), None, modules, {}, [operation]);
      Run(System(db, map[]), Once(Write(b.project, b.name, None, change, operation), s)) ==
      System(db.(revisions := db.revisions[s.revision := r], branches := db.branches[b := s.revision]), map[])
  {
    hide Changed;
    var r := Revision(b.project, Some(base), None, modules, {}, [operation]);
    assert StoreSpec.Branch(b.project, b.name) == b;
    Inserting(db, s.revision, r);
    var commit := Commit(b.project, b.name, map[b.name := base], None, modules, [operation], None);
    OnceIs(db, Write(b.project, b.name, None, change, operation), ReadyCommit(commit), s,
           db.(revisions := db.revisions[s.revision := r], branches := db.branches[b := s.revision]));
  }

  /** A direct write that attaches a new content document. */
  lemma AttachIs(db: Db, b: Branch, base: Rev, content: Content, operation: Operation, s: Supplies)
    requires b in db.branches && db.branches[b] == base && InProject(db, b.project, base) && db.revisions[base].documents == {}
    requires db.contents == map[] && s.revision !in db.revisions
    ensures var modules := db.revisions[base].modules;
      var commit := ReadyCommit(Commit(b.project, b.name, map[b.name := base], None, modules, [operation], Some(content)));
      var r := Revision(b.project, Some(base), None, modules, {s.document}, [operation]);
      && Begin(db, Write(b.project, b.name, None, Attach(content), operation)) == Ok(commit)
      && Finish(db, commit, s) == Ok(db.(revisions := db.revisions[s.revision := r], branches := db.branches[b := s.revision], contents := map[content := s.document]))
  {
    var modules := db.revisions[base].modules;
    var r := Revision(b.project, Some(base), None, modules, {s.document}, [operation]);
    var stored := db.(contents := map[content := s.document]);
    assert db.contents[content := s.document] == stored.contents && content in stored.contents && stored.contents[content] in stored.contents.Values;
    assert StoreSpec.Branch(b.project, b.name) == b;
    Inserting(stored, s.revision, r);
  }

  /** A batch on a candidate. */
  lemma EditIs(db: Db, id: CandidateId, batch: Batch, modules: Snapshot, log: seq<Operation>, s: Supplies)
    requires id in db.candidates && db.candidates[id].status.Open? && InProject(db, db.candidates[id].project, db.candidates[id].head)
    requires db.revisions[db.candidates[id].head].documents == {} && s.revision !in db.revisions
    requires Edited(db.revisions[db.candidates[id].head].modules, batch) == Ok((modules, log))
    ensures var c := db.candidates[id];
      var r := Revision(c.project, Some(c.head), None, modules, {}, log);
      Run(System(db, map[]), Once(StoreRuns.Edit(id, Some(c.head), batch), s)) ==
      System(db.(revisions := db.revisions[s.revision := r], candidates := db.candidates[id := c.(head := s.revision)]), map[])
  {
    hide Edited;
    var c := db.candidates[id];
    var r := Revision(c.project, Some(c.head), None, modules, {}, log);
    Inserting(db, s.revision, r);
    OnceIs(db, StoreRuns.Edit(id, Some(c.head), batch), ReadyEdit(id, c.head, modules, log), s,
           db.(revisions := db.revisions[s.revision := r], candidates := db.candidates[id := c.(head := s.revision)]));
  }

  /** A qualification at the compiler's level of a head that has documents. */
  lemma QualifyIs(db: Db, id: CandidateId, valid: bool, s: Supplies)
    requires id in db.candidates && db.candidates[id].status.Open? && db.candidates[id].head in db.revisions
    requires db.revisions[db.candidates[id].head].modules != map[] && AllValid(db.revisions[db.candidates[id].head].modules)
    requires s.qualification !in db.qualifications
    ensures var q := Qualification(id, db.candidates[id].head, Compiler, if valid then Passed else Failed, s.now);
      Run(System(db, map[]), Once(Qualify(id, Compiler, None, Verdict(valid)), s)) ==
      System(db.(qualifications := db.qualifications[s.qualification := q]), map[])
  {
    hide AllValid;
    var head := db.candidates[id].head;
    var q := Qualification(id, head, Compiler, if valid then Passed else Failed, s.now);
    OnceIs(db, Qualify(id, Compiler, None, Verdict(valid)), ReadyQualify(id, head, Compiler, q.outcome), s,
           db.(qualifications := db.qualifications[s.qualification := q]));
  }

  // ----- a document, and one edit of it

  const EMPTY_TREE := List("n_a", [])
  const EDITED_TREE := List("n_a", [Leaf("n_b", Symbol("x"))])
  const FIELDS: BatchSpec.Fields := map[
    "op" := BatchSpec.JStr("add_atom"), "parent" := BatchSpec.JStr("n_a"),
    "kind" := BatchSpec.JStr("symbol"), "value" := BatchSpec.JStr("x")]
  const ADD_ATOM := BatchSpec.Request(FIELDS)
  const IDS: Supply := (n: nat) => "n_" + seq(n + 1, i => 'b')
  const BATCH := StoreRuns.Batch("m", [ADD_ATOM], IDS)
  const ADDED := Operation("add_atom", Some("n_a"))

  lemma EmptyTreeValid()
    ensures ValidTree(EMPTY_TREE) && Rows(EMPTY_TREE) == map["n_a" := ListRow([])]
  {
    assert CleanId("n_a");
    assert IdSet(EMPTY_TREE) == {"n_a"};
    assert Ids(EMPTY_TREE.children) == [];
  }

  /** An atom put into an empty list. */
  lemma AddAtomIs(d: BatchSpec.Doc, raw: BatchSpec.Fields, newId: Supply, parent: NodeId, kind: string, a: Atom)
    requires raw.Keys <= BatchSpec.ATOM_FIELDS && "value" in raw && BatchSpec.Resolve(BatchSpec.Get(raw, "parent"), d.aliases) == Ok(parent)
    requires BatchSpec.RequiredString(raw, "kind") == Ok(kind) && kind in BatchSpec.ATOM_KINDS && BatchSpec.MakeAtom(kind, raw["value"]) == Ok(a)
    requires BatchSpec.Get(raw, "node_id") == BatchSpec.Get(raw, "position") == BatchSpec.Get(raw, "as") == BatchSpec.JNull
    requires parent in d.rows && d.rows[parent] == ListRow([])
    ensures BatchSpec.AddAtom(d, raw, newId) ==
      Ok(d.(rows := d.rows[parent := ListRow([newId(d.next)])][newId(d.next) := AtomRow(a)],
            next := d.next + 1, created := d.created + 1, log := d.log + [("add_atom", parent)]))
  {
    hide BatchSpec.Resolve;
    hide BatchSpec.RequiredString;
    hide BatchSpec.MakeAtom;
    assert InsertAt([], 0, newId(d.next)) == [newId(d.next)];
    hide InsertAt;
  }

  lemma RequestFields()
    ensures var raw := FIELDS;
      && raw.Keys == {"op", "parent", "kind", "value"} && raw["op"] == BatchSpec.JStr("add_atom") && raw["parent"] == BatchSpec.JStr("n_a")
      && raw["kind"] == BatchSpec.JStr("symbol") && raw["value"] == BatchSpec.JStr("x")
  {
  }

  lemma RequestParts(aliases: BatchSpec.Aliases)
    ensures var raw := FIELDS;
      && raw.Keys <= BatchSpec.ATOM_FIELDS && "value" in raw && BatchSpec.Resolve(BatchSpec.Get(raw, "parent"), aliases) == Ok("n_a")
      && BatchSpec.RequiredString(raw, "kind") == Ok("symbol") && "symbol" in BatchSpec.ATOM_KINDS
      && BatchSpec.MakeAtom("symbol", raw["value"]) == Ok(Symbol("x"))
      && BatchSpec.Get(raw, "node_id") == BatchSpec.Get(raw, "position") == BatchSpec.Get(raw, "as") == BatchSpec.JNull
      && BatchSpec.Get(raw, "op") == BatchSpec.JStr("add_atom")
  {
    hide FIELDS;
    RequestFields();
    assert "n_a"[0] != '@';
  }

  lemma AtomAdded(d: BatchSpec.Doc)
    requires d.rows == map["n_a" := ListRow([])] && d.aliases == map[] && d.next == 0
    ensures BatchSpec.Edit(d, ADD_ATOM, IDS) ==
      Ok(d.(rows := map["n_a" := ListRow(["n_b"]), "n_b" := AtomRow(Symbol("x"))], next := 1, created := d.created + 1, log := d.log + [("add_atom", "n_a")]))
  {
    hide BatchSpec.AddAtom;
    hide BatchSpec.Resolve;
    hide BatchSpec.RequiredString;
    hide BatchSpec.MakeAtom;
    hide BatchSpec.Get;
    hide FIELDS;
    assert IDS(0) == "n_b";
    RequestParts(d.aliases);
    AddAtomIs(d, FIELDS, IDS, "n_a", "symbol", Symbol("x"));
    assert d.rows["n_a" := ListRow(["n_b"])]["n_b" := AtomRow(Symbol("x"))] == map["n_a" := ListRow(["n_b"]), "n_b" := AtomRow(Symbol("x"))];
  }

  /** The executor accepts the batch and gives the document with one atom more. */
  lemma BatchApplied()
    ensures ValidTree(EDITED_TREE)
    ensures Edited(map["m" := EMPTY_TREE], BATCH) == Ok((map["m" := EDITED_TREE], [ADDED]))
  {
    hide Documents.Transformed;
    hide ValidTree;
    BatchTransformed();
    var state := map["m" := EMPTY_TREE];
    assert state["m"] == EMPTY_TREE && state["m" := EDITED_TREE] == map["m" := EDITED_TREE];
    assert Logged([("add_atom", "n_a")]) == [ADDED];
  }

  lemma BatchTransformed()
    ensures ValidTree(EDITED_TREE)
    ensures Documents.Transformed(EMPTY_TREE, [ADD_ATOM], IDS) == Ok(Documents.Transformation(EDITED_TREE, [("add_atom", "n_a")]))
  {
    hide *;
    var d := Documents.StartOf(EMPTY_TREE);
    EmptyDoc();
    AtomAdded(d);
    RunOne(d, ADD_ATOM, IDS);
    EditedShown();
    assert d.log + [("add_atom", "n_a")] == [("add_atom", "n_a")];
    var rows := map["n_a" := ListRow(["n_b"]), "n_b" := AtomRow(Symbol("x"))];
    BatchDone(d, d.(rows := rows, next := 1, created := d.created + 1, log := d.log + [("add_atom", "n_a")]), EDITED_TREE);
  }

  lemma EmptyDoc()
    ensures var d := Documents.StartOf(EMPTY_TREE);
      d.rows == map["n_a" := ListRow([])] && d.aliases == map[] && d.next == 0 && d.root == "n_a" && d.log == []
  {
    hide ValidTree;
    EmptyTreeValid();
  }

  lemma EditedShown()
    ensures ValidTree(EDITED_TREE) && Unique(EDITED_TREE) && EDITED_TREE.id == "n_a"
    ensures Rows(EDITED_TREE) == map["n_a" := ListRow(["n_b"]), "n_b" := AtomRow(Symbol("x"))]
  {
    hide Rows;
    hide IdOk;
    IdsOk();
    BatchEdit.FormValid("n_a", "n_b", "x");
  }

  lemma BatchDone(d: BatchSpec.Doc, e: BatchSpec.Doc, t: Tree)
    requires d == Documents.StartOf(EMPTY_TREE) && BatchSpec.Run(d, [ADD_ATOM], IDS) == Ok(e)
    requires Unique(t) && t.id == e.root && Rows(t) == e.rows && ValidTree(t)
    ensures Documents.Transformed(EMPTY_TREE, [ADD_ATOM], IDS) == Ok(Documents.Transformation(t, e.log))
  {
    hide BatchSpec.Run;
    hide ValidTree;
    hide Rows;
    hide Unique;
    hide Documents.Transformed;
    Documents.TransformedIs(EMPTY_TREE, [ADD_ATOM], IDS, e, t);
  }

  lemma RunOne(d: BatchSpec.Doc, request: BatchSpec.Request, newId: Supply)
    ensures BatchSpec.Run(d, [request], newId) == BatchSpec.Edit(d, request, newId)
  {
    hide BatchSpec.Edit;
    assert [request][..0] == [];
  }

  lemma IdsOk()
    ensures IdOk("n_a") && IdOk("n_b") && "n_a" != "n_b" && Utf8("x") <= MAX_ATOM_VALUE_BYTES
  {
    assert CleanId("n_a") && CleanId("n_b");
    assert "n_a"[2] != "n_b"[2];
  }

  // ----- a pass that hides a later failure

  const MAIN := StoreSpec.Branch("p", "main")
  const CREATED := Operation("create_program", Some("n_a"))
  const ROOT := Revision("p", None, None, map[], {}, [])
  const FIRST := Revision("p", Some("r"), None, map["m" := EMPTY_TREE], {}, [CREATED])
  const EDIT := Revision("p", Some("w"), None, map["m" := EDITED_TREE], {}, [ADDED])
  const CANDIDATE := Candidate("p", "edit", "w", "s", Open, None, None)
  const PASS := Qualification("c", "s", Compiler, Passed, 7)
  const FAILURE := Qualification("c", "s", Compiler, Failed, 7)

  const INITIALIZED := Db(map["r" := ROOT], map[MAIN := "r"], map[], map[], map[])
  const STARTED := INITIALIZED.(revisions := map["r" := ROOT, "w" := FIRST], branches := map[MAIN := "w"])
  const OPENED := STARTED.(candidates := map["c" := CANDIDATE.(head := "w")])
  const EDITED := STARTED.(revisions := map["r" := ROOT, "w" := FIRST, "s" := EDIT], candidates := map["c" := CANDIDATE])
  const PASSED := EDITED.(qualifications := map[2 := PASS])
  const FAILED := EDITED.(qualifications := map[2 := PASS, 1 := FAILURE])

  // What the steps below take from outside.
  function Given(revision: Rev, q: QualificationId): Supplies {
    Supplies(revision, "d", "c", q, 7, "r", map[])
  }

  const CREATE := Write("p", "main", None, Create("m", EMPTY_TREE), CREATED)
  const OPEN := OpenCandidate("p", "edit", "main", None)
  const APPLY := StoreRuns.Edit("c", Some("w"), BATCH)
  const COMPILES := Qualify("c", Compiler, None, Verdict(true))
  const COMPILES_NOT := Qualify("c", Compiler, None, Verdict(false))

  lemma Initializing()
    ensures Run(EMPTY, Once(Initialize("p"), Given("r", 0))) == System(INITIALIZED, map[])
  {
    Inserting(EMPTY.db, "r", ROOT);
    assert EMPTY.db.revisions["r" := ROOT] == INITIALIZED.revisions && EMPTY.db.branches[MAIN := "r"] == INITIALIZED.branches;
    OnceIs(EMPTY.db, Initialize("p"), ReadyInitialize("p"), Given("r", 0), INITIALIZED);
  }

  lemma Starting()
    ensures Run(System(INITIALIZED, map[]), Once(CREATE, Given("w", 0))) == System(STARTED, map[])
  {
    hide ValidTree;
    hide Run;
    hide Once;
    EmptyTreeValid();
    assert INITIALIZED.revisions["r"] == ROOT && ROOT.modules["m" := EMPTY_TREE] == FIRST.modules;
    WriteIs(INITIALIZED, MAIN, "r", Create("m", EMPTY_TREE), CREATED, FIRST.modules, Given("w", 0));
    assert INITIALIZED.revisions["w" := FIRST] == STARTED.revisions && INITIALIZED.branches[MAIN := "w"] == STARTED.branches;
  }

  lemma Opening()
    ensures Run(System(STARTED, map[]), Once(OPEN, Given("r", 0))) == System(OPENED, map[])
  {
    var name := "edit";
    forall i | 1 <= i < |name| ensures IdChar(name[i]) {
      assert name[i] == if i == 1 then 'd' else if i == 2 then 'i' else 't';
    }
    assert STARTED.revisions["w"] == FIRST;
    OnceIs(STARTED, OPEN, ReadyOpen("p", "edit", "w"), Given("r", 0), OPENED);
  }

  lemma Editing()
    ensures Run(System(OPENED, map[]), Once(APPLY, Given("s", 0))) == System(EDITED, map[])
  {
    hide *;
    BatchApplied();
    OpenedDb();
    EditedDb();
    EditIs(OPENED, "c", BATCH, map["m" := EDITED_TREE], [ADDED], Given("s", 0));
  }

  lemma OpenedDb()
    ensures "c" in OPENED.candidates && OPENED.candidates["c"] == Candidate("p", "edit", "w", "w", Open, None, None)
    ensures InProject(OPENED, "p", "w") && OPENED.revisions["w"].documents == {} && OPENED.revisions["w"].modules == map["m" := EMPTY_TREE]
    ensures "s" !in OPENED.revisions && Given("s", 0).revision == "s" && APPLY == StoreRuns.Edit("c", Some("w"), BATCH)
  {
    assert OPENED.revisions["w"] == FIRST;
  }

  lemma EditedDb()
    ensures EDITED == OPENED.(
      revisions := OPENED.revisions["s" := Revision("p", Some("w"), None, map["m" := EDITED_TREE], {}, [ADDED])],
      candidates := OPENED.candidates["c" := Candidate("p", "edit", "w", "s", Open, None, None)])
  {
    assert OPENED.revisions["s" := EDIT] == EDITED.revisions && OPENED.candidates["c" := CANDIDATE] == EDITED.candidates;
  }

  lemma Passing()
    ensures Run(System(EDITED, map[]), Once(COMPILES, Given("s", 2))) == System(PASSED, map[])
  {
    hide ValidTree;
    hide Run;
    hide Once;
    BatchApplied();
    assert EDITED.revisions["s"] == EDIT && "m" in EDIT.modules && AllValid(EDIT.modules);
    QualifyIs(EDITED, "c", true, Given("s", 2));
    assert EDITED.qualifications[2 := PASS] == PASSED.qualifications;
  }

  lemma Failing()
    ensures Run(System(PASSED, map[]), Once(COMPILES_NOT, Given("s", 1))) == System(FAILED, map[])
  {
    hide ValidTree;
    hide Run;
    hide Once;
    BatchApplied();
    assert PASSED.revisions["s"] == EDIT && "m" in EDIT.modules && AllValid(EDIT.modules);
    QualifyIs(PASSED, "c", false, Given("s", 1));
    assert PASSED.qualifications[1 := FAILURE] == FAILED.qualifications;
  }

  // The steps up to the open candidate, up to the pass, and those of the failure after it.
  function UntilOpen(): seq<Action> {
    Once(Initialize("p"), Given("r", 0)) + Once(CREATE, Given("w", 0)) + Once(OPEN, Given("r", 0))
  }

  function UntilPass(): seq<Action> {
    UntilOpen() + Once(APPLY, Given("s", 0)) + Once(COMPILES, Given("s", 2))
  }

  function UntilFailure(): seq<Action> {
    Once(COMPILES_NOT, Given("s", 1))
  }

  lemma Opened()
    ensures Run(EMPTY, UntilOpen()) == System(OPENED, map[])
  {
    hide Run;
    hide Once;
    var a, b := Once(Initialize("p"), Given("r", 0)), Once(CREATE, Given("w", 0));
    Initializing();
    Starting();
    RunOn(EMPTY, a, b);
    Opening();
    RunOn(EMPTY, a + b, Once(OPEN, Given("r", 0)));
  }

  lemma Recorded()
    ensures Run(EMPTY, UntilPass()) == System(PASSED, map[])
  {
    hide Run;
    hide Once;
    hide UntilOpen;
    Opened();
    Editing();
    RunOn(EMPTY, UntilOpen(), Once(APPLY, Given("s", 0)));
    Passing();
    RunOn(EMPTY, UntilOpen() + Once(APPLY, Given("s", 0)), Once(COMPILES, Given("s", 2)));
  }

  const REQUEST := Publish("c", "main", Some(Compiler), None, None)
  const PUBLISHED := FAILED.(
    branches := map[MAIN := "s"],
    candidates := map["c" := CANDIDATE.(status := Published, publishedBranch := Some("main"), publishedRevision := Some("s"))])

  lemma PublishedAnyway()
    ensures Run(System(FAILED, map[]), ToPublish(REQUEST, Given("s", 0))) == System(PUBLISHED, map[])
  {
    hide Run;
    hide ToPublish;
    hide Qualified;
    StillQualified();
    assert FAILED.revisions["s"] == EDIT;
    assert FAILED.branches[MAIN := "s"] == PUBLISHED.branches;
    assert FAILED.candidates["c" := PUBLISHED.candidates["c"]] == PUBLISHED.candidates;
    PublishIs(FAILED, REQUEST, UncheckedPublish("c", "p", "s", "w", "main", Some(Compiler)), Given("s", 0), PUBLISHED);
  }

  lemma StillQualified()
    ensures Qualified(FAILED, "c", "s", Compiler)
  {
    assert FAILED.qualifications[2] == PASS && FAILED.qualifications[1] == FAILURE;
    assert Latest(FAILED, "c", 2) && IsPass(PASS, "c", "s", Compiler);
  }

  /** Qualifications carry the time in whole seconds and are then ordered by a random id, so the newest one
      by that order need not be the last recorded. From the empty store a document is created and edited on
      a candidate, the candidate's head passes, the same head then fails to compile in the same second, and
      the publication that asks for the level still goes through. */
  lemma NewestIsNotLast()
    returns (passing: seq<Action>, failing: seq<Action>, publishing: seq<Action>)
    ensures var s := Run(EMPTY, passing);
      var t := Run(s, failing);
      var u := Run(t, publishing);
      && s.db.qualifications == map[2 := PASS]
      && t == s.(db := s.db.(qualifications := s.db.qualifications[1 := FAILURE]))
      && t.db.branches == map[MAIN := "w"] && u.db.branches == map[MAIN := "s"]
    ensures failing == Once(COMPILES_NOT, Given("s", 1)) && publishing == ToPublish(REQUEST, Given("s", 0))
  {
    hide Run;
    passing, failing, publishing := UntilPass(), UntilFailure(), ToPublish(REQUEST, Given("s", 0));
    Recorded();
    Failing();
    PublishedAnyway();
    assert PASSED.qualifications[1 := FAILURE] == FAILED.qualifications;
  }

  // ----- a publication that takes a branch back

  const NOTE := Content("project", "p", "note", "text")
  const NOTED := Operation("add_context", Some("p"))
  const WRITE := Write("p", "main", None, Attach(NOTE), NOTED)
  const STALE_WRITE := ReadyCommit(Commit("p", "main", map["main" := "w"], None, map["m" := EMPTY_TREE], [NOTED], Some(NOTE)))
  const WITH_NOTE := Revision("p", Some("w"), None, map["m" := EMPTY_TREE], {"d"}, [NOTED])
  const WRITTEN := OPENED.(
    revisions := map["r" := ROOT, "w" := FIRST, "s" := WITH_NOTE], branches := map[MAIN := "s"], contents := map[NOTE := "d"])
  const OTHER_BASE := Publish("c", "main", None, None, Some("s"))
  const TAKEN_BACK := WRITTEN.(
    branches := map[MAIN := "w"],
    candidates := map["c" := OPENED.candidates["c"].(status := Published, publishedBranch := Some("main"), publishedRevision := Some("w"))])

  lemma Writing()
    ensures Begin(OPENED, WRITE) == Ok(STALE_WRITE)
    ensures Run(System(OPENED, map[]), Once(WRITE, Given("s", 0))) == System(WRITTEN, map[])
  {
    hide Begin;
    hide Finish;
    hide Run;
    hide Once;
    assert OPENED.revisions["w"] == FIRST;
    AttachIs(OPENED, MAIN, "w", NOTE, NOTED, Given("s", 0));
    assert OPENED.revisions["s" := WITH_NOTE] == WRITTEN.revisions && OPENED.branches[MAIN := "s"] == WRITTEN.branches;
    OnceIs(OPENED, WRITE, STALE_WRITE, Given("s", 0), WRITTEN);
  }

  lemma TakingBack()
    ensures Run(System(WRITTEN, map[]), ToPublish(OTHER_BASE, Given("s", 0))) == System(TAKEN_BACK, map[])
  {
    assert WRITTEN.revisions["w"] == FIRST;
    assert WRITTEN.branches[MAIN := "w"] == TAKEN_BACK.branches;
    assert WRITTEN.candidates["c" := TAKEN_BACK.candidates["c"]] == TAKEN_BACK.candidates;
    PublishIs(WRITTEN, OTHER_BASE, UncheckedPublish("c", "p", "w", "s", "main", None), Given("s", 0), TAKEN_BACK);
  }

  lemma StaleThenNot()
    ensures Stale(WRITTEN, STALE_WRITE) && Advance(TAKEN_BACK, STALE_WRITE, Given("t", 0)).Ok?
  {
    assert STALE_WRITE.commit.heads == map["main" := "w"];
    assert WRITTEN.branches[MAIN] == "s" && TAKEN_BACK.branches[MAIN] == "w" && TAKEN_BACK.revisions["w"] == FIRST;
    assert NOTE in TAKEN_BACK.contents && TAKEN_BACK.contents[NOTE] in TAKEN_BACK.contents.Values;
  }

  /** A publication that names its own base moves the branch to its candidate's head from wherever the branch
      is, so it can drop commits and bring back an old head; a write that had lost its race then goes
      through. From the empty store a candidate is opened at the first program, another writer attaches a
      note to the branch, and the candidate is published over that commit. */
  lemma BranchTakenBack()
    returns (opening: seq<Action>, writing: seq<Action>, publishing: seq<Action>)
    ensures var s := Run(EMPTY, opening);
      var t := Run(s, writing);
      var u := Run(t, publishing);
      && s.db.branches == map[MAIN := "w"] && t.db.branches == map[MAIN := "s"] && u.db.branches == map[MAIN := "w"]
      && Begin(s.db, WRITE) == Ok(STALE_WRITE) && Stale(t.db, STALE_WRITE) && Advance(u.db, STALE_WRITE, Given("t", 0)).Ok?
    ensures writing == Once(WRITE, Given("s", 0)) && publishing == ToPublish(OTHER_BASE, Given("s", 0))
  {
    hide Run;
    hide Begin;
    hide Stale;
    hide Advance;
    opening, writing, publishing := UntilOpen(), Once(WRITE, Given("s", 0)), ToPublish(OTHER_BASE, Given("s", 0));
    Opened();
    Writing();
    TakingBack();
    StaleThenNot();
  }
}
