/** What an edit batch makes of a document, and the executor as a function of it
    (src/weave_frontend/batch_edit.py). */
module Documents {
  import opened Prelude
  import opened Trees
  import opened Validity
  import opened TreeTables
  import opened BatchSpec
  import BatchLaws
  import opened BatchEdit

  datatype Transformation = Transformation(root: Tree, log: seq<(string, NodeId)>)

  ghost function StartOf(root: Tree): Doc {
    Doc(root.id, Rows(root), map[], 0, 0, 0, [])
  }

  /** A batch gives the valid tree of the table that its edits give. */
  ghost function Transformed(root: Tree, requests: seq<Request>, newId: Supply): Result<Transformation, EditError> {
    if |requests| == 0 then Err(EmptyBatch)
    else if |requests| > MAX_BATCH_OPERATIONS then Err(BatchTooLarge)
    else
      var d :- Run(StartOf(root), requests, newId);
      if exists t :: Shows(d, t) && ValidTree(t) then
        var t :| Shows(d, t) && ValidTree(t);
        Ok(Transformation(t, d.log))
      else Err(InvalidTree)
  }

  /** One tree at most has the root and the rows of a table. */
  lemma ShownOnce(d: Doc, t: Tree, u: Tree)
    requires Shows(d, t) && Shows(d, u)
    ensures t == u
  {
    hide Unique;
    TableDetermines(t, u);
  }

  /** So the outcome of a batch is fixed by any tree that shows the final table. */
  lemma TransformedIs(root: Tree, requests: seq<Request>, newId: Supply, d: Doc, t: Tree)
    requires 1 <= |requests| <= MAX_BATCH_OPERATIONS && Run(StartOf(root), requests, newId) == Ok(d) && Shows(d, t)
    ensures Transformed(root, requests, newId) == if ValidTree(t) then Ok(Transformation(t, d.log)) else Err(InvalidTree)
  {
    hide Run;
    hide ValidTree;
    forall u | Shows(d, u) ensures u == t {
      ShownOnce(d, t, u);
    }
    hide Shows;
  }

  /** The executor on a document: its outcome is the specified one, or a limit was passed on the way. */
  method Transform(root: Tree, requests: seq<Request>, newId: Supply) returns (r: Result<Transformation, EditError>)
    requires Unique(root) && GoodSupply(newId) && Unused(newId, 0, IdSet(root))
    requires forall i :: 0 <= i < |requests| ==> NoClash(requests[i], newId)
    ensures r == Transformed(root, requests, newId) || (r.Err? && (r.error == TooDeep || r.error == TooLarge))
    ensures r.Ok? ==> ValidTree(r.value.root) && r.value.root.id == root.id && |r.value.log| == |requests|
    ensures r.Ok? ==> exists d :: BatchLaws.Carries(StartOf(root), requests, newId, d) && Shows(d, r.value.root) && r.value.log == d.log
  {
    hide Run;
    hide ValidTree;
    hide Rows;
    hide Unique;
    hide WellFormed;
    hide NoClash;
    var editor := new Editor(root, newId);
    assert editor.Abs() == StartOf(root);
    var done := editor.Transform(requests);
    if done.Err? {
      if done.error == InvalidTree && Run(StartOf(root), requests, newId) == Ok(editor.Abs()) && Unique(editor.root) && !ValidTree(editor.root) {
        TransformedIs(root, requests, newId, editor.Abs(), editor.root);
      }
      return Err(done.error);
    }
    TransformedIs(root, requests, newId, editor.Abs(), editor.root);
    return Ok(Transformation(editor.root, editor.log));
  }
}
