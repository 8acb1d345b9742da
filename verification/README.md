# Jacquard: a verified model

Jacquard is a version-control system for program trees. A tree is a list with children or an atom with
a value, and every node has a stable id. Trees are printed, read, edited in batches, compared, merged
by id, and kept in a store of immutable revisions that branches and working candidates point into.

The model has nine parts that share the trees of `Trees.dfy` and the parent graphs of `Graphs.dfy`:

- **Merge** (`Merge`, `Merger`, `MergePaths`, `MergeIds`, `MergeTheorems`, `MergeOrder`, `MergeConflicts`): the
  three-way merge of ordered trees by id. What a merge contains is stated path by path, then uniqueness of ids, lost
  work, symmetry and sibling order follow, and each conflict is tied to what the three versions hold at its place.
- **Ancestry** (`Graphs`, `Kahn`, `RevisionDag`, `IntegrityCycles`): the two-sided search, shortest distances,
  the pass over child counts for best common ancestors, and the separate depth-first cycle inspection. Both
  cycle checks are proved against the same predicate, so they agree.
- **Text** (`Chars`, `Lexer`, `Atoms`, `Grammar`, `Validity`, `Limits`, `Printer`, `LineWidth`, `Layout`, `Parser`,
  `Forms`, `RoundTrip`, `AnnotatedTrip`, `AnnotatedLimits`, `AnnotatedView`): scanner, reader and printers. A text is
  treated as a layout of tokens, so the choice between one line and many does not matter for reading. The reader over a
  stream is proved to accept exactly one nested form and to read it as its parts mean.
- **Source map** (`SourceMap`, `Positions`, `NodeMaps`): the second canonical printer, its spans, and the node of a span.
- **Batch edits** (`TreeTables`, `TreeWalk`, `BatchSpec`, `Parents`, `BatchLaws`, `BatchEdit`, `Documents`): a tree edited in
  place refines edits of a flat table of rows, one for each node, which determines the tree. For each edit, the request and
  the two tables say when it goes through and what it does.
- **Store** (`Revisions`, `StoreSpec`, `StoreRuns`, `Merging`, `Effects`, `Scenarios`, `Store`): transactions on tables,
  writers that read, compute and commit in any interleaving, and a class that keeps the invariant of every
  such run. For each request, the store before it says when it goes through and what the store is after it.
- **Diff** (`Diff`, `DiffLaws`), **render estimate** (`Estimator`) and **manifest compatibility** (`Manifest`,
  `ManifestClasses`, `Callers`).

Where the source runs a loop or changes an object, the model has a method or a class proved against a
specification function or predicate, and the properties are lemmas about that specification.

## Findings

- Two moves of one node to different parents merge without conflict into a tree with a repeated id; only
  the validation after the merge rejects it (`MergeTheorems.TwoMovesDuplicate`). `MergeIds.UniqueExactly` gives
  the exact condition.
- When both sides add one id to one slot, theirs is dropped with everything under it
  (`MergeTheorems.SharedAdditionDrops`). `MergeTheorems.NothingLost` gives the exact condition.
- The id pattern ends in an anchor that also accepts a final newline, and the reader counts the wrappers of
  annotated text against its limits for nodes and depth. So annotated text does not give every valid tree back
  (`AnnotatedLimits.NewlineIdLost`, `AnnotatedLimits.DeepTreeLost`); `AnnotatedLimits.AnnotatedExactly` gives
  the exact condition. Candidate names accept a final newline for the same reason.
- Canonical text reads back as the same tree only when it is printable: symbols must be single words that
  are not numbers or booleans, and no two-element list may start with a symbol that looks like an id wrapper
  (`RoundTrip.NumericSymbol`, `RoundTrip.WrapperLikeList`). `RoundTrip.RoundTripExactly` gives the exact
  condition.
- The executor counts a new form or wrapper as one created node where two are made; sizes are conserved with
  the true weights (`BatchEdit.Editor.Transform`).
- Every modelled writer validates what it commits, so every document of every revision is valid (`StoreRuns.Reachable`) and a
  syntactic qualification cannot fail (`StoreRuns.SyntacticPasses`).
- The newest qualification is chosen by a time in whole seconds and then by a random id, so a failure
  recorded in the same second as an earlier pass can go unseen, and the publication that asks for the level goes
  through (`Scenarios.NewestIsNotLast`, with the exact condition in `Scenarios.NewestExactly`). A recorded pass of
  exactly the published head is guaranteed all the same (`StoreRuns.PublicationSafe`).
- docs/edit-candidates.md says that a publication fast-forwards its branch. A caller may name the base that the
  branch is expected at, and then it can go back and drop commits (`Scenarios.BranchTakenBack`). It is a
  fast-forward exactly when that base is on the candidate's first-parent chain (`StoreSpec.PublishKeeps`,
  `StoreRuns.PublicationSafe`), and runs of such publications only move branches forward (`StoreRuns.RunForward`).
- An additive classification is meant to be safe for callers. An enum under a negation breaks that
  (`Callers.NegatedEnum`). `Callers.PromiseExactly` gives the exact condition on the old parameters: under keywords
  other than `properties`, `items` and `additionalProperties` that some accepted call reaches, there is no enum.

## Model

| member | source | states |
|---|---|---|
| Mergers.Merger.MergeNode | src/weave_frontend/sexpr_service.py:717-758 | the recursion over copies gives the merged node and appends its conflicts, in order, to the shared list; which conflicts these are is `MergeConflicts.ConflictsExactly`, and what the merge holds `MergePaths.PathsMerge` and `MergeTheorems.LabelsMerge` |
| Mergers.Merger.MergeChildren | src/weave_frontend/sexpr_service.py:762-804 | the child lists are merged slot by slot and base child by base child; both order checks come first |
| Mergers.Merger.CheckBaseOrder | src/weave_frontend/sexpr_service.py:808-819 | a conflict exactly when the surviving base children are not in base order |
| Mergers.AdditionSlots | src/weave_frontend/sexpr_service.py:822-834 | every added child goes to the slot of the last base sibling before it, in order |
| Mergers.MergeAdditions | src/weave_frontend/sexpr_service.py:837-848 | ours then theirs, the first of each id |
| Mergers.MergeStates | src/weave_frontend/sexpr_service.py:691-714 | fails with all conflicts of all documents, or every document is the merge of its three versions and is listed as changed exactly when it differs from ours |
| MergePaths.PathsMerge | src/weave_frontend/sexpr_service.py:717-848 | the id paths of a conflict-free merge are exactly those all three trees share and those either side added, except theirs inside an addition ours made in the same slot |
| MergeIds.UniqueExactly | src/weave_frontend/sexpr_service.py:716-848 | a conflict-free merge of valid trees has unique ids if and only if no id is placed by both sides at places that do not cover each other |
| MergeIds.IdsFromSides | src/weave_frontend/sexpr_service.py:716-848 | every id of the merge comes from ours or theirs |
| MergeTheorems.UniqueWhenDisjoint | src/weave_frontend/sexpr_service.py:716-848 | when the ids relocated by ours and by theirs are disjoint, the merge has unique ids |
| MergeTheorems.DisjointNoShared | src/weave_frontend/sexpr_service.py:837-848 | when the relocated ids are disjoint no placement is made by both sides, so the slots drop nothing |
| MergeTheorems.NothingLost | src/weave_frontend/sexpr_service.py:716-848 | every placement ours made is in the result; one theirs made is missing exactly when an addition of ours to the same slot covers it and does not hold it; with no shared addition nothing is missing |
| MergeTheorems.SharedAdditionDrops | src/weave_frontend/sexpr_service.py:837-848 | a valid merge in which both sides add one node and theirs is dropped with the child it holds, without conflict |
| MergeTheorems.LabelsMerge | src/weave_frontend/sexpr_service.py:717-758 | with no shared addition the merge is the three-way merge of each record on its own: an atom changed by one side carries that value, an untouched one keeps its own, additions stay, deletions hold |
| MergeTheorems.UnchangedSide | src/weave_frontend/sexpr_service.py:726-729 | an unchanged side yields the other side exactly, without conflicts, as do equal sides |
| MergeTheorems.ConflictsSymmetric | src/weave_frontend/sexpr_service.py:717-819 | swapping ours and theirs reports the same conflicts in the same order |
| MergeTheorems.MergeSymmetric | src/weave_frontend/sexpr_service.py:717-848 | on success with no shared addition the swapped merge holds the same records at the same paths |
| MergeTheorems.NoEditClash | src/weave_frontend/sexpr_service.py:736-748 | a record that both sides changed differently is always a conflict |
| MergeTheorems.OneSidedClean | src/weave_frontend/sexpr_service.py:784-803 | children of which each is changed by one side at most merge without conflict |
| MergeTheorems.TwoMovesDuplicate | src/weave_frontend/sexpr_service.py:762-804 | two moves of one node to different parents merge without conflict into a tree with a repeated id |
| MergeOrder.SiblingsInOrder | src/weave_frontend/sexpr_service.py:776-804 | surviving base children keep the base order, and every addition stands behind the base sibling it was added after, or behind the last earlier one that is left |
| MergeOrder.OursFirst | src/weave_frontend/sexpr_service.py:837-848 | within a slot ours come first, in their own order |
| MergeOrder.SwapMovesWithinSlots | src/weave_frontend/sexpr_service.py:776-848 | swapping the sides only reorders additions of one slot |
| MergeOrder.SwapAlike | src/weave_frontend/sexpr_service.py:716-848 | for whole trees with no shared addition, the merge and the swapped merge are equal but for the order of additions of one slot, at every list |
| MergeConflicts.ConflictsExactly | src/weave_frontend/sexpr_service.py:717-819 | a conflict is reported if and only if, at a place both sides changed and all nodes above it are lists of all three, the versions differ as it says: two additions, a deletion against a change, another id, another kind, another value, or base children out of order |
| MergeConflicts.ConflictFreeExactly | src/weave_frontend/sexpr_service.py:717-819 | a merge has no conflict if and only if there is no such place |
| MergeConflicts.DeletedUntouched | src/weave_frontend/sexpr_service.py:736-740 | without a conflict, below a node that one side deleted the other side has the base's whole subtree |
| MergeConflicts.ReorderExactly | src/weave_frontend/sexpr_service.py:808-819 | the reorder conflict exactly when two surviving base children stand in the other order |
| MergeConflicts.KeepsOrder | src/weave_frontend/sexpr_service.py:762-819 | without a conflict, neither side changed the order of surviving base children of a list that both sides changed |
| RevisionDag.SearchAncestry | src/weave_frontend/revision_dag.py:86-118 | the two-sided search marks exactly the reflexive ancestors of either side, or fails because the union ancestry is over the node or edge limit or misses a revision |
| RevisionDag.AnalyzeCommonAncestors | src/weave_frontend/revision_dag.py:66-133 | which error is raised and when; otherwise the best ancestors are exactly the common ancestors with no other common ancestor below them, with exact counts |
| RevisionDag.RequireSingleBest | src/weave_frontend/revision_dag.py:36-46 | succeeds exactly when there is one best common ancestor, and returns it |
| RevisionDag.BestNonEmpty | src/weave_frontend/revision_dag.py:66-133 | there is a best common ancestor as soon as there is a common ancestor |
| RevisionDag.BestOfAncestor | src/weave_frontend/revision_dag.py:66-133 | when left is right or one of its ancestors, left is the only best common ancestor |
| RevisionDag.AncestorDistances | src/weave_frontend/revision_dag.py:136-183 | the distance of every ancestor is the length of a shortest parent path; no other revision has one |
| Kahn.CountChildren | src/weave_frontend/revision_dag.py:209-214 | counts the children of every revision, or fails on a missing parent |
| Kahn.Release | src/weave_frontend/revision_dag.py:226-232 | processing one revision lowers its parents' counts, marks what lies above a common ancestor and releases what is ready |
| Kahn.BestCommonAncestors | src/weave_frontend/revision_dag.py:203-239 | fails with a cycle exactly when the complete graph has one; otherwise the result is independent of the order ready revisions are taken in |
| IntegrityCycles.InspectParentCycles | src/weave_frontend/database_integrity.py:426-479 | reports something if and only if the graph has a cycle, and every report is the vertex set of a real directed cycle |
| IntegrityCycles.CycleChecksAgree | src/weave_frontend/database_integrity.py:426-479 | the depth-first inspection of the raw parent columns and the pass over child counts of the deduplicated ones agree on every store that misses no parent |
| Lexer.Tokenize | src/weave_frontend/sexpr.py:471-521 | the scanner yields exactly the tokens of the source, ending in an error token at the first bad string |
| Lexer.ScanString | src/weave_frontend/sexpr.py:492-515 | one string literal, with its escapes, or the error that it is not closed |
| Lexer.LexWord | src/weave_frontend/sexpr.py:517-521 | a word ends at the first boundary and lexes to one token |
| Atoms.EscapesClean | src/weave_frontend/sexpr.py:337-345 | an escaped string holds no raw newline |
| Atoms.LexEscapes | src/weave_frontend/sexpr.py:337-345 | the five replacements in sequence are undone by the scanner, for every string |
| Atoms.AtomReads | src/weave_frontend/sexpr.py:334-350 | a printable atom is one word that reads back as the same atom |
| Atoms.ParsedPrintable | src/weave_frontend/sexpr.py:456-468 | whatever the atom reader returns is printable |
| Chars.IntRoundTrip | src/weave_frontend/sexpr.py:456-460 | the decimal text of every integer reads back as the integer |
| Grammar.FloatExactly | src/weave_frontend/sexpr.py:463-467 | a word is a float if and only if it is an optional sign, digits on either side of a point and an optional exponent, or digits and an exponent |
| Grammar.SignedMeans | src/weave_frontend/sexpr.py:461-462 | signed digits read as that integer, a plus sign included |
| Grammar.PlaceValue | src/weave_frontend/sexpr.py:461-462 | the first of some digits counts for its value times ten for each digit behind it |
| Grammar.WordMeans | src/weave_frontend/sexpr.py:456-468 | which words are booleans, integers, floats and symbols |
| Grammar.IntegerText | src/weave_frontend/sexpr.py:350 | an integer is printed without a plus sign and without leading zeros |
| Grammar.EscapedCharacter | src/weave_frontend/sexpr.py:501-509 | what each character stands for behind a backslash |
| Grammar.PlainCharacter | src/weave_frontend/sexpr.py:510-512 | every other character of a literal stands for itself |
| Grammar.LiteralEnds | src/weave_frontend/sexpr.py:492-515 | a quote ends a literal; without one, or behind a lone backslash, there is none |
| Grammar.QuoteOpens | src/weave_frontend/sexpr.py:491-515 | a quote begins a literal, which is one token |
| Grammar.CommentHides | src/weave_frontend/sexpr.py:479-482 | a semicolon hides its line up to a line feed or a carriage return |
| Grammar.WordEnds | src/weave_frontend/sexpr.py:516-521 | a word ends at whitespace, a parenthesis or a semicolon |
| Validity.ValidateTree | src/weave_frontend/sexpr.py:106-150 | the stack loop accepts exactly the trees with unique well-formed ids within the depth, node and byte limits |
| Limits.ValidExactly | src/weave_frontend/sexpr.py:106-150 | valid means: no id twice, ids well formed, values of a mebibyte, paths of 513 nodes, 100 000 nodes and eight mebibytes of values at most |
| Limits.IdExactly | src/weave_frontend/sexpr.py:23 | an id is `n_`, then letters, digits, underscores and hyphens, and one final newline at most |
| TreeWalk.WalkNodes | src/weave_frontend/sexpr.py:153-177 | a walk completes exactly within the limits and then yields every node of the tree in preorder |
| TreeWalk.NodesAre | src/weave_frontend/sexpr.py:153-177 | the preorder listing holds exactly the nodes of the tree |
| TreeWalk.FindNode | src/weave_frontend/sexpr.py:180-184 | finds the first node with the id in preorder; within the limits it fails exactly when there is none |
| TreeWalk.FindParent | src/weave_frontend/sexpr.py:200-207 | finds the first list in preorder that holds a node with the id, and its place; within the limits it fails exactly when no list does; ids may repeat |
| Printer.FlatTextIfFits | src/weave_frontend/sexpr.py:272-295 | the one-line text, exactly when it fits in the room that remains |
| Printer.CanonicalPrinter.Render | src/weave_frontend/sexpr.py:248-269 | appends the canonical text |
| Printer.RenderNode | src/weave_frontend/sexpr.py:219-245 | the canonical or annotated text, exactly when the tree is valid and the text within the byte limit; what these texts are is said in `LineWidth`, and that they read back in `RoundTrip`, `AnnotatedTrip` and `AnnotatedView` |
| LineWidth.CanonicalForms | src/weave_frontend/sexpr.py:248-269 | a list goes on one line, with single spaces, when that ends within 88 columns, and otherwise one child a line two columns further in |
| LineWidth.OneLineExactly | src/weave_frontend/sexpr.py:258-269 | the text of a printable list of two children or more has no line break if and only if its one-line form ends within 88 columns |
| LineWidth.AnnotatedOneLine | src/weave_frontend/sexpr.py:307-331 | an annotated list has no line break if and only if no child has one and, for two children or more, the joined children end within 88 columns |
| LineWidth.AnnotatedForms | src/weave_frontend/sexpr.py:298-331 | the text of an annotated list from those of its children, on one line or one a line at twice the indentation, in either view |
| Layout.LexReads | src/weave_frontend/sexpr.py:471-521 | however tokens are laid out with whitespace, the text lexes to them |
| Layout.ReadsReindent | src/weave_frontend/sexpr.py:329-330 | re-indenting a layout changes none of its tokens, strings included |
| Parser.Reader.ParseOneNode | src/weave_frontend/sexpr.py:409-452 | the recursive reader over a stream and a one-token buffer gives the specified tree, node count and rest, or the specified error |
| Parser.Reader.ParseChildren | src/weave_frontend/sexpr.py:420-427 | the loop over an open list reads children up to its closing parenthesis |
| Parser.ReadSource | src/weave_frontend/sexpr.py:368-453 | the whole reader: size limit, one form, nothing after it, and a valid tree; `Forms.ReadsExactly` says which sources these are and `Grammar` what their words mean |
| Forms.ReadsExactly | src/weave_frontend/sexpr.py:368-453 | a source is read as a tree if and only if its tokens are those of one form within the limits, wrapped subtrees are valid, and the tree is the valid meaning of the form: atoms from words and strings, lists from groups, an id from a wrapper |
| RoundTrip.ReadsCanonical | src/weave_frontend/sexpr.py:248-295 | the canonical text of a printable tree lays out its tokens whichever layout is chosen |
| RoundTrip.PrintThenRead | src/weave_frontend/sexpr.py:248-295 | reading the canonical text of a printable tree gives the tree under new ids |
| RoundTrip.RoundTripExactly | src/weave_frontend/sexpr.py:248-453 | reading undoes printing, up to ids, if and only if the tree is printable |
| RoundTrip.NumericSymbol | src/weave_frontend/sexpr.py:334-350 | a valid tree, the symbol 1, that reads back as an integer |
| RoundTrip.WrapperLikeList | src/weave_frontend/sexpr.py:428-448 | a valid two-element list whose first symbol looks like an id does not read back |
| RoundTrip.ReadIsPrintable | src/weave_frontend/sexpr.py:368-468 | whatever a source reads as is a valid printable tree |
| RoundTrip.ReprintStable | src/weave_frontend/sexpr.py:248-453 | any source that reads, printed and read again, gives the same tree |
| AnnotatedTrip.ReadsAnnotated | src/weave_frontend/sexpr.py:298-331 | the fully annotated text lays out the wrapper tokens at every indentation |
| AnnotatedTrip.AnnotateThenRead | src/weave_frontend/sexpr.py:298-331 | reading fully annotated text gives exactly the tree, every id included |
| AnnotatedLimits.AnnotatedExactly | src/weave_frontend/sexpr.py:298-453 | for every valid tree: reading fully annotated text gives the tree back if and only if it is printable, no id ends in a newline, and the wrapped text is within the reader's limits |
| AnnotatedLimits.OneCounted | src/weave_frontend/sexpr.py:368-453 | a successful read has counted every token that begins a node, and each was within the depth and value limits |
| AnnotatedLimits.NewlineIdLost | src/weave_frontend/sexpr.py:23 | a valid printable tree within the limits whose id ends in a newline: its annotated text does not read back as it |
| AnnotatedLimits.DeepTreeLost | src/weave_frontend/sexpr.py:298-453 | a valid printable tree of 301 nested nodes whose annotated text does not read back as it |
| AnnotatedView.ReadsView | src/weave_frontend/sexpr.py:298-331 | the view with plain atoms lays out its tokens at every indentation: every atom's text, and every list in a wrapper with its id |
| AnnotatedView.ViewThenRead | src/weave_frontend/sexpr.py:298-453 | reading the view of a valid printable tree whose list ids are clean and apart from new ones, within the reader's limits, gives a valid tree with the same atoms, and every list keeps its id at its place |
| SourceMap.FittingListFits | src/weave_frontend/source_map.py:130-139 | a list that fits on its line makes each child fit two columns further in |
| SourceMap.CanonicalBody | src/weave_frontend/source_map.py:108-138 | both printers put the same children and separators between the parentheses |
| SourceMap.FlatWidthIfFits | src/weave_frontend/source_map.py:84-105 | the width of the one-line text, exactly when it fits |
| SourceMap.Writer.Append | src/weave_frontend/source_map.py:32-47 | appends within the byte limit or changes nothing; byte, line and column equal a recount of the text |
| SourceMap.Writer.Render | src/weave_frontend/source_map.py:108-138 | appends the canonical text and the span of every node, exactly when the text is within the limit |
| SourceMap.RenderWithNodeMap | src/weave_frontend/source_map.py:141-165 | succeeds exactly on a valid tree within the limit; the source is the plain printer's text and one newline |
| Positions.LineColumn | src/weave_frontend/source_map.py:32-47 | line and column of a position find its character in the text split at its newlines |
| Positions.LinesOf | src/weave_frontend/source_map.py:42-45 | every text splits into lines that hold no newline |
| NodeMaps.NodeMapCorrect | src/weave_frontend/source_map.py:21-138 | one span for each node and no other, over that node's rendering, with recounted positions; children strictly inside, siblings at least a byte apart |
| NodeMaps.SmallestNodeForSpan | src/weave_frontend/source_map.py:168-191 | the first least span, by length and then by later start, among those that contain the query |
| NodeMaps.DeepestExists | src/weave_frontend/source_map.py:168-191 | for a query that does not end before it starts, among nested spans one node lies in every node that contains it |
| NodeMaps.SmallestIsDeepest | src/weave_frontend/source_map.py:141-191 | the node picked from the map of a valid tree is the unique deepest one, however the spans are listed; there is none exactly outside the root |
| NodeMaps.PickedEncloses | src/weave_frontend/source_map.py:168-191 | in bytes: the node picked encloses the query and lies in every node that does |
| NodeMaps.OwnSpanFound | src/weave_frontend/source_map.py:168-191 | a query for a node's own span gives that node |
| TreeTables.GraftIds | src/weave_frontend/batch_edit.py:651-672 | replacing a subtree keeps the root id and unique ids and accounts for every id and node |
| TreeTables.GraftRows | src/weave_frontend/batch_edit.py:651-672 | replacing a subtree changes the rows of that subtree and no other |
| TreeTables.InsertChild | src/weave_frontend/batch_edit.py:651-672 | inserting a fresh subtree: the whole new table |
| TreeTables.RemoveChild | src/weave_frontend/batch_edit.py:446-448 | taking a child out: the whole new table |
| TreeTables.WrapChild | src/weave_frontend/batch_edit.py:407-410 | wrapping a child: the whole new table, two nodes more |
| TreeTables.DescendantsAre | src/weave_frontend/batch_edit.py:449-449 | the ids of a subtree are exactly those reachable from its root in the table |
| TreeTables.TableDetermines | src/weave_frontend/revision_diff.py:167-198 | root id and table determine the tree |
| TreeTables.SizeIsCount | src/weave_frontend/batch_edit.py:449-449 | a tree with unique ids has as many ids as nodes |
| Parents.OneParent | src/weave_frontend/sexpr.py:200-207 | a node has one parent, so the first one found is the only one |
| BatchEdit.Editor.MakeForm | src/weave_frontend/sexpr.py:48-49 | a new form has two nodes, under new ids or the replayed one; it fails exactly on an oversized head |
| BatchEdit.Editor.NewForm | src/weave_frontend/batch_edit.py:228-233 | a form for a request, under the replayed id or a new one, with both ids unused in the tree; or the reason there is none |
| BatchEdit.Editor.ReplayNodeId | src/weave_frontend/batch_edit.py:612-630 | a replayed id must be well formed and unused |
| BatchEdit.Editor.InsertNode | src/weave_frontend/batch_edit.py:651-672 | with no position the node goes behind the last child, with one it goes there, and any other position fails and changes nothing |
| BatchEdit.Editor.CreateForm | src/weave_frontend/batch_edit.py:220-254 | the tree edit refines the table edit; fails for exactly the specified reason |
| BatchEdit.Editor.AddAtom | src/weave_frontend/batch_edit.py:256-300 | the tree edit refines the table edit, which `BatchLaws.AddAtomDoes` says of the request; fails for exactly the specified reason |
| BatchEdit.Editor.SetAtom | src/weave_frontend/batch_edit.py:302-340 | the tree edit refines the table edit; fails for exactly the specified reason |
| BatchEdit.Editor.MoveNode | src/weave_frontend/batch_edit.py:342-386 | the tree edit refines the table edit, with the position counted after the node is taken out; the moved subtree is unchanged |
| BatchEdit.Editor.Reattach | src/weave_frontend/batch_edit.py:365-366 | out of one list and into the other, which may be the same |
| BatchEdit.Editor.WrapNode | src/weave_frontend/batch_edit.py:388-427 | the tree edit refines the table edit; fails for exactly the specified reason |
| BatchEdit.Editor.DeleteNode | src/weave_frontend/batch_edit.py:429-469 | the tree edit refines the table edit and drops the aliases of every deleted node |
| BatchEdit.Editor.ApplyOne | src/weave_frontend/batch_edit.py:178-218 | dispatch to the handler of the operation |
| BatchEdit.Editor.Transform | src/weave_frontend/batch_edit.py:112-176 | for every batch: a success is the specified run, each edit of which did what its request asks of the document before it; it keeps the root and unique ids, leaves every alias naming a node, and final size = initial + atoms added + 2 per form + 2 per wrapper - nodes deleted; a failure is the specified one or a passed limit |
| BatchSpec.CreateFormKeeps | src/weave_frontend/batch_edit.py:220-254 | two nodes more, counted as one; aliases live, supply unused |
| BatchSpec.AddAtomKeeps | src/weave_frontend/batch_edit.py:256-300 | one node more; aliases live, supply unused |
| BatchSpec.SetAtomKeeps | src/weave_frontend/batch_edit.py:302-340 | no id and no alias changes |
| BatchSpec.MoveNodeKeeps | src/weave_frontend/batch_edit.py:342-386 | a move keeps the set of ids and every row but those of the two lists |
| BatchSpec.WrapNodeKeeps | src/weave_frontend/batch_edit.py:388-427 | two nodes more, counted as one; aliases live, supply unused |
| BatchSpec.DeleteNodeKeeps | src/weave_frontend/batch_edit.py:446-455 | as many nodes less as are counted, and exactly the aliases of deleted nodes go |
| BatchLaws.CreateFormDoes | src/weave_frontend/batch_edit.py:220-254 | of the request and the two documents: goes through if and only if the fields are known, the parent is a list, the head is a text, the id is unused, the alias new and the position in the list; then the list has the form at the position or behind its last child, the form holds the new head, and every other row stays |
| BatchLaws.AddAtomDoes | src/weave_frontend/batch_edit.py:256-300 | the same for an atom of the requested kind and value |
| BatchLaws.SetAtomDoes | src/weave_frontend/batch_edit.py:302-340 | goes through if and only if the node is an atom and the value of its kind; then the atom holds the value, and every other row stays |
| BatchLaws.MoveNodeDoes | src/weave_frontend/batch_edit.py:342-386 | goes through if and only if the node is not the root, the new parent is a list that does not lie under it, and the position is one among the children there once the node is out; then the node stands there and is gone from its list, and every other row stays |
| BatchLaws.WrapNodeDoes | src/weave_frontend/batch_edit.py:388-427 | the form stands where the node stood and holds the new head and the node, and every other row stays |
| BatchLaws.DeleteNodeDoes | src/weave_frontend/batch_edit.py:429-469 | exactly the node and what is reachable under it go, with their aliases; the list keeps its other children in order, and every other row stays |
| BatchLaws.EditDoes | src/weave_frontend/batch_edit.py:178-218 | an edit goes through if and only if one of the six is asked for and can do what it was asked, and then does it |
| BatchEdit.RunFails | src/weave_frontend/batch_edit.py:131-158 | a run fails with its first failure |
| Documents.Transform | src/weave_frontend/batch_edit.py:112-176 | the executor on a document is a function of the document, the batch and the new ids, unless a limit is passed on the way; a success is the valid tree that the edits, one after the other, make of the document, with one log entry for each |
| Documents.TransformedIs | src/weave_frontend/batch_edit.py:112-176 | that function's outcome is fixed by the one tree that has the final table, which is accepted exactly when it is valid |
| Revisions.AcyclicInsert | src/weave_frontend/service.py:382-419 | a new revision on stored parents closes no cycle |
| Revisions.ForebearOnce | src/weave_frontend/edit_candidates.py:472-483 | in an acyclic history a revision is met once along the first-parent chain |
| Revisions.BestKept | src/weave_frontend/service.py:190-198 | the best common ancestors of stored revisions never change |
| Revisions.MergeRightKept | src/weave_frontend/service.py:190-230 | what was the merge of two revisions over their best ancestor stays so |
| StoreSpec.InsertKeeps | src/weave_frontend/service.py:382-454 | storing a revision keeps every invariant and changes no other row |
| StoreSpec.CommitKeeps | src/weave_frontend/service.py:295-380 | a write that passes the head comparison moves its branch one first-parent link up and links the old head's documents and its own |
| StoreSpec.BatchKeeps | src/weave_frontend/batch_edit.py:471-558 | the same for the batch executor's commit |
| StoreSpec.BranchKeeps | src/weave_frontend/concurrent_workspace.py:17-92 | a new branch changes no other one |
| StoreSpec.ContentKeeps | src/weave_frontend/concurrent_workspace.py:277-310 | equal content is stored once, and ids stay distinct |
| StoreSpec.OpenKeeps | src/weave_frontend/edit_candidates.py:26-63 | a candidate starts at its base; open names stay distinct |
| StoreSpec.EditKeeps | src/weave_frontend/edit_candidates.py:388-434 | an edit moves the candidate one link up and no branch |
| StoreSpec.QualifyKeeps | src/weave_frontend/edit_candidates.py:182-208 | a recorded pass is of a revision whose documents are all valid |
| StoreSpec.PublishKeeps | src/weave_frontend/edit_candidates.py:253-301 | publication closes the candidate, changes no other row, and is a fast-forward if and only if the expected base is on the chain of the candidate's head, as the candidate's own base is |
| StoreSpec.AbandonKeeps | src/weave_frontend/edit_candidates.py:310-324 | abandoning closes the candidate and changes nothing else |
| StoreSpec.RevertKeeps | src/weave_frontend/edit_candidates.py:326-357 | a revert steps down one link and never below the base |
| StoreSpec.InitializeKeeps | src/weave_frontend/database.py:515-529 | a new project: a root revision and its main branch |
| Effects.CommitDoes | src/weave_frontend/service.py:295-380 | a commit adds one revision, on the compared head, with the given state and operations, the head's documents and the attached one, and moves its branch; nothing else changes |
| Effects.ChangedDoes | src/weave_frontend/concurrent_sexpr.py:324-345 | a change of one document is allowed exactly in the states that have it, or not, and then leaves every other document |
| Effects.WriteAlone | src/weave_frontend/service.py:266-454 | for every store: when a direct write goes through, and the whole store after it; otherwise nothing changes |
| Effects.ApplyAlone | src/weave_frontend/batch_edit.py:60-110 | the same for a batch on a branch |
| Effects.EditAlone | src/weave_frontend/edit_candidates.py:85-124 | the same for a batch on a candidate |
| Effects.MergeAlone | src/weave_frontend/service.py:173-238 | the same for a merge, whose revision is on both heads |
| Effects.InitializeAlone | src/weave_frontend/database.py:515-529 | the same for a new project |
| Effects.NewBranchAlone | src/weave_frontend/concurrent_workspace.py:17-58 | the same for a branch from a branch |
| Effects.BranchAtAlone | src/weave_frontend/concurrent_workspace.py:60-92 | the same for a branch at a revision |
| Effects.OpenAlone | src/weave_frontend/edit_candidates.py:26-63 | the same for a new candidate |
| Effects.NameExactly | src/weave_frontend/edit_candidates.py:14 | a candidate's name is a letter, then letters, digits, underscores and hyphens, 64 at most, and one final newline at most |
| Effects.QualifyAlone | src/weave_frontend/edit_candidates.py:142-217 | the same for a qualification: which outcome is recorded of which head |
| Effects.PublishAlone | src/weave_frontend/edit_candidates.py:219-308 | the same for a publication |
| Effects.AbandonAlone | src/weave_frontend/edit_candidates.py:310-324 | the same for giving up a candidate |
| Effects.RevertAlone | src/weave_frontend/edit_candidates.py:326-357 | the same for a revert, one first-parent link down |
| StoreRuns.StepKeeps | src/weave_frontend/service.py:266-454 | every step of every writer keeps the invariants, and no stored row is lost or rewritten |
| StoreRuns.RunKeeps | src/weave_frontend/service.py:266-454 | in every interleaving: acyclic ancestry, valid documents in every revision, right merges, immutable rows, candidates on their bases, final statuses |
| StoreRuns.RunForward | src/weave_frontend/edit_candidates.py:219-308 | when every publication expects its branch on the candidate's chain, branches only move up first-parent chains through the whole run |
| StoreRuns.OwnBasesGrounded | src/weave_frontend/edit_candidates.py:237-237 | which is so in every run whose publications name no base of their own |
| StoreRuns.Reachable | src/weave_frontend/service.py:266-454 | what holds of every store that any writers can make from the empty one; among it, every document of every revision is valid |
| StoreRuns.SyntacticPasses | src/weave_frontend/edit_candidates.py:159-171 | in every such store a syntactic qualification passes, and the compiler alone decides the other level; without documents it passes too |
| StoreRuns.CapturedKept | src/weave_frontend/service.py:266-283 | what a writer captured of immutable rows stays true whatever others do |
| StoreRuns.WinnerAdvances | src/weave_frontend/service.py:325-380 | a writer that wins advances exactly the head it had read |
| StoreRuns.NeverBack | src/weave_frontend/service.py:295-380 | in such runs a branch that has left a head never returns to it |
| StoreRuns.LostForGood | src/weave_frontend/service.py:295-380 | in such runs every next step of a writer whose compared head has moved ends it and changes nothing, for good and whatever it is given: written branch, merge source, branch to start from or publication base |
| StoreRuns.ClosedForGood | src/weave_frontend/edit_candidates.py:388-434 | in every run the same of a writer on a closed candidate |
| StoreRuns.PublicationSafe | src/weave_frontend/edit_candidates.py:219-308 | with a required level, the published head is exactly the one with a recorded pass at that level, and its documents are valid; the branch moves from the expected base, forward exactly when that base is on the chain |
| StoreRuns.DocumentsGrow | src/weave_frontend/service.py:396-402 | along first parents the linked documents only grow |
| StoreRuns.BranchDocumentsGrow | src/weave_frontend/service.py:346-356 | no run that moves branches forward drops a document that a branch links |
| Scenarios.NewestIsNotLast | src/weave_frontend/edit_candidates.py:512-532 | a run from the empty store: a document is created and edited on a candidate, its head passes, the same head fails to compile in the same second, and the publication that asks for the level goes through |
| Scenarios.NewestExactly | src/weave_frontend/edit_candidates.py:512-532 | a recorded qualification is the newest if and only if its time is later than that of the newest before it, or equal with a larger id; the first of a candidate always is |
| Scenarios.BranchTakenBack | src/weave_frontend/edit_candidates.py:219-308 | a run from the empty store: a publication that names its base takes the branch back over the commit of a note, and a write that had lost its race goes through |
| Stores.Store.WriteRevision | src/weave_frontend/service.py:382-454 | keeps the invariant and lets the store only evolve; the insertion, with inherited documents, or the error and nothing changed |
| Stores.Store.LinkContent | src/weave_frontend/concurrent_workspace.py:277-304 | keeps the invariant and lets the store only evolve; equal content is found again under its id, new content is stored, or the error and nothing changed |
| Stores.Store.CommitRevision | src/weave_frontend/service.py:295-380 | keeps the invariant and lets the store only evolve; a success adds one revision with the given state, operations and documents and moves the branch from the compared head to it; an error rolls every table back |
| Stores.Store.HeadsAreExpected | src/weave_frontend/service.py:325-342 | accepts exactly when every captured head is current |
| Stores.Store.CommitIfHead | src/weave_frontend/batch_edit.py:471-558 | keeps the invariant and lets the store only evolve; a success moves the branch one first-parent link up from the compared head; an error changes nothing |
| Stores.Store.InsertBranch | src/weave_frontend/concurrent_workspace.py:17-92 | keeps the invariant and lets the store only evolve; the specified new branch, or the error and nothing changed |
| Stores.Store.InsertCandidate | src/weave_frontend/edit_candidates.py:46-62 | keeps the invariant and lets the store only evolve; the specified open candidate at a base of its project, or the error and nothing changed |
| Stores.Store.CommitCandidateRevision | src/weave_frontend/edit_candidates.py:388-434 | keeps the invariant and lets the store only evolve; a success puts one revision on the compared head and moves no branch; an error changes nothing |
| Stores.Store.RecordQualification | src/weave_frontend/edit_candidates.py:182-208 | keeps the invariant and lets the store only evolve; so a recorded pass is of valid documents; an error changes nothing |
| Stores.Store.PublishCandidate | src/weave_frontend/edit_candidates.py:253-301 | keeps the invariant for every expected base and rewrites no row; a success moves the branch to the head, forward if and only if the base is on its chain; an error changes nothing |
| Stores.Store.AbandonCandidate | src/weave_frontend/edit_candidates.py:310-324 | keeps the invariant and lets the store only evolve; the candidate is closed, or the error and nothing changed |
| Stores.Store.RevertCandidate | src/weave_frontend/edit_candidates.py:341-352 | keeps the invariant and lets the store only evolve; the new head still has the base on its chain; an error changes nothing |
| Stores.Store.InitializeProject | src/weave_frontend/database.py:515-529 | keeps the invariant and lets the store only evolve; a root revision and its main branch, or the error and nothing changed |
| Stores.Store.LatestQualification | src/weave_frontend/edit_candidates.py:512-532 | the newest by time and then by id, if there is any |
| Stores.Store.CheckQualification | src/weave_frontend/edit_candidates.py:234-252 | passes exactly when the newest qualification passes at the level for this head |
| Stores.Store.PrepareWrite | src/weave_frontend/service.py:266-283 | the read of a direct write is the writers' step: the same write ready to commit, or the same error; the state to commit has the given document in its place, or lacks the removed one, and every other document is the base revision's |
| Stores.Store.PrepareBatch | src/weave_frontend/batch_edit.py:60-110 | the read and the run of a batch on a branch is the writers' step, unless a limit is passed on the way; in the state to commit the one document is what the edits, one after the other, make of it |
| Stores.Store.PrepareEdit | src/weave_frontend/edit_candidates.py:85-124 | the same on a candidate |
| Stores.Store.EditHistory | src/weave_frontend/edit_candidates.py:472-510 | for every candidate of a store that keeps the invariant: each revision above the base once, oldest first, ending at the head; it never fails |
| Stores.Store.BranchHistory | src/weave_frontend/service.py:112-160 | in a store that keeps the invariant: a bounded prefix of the first-parent chain, complete exactly when no next revision is given; it fails for the limit and an unknown branch only |
| Stores.Store.MergeRevisions | src/weave_frontend/service.py:198-205 | the valid conflict-free merge over the one best common ancestor, or the exact reason why there is none |
| Stores.MergeDocuments | src/weave_frontend/service.py:200-205 | the valid merge of every document, or all conflicts, or a merged document that is not valid |
| Stores.Store.PrepareMerge | src/weave_frontend/service.py:184-230 | succeeds exactly when the writers' next step can and the history is within the limits, and then gives the one write that this step allows; every failure is the specified one |
| Merging.MergeOnce | src/weave_frontend/service.py:198-205 | two revisions have at most one merge |
| Merging.NoMerge | src/weave_frontend/service.py:198-205 | a failure other than the limits means that no merge exists |
| Merging.DocumentMerged | src/weave_frontend/sexpr_service.py:691-714 | in a merge a document that one side left alone is as the other side has it, added or removed ones included; one that both changed is in all three and is the merge of the three |
| Diff.Flattener.Visit | src/weave_frontend/revision_diff.py:176-196 | records every node with its parent and place, in preorder, and changes no other record |
| Diff.RecordsDetermine | src/weave_frontend/revision_diff.py:167-198 | the flat table determines the tree |
| Diff.PreorderLists | src/weave_frontend/revision_diff.py:176-196 | the order lists every node once |
| DiffLaws.ParentFirst | src/weave_frontend/revision_diff.py:176-196 | a node is listed before everything under it |
| DiffLaws.SiblingsInTurn | src/weave_frontend/revision_diff.py:176-196 | everything under a child is listed before everything under a later one |
| DiffLaws.PartInOrder | src/weave_frontend/revision_diff.py:176-196 | what holds of the listing of a subtree holds of the whole one |
| DiffLaws.HeadExactly | src/weave_frontend/sexpr.py:210-216 | the head of a record is the symbol that its list begins with |
| Diff.Changes | src/weave_frontend/revision_diff.py:117-164 | the changes in order, each with the fields that differ |
| Diff.ChangedOrderLists | src/weave_frontend/revision_diff.py:117-164 | a node is listed exactly when its record differs, and once |
| DiffLaws.ChangesInOrder | src/weave_frontend/revision_diff.py:117-164 | changes come in the later version's order, and behind them the nodes that are gone, in the earlier one's |
| DiffLaws.FieldsExactly | src/weave_frontend/revision_diff.py:28-35 | a change names exactly the fields that differ, once each and in a fixed order |
| Diff.EmptyDiff | src/weave_frontend/revision_diff.py:82-91 | no node is listed if and only if the two versions are equal |
| Diff.PagesConcatenate | src/weave_frontend/revision_diff.py:87-89 | following the pages from any start gives the rest of the list |
| DiffLaws.PageExactly | src/weave_frontend/revision_diff.py:87-89 | a page holds as many changes as asked for, or those that are left, and names the next index exactly when more follow |
| Diff.DiffPage | src/weave_frontend/revision_diff.py:40-115 | which error is raised and when; otherwise the page, and no change in total exactly for equal versions |
| Estimator.CostBoundsText | src/weave_frontend/grammar_help.py:309-326 | the estimate bounds the text whichever layout the printer chooses |
| Estimator.CostMet | src/weave_frontend/grammar_help.py:309-326 | the estimate is the text's size to the byte where all lists break, all string characters are escaped and no boolean is true |
| Estimator.RenderWithinLimits | src/weave_frontend/grammar_help.py:295-329 | the loop accepts exactly the trees within the node, depth and cost limits, and then the text is within the byte limit |
| Estimator.EscapesBytes | src/weave_frontend/grammar_help.py:318-319 | escaping at most doubles the bytes of a string |
| Manifest.EnumClass | src/weave_frontend/manifest_compatibility.py:263-318 | an enum change is additive exactly when the new enum admits what the old one did |
| Manifest.ValueClass | src/weave_frontend/manifest_compatibility.py:321-375 | changes are additive exactly when only enums grew or went; there are none exactly for equality up to enum order |
| Manifest.SchemaClass | src/weave_frontend/manifest_compatibility.py:378-478 | a tool's changes are additive exactly when nothing became required or went and the rest is wider; none exactly for equality up to the order of enums and required names |
| ManifestClasses.ValueExactly | src/weave_frontend/manifest_compatibility.py:321-375 | changes include a breaking one if and only if an enum appeared or lost a member, and one for review if and only if a default or anything but an enum differs |
| ManifestClasses.ToolExactly | src/weave_frontend/manifest_compatibility.py:378-478 | a tool's changes include a breaking one if and only if something became required, was removed, came as required or narrowed, and one for review if and only if something else that both versions say differs |
| ManifestClasses.RequiredExactly | src/weave_frontend/manifest_compatibility.py:61-77 | which lists of required names are accepted, and the names they give |
| ManifestClasses.EnumExactly | src/weave_frontend/manifest_compatibility.py:214-231 | which enums are accepted, and the members they have |
| ManifestClasses.PointersApart | src/weave_frontend/manifest_compatibility.py:57-58 | different fields have different pointers, and a field is one step of its pointer |
| Callers.WiderAccepts | src/weave_frontend/manifest_compatibility.py:263-375 | where an accepted value meets no enum under another keyword, a wider schema still accepts it, whatever the other keywords mean |
| Callers.PositiveExactly | src/weave_frontend/manifest_compatibility.py:321-375 | the condition decided on a schema holds if and only if no accepted value meets an enum under another keyword |
| Callers.CallsPositiveExactly | src/weave_frontend/manifest_compatibility.py:378-478 | the same for a tool's parameters and the calls it takes |
| Callers.Breaks | src/weave_frontend/manifest_compatibility.py:263-375 | where an accepted value meets such an enum, some additive change refuses that value under some meaning of the other keywords |
| Callers.CallersKeepWorking | src/weave_frontend/manifest_compatibility.py:378-478 | under the condition on the old parameters, an additive change takes no call away, whatever the other keywords mean |
| Callers.PromiseExactly | src/weave_frontend/manifest_compatibility.py:378-478 | no additive change ever takes a call away, whatever the other keywords mean, if and only if the old parameters meet the condition (or cannot be compared at all) |
| Callers.NegatedEnum | src/weave_frontend/manifest_compatibility.py:321-375 | under a negation the promise fails: a grown enum is classified additive and takes a call away |
| Manifest.CompareValues | src/weave_frontend/manifest_compatibility.py:321-375 | the recursion over values |
| Manifest.CompareFields | src/weave_frontend/manifest_compatibility.py:350-375 | the loop over the fields collects the changes of each, or fails if one comparison does |
| Manifest.CompareParameters | src/weave_frontend/manifest_compatibility.py:378-478 | required names, removed, added and shared parameters, and the rest of the schema |
| Manifest.Classify | src/weave_frontend/manifest_compatibility.py:481-491 | the worst classification, and whether it is additive at most |

## Left out

- Trees in the merge and in the batch executor are values, where the source mutates nested dictionaries; a
  reference to a node is modelled as the node that has the id now. Aliasing between trees is not captured.
- Float atoms keep their printed lexeme, with printing and reading of floats taken as inverse; a literal that
  overflows, such as `1e999`, is read where the source refuses it. Equality of values across Python types
  (`1 == 1.0 == True`) is not modelled, in merges, diffs and manifests; a float atom given an integer gets
  the integer's text with `.0`.
- Digits are the ASCII digits, where the source's patterns and conversions also take other Unicode digits; the
  interpreter's limit on the number of digits of an integer and lone surrogates are not modelled.
- Tree validation is modelled as accepted or not; which of several violated limits is named first is left out.
- Sorted listings (best ancestors, cycle reports, document names, spans, changes of a manifest) are sets or lists in any
  order, and the heap of the ancestor pass hands out ready revisions in any order.
- Python's recursion limit and the memory of a process.
- `_Issues` counts and truncation of retained examples, and the other database inspections.
- The view with annotated lists and plain atoms does not carry the ids of atoms, so reading it gives them new ones. Which
  valid trees its text gives back is shown one way; the exact condition is shown for the text that annotates every node.
- Batch result records, positions in log payloads and conversion of errors to dictionaries. The id supply skips the id
  that a replayed request replaces.
- `apply` and `apply_batch` as one call: they are the store's `PrepareBatch` or `PrepareEdit` and then its transaction.
- The single node edits and the trees of build targets, test targets and task contracts: such a write puts any valid tree
  in the place of a document. Text that is imported is read by `Parser.ReadSource`.
- Project names, authors, messages, time stamps of revisions, operation payloads, hashes and canonical JSON: snapshots and
  contents are compared as values. SQLite transactions are atomic steps; foreign keys, unique keys and the
  project triggers are error results.
- Reads before a commit are one step each; merges and publications read in two steps. Both heads of a merge and the states
  behind them come from those reads.
- `checkout`, commits without expected heads, and the writers that do not compare heads.
- Merge revisions whose two parents are the same revision are not claimed to be merges of their parents.
- Running the compiler for a qualification: its verdict is a parameter.
- Counts and page metadata of the diff report other than the total, the items and the next index.
- What patterns mean in a schema: beside `patternProperties`, `additionalProperties` counts as a keyword of any meaning.
- The tool-level and application-level loops of the manifest comparison, the checks of manifest formats, truncation of
  long values and report ids.
- Checkpoints, retained artifacts, backups, guidance text, the command line and the tool registry.
- MergeTheorems.MergeSymmetric: compares the two merges record by record; the order of siblings is the subject of MergeOrder.SwapAlike.
