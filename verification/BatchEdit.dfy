/** The executor of structural edits: a tree edited in place, request by request
    (src/weave_frontend/batch_edit.py). */
module BatchEdit {
  import opened Prelude
  import opened Chars
  import opened Trees
  import opened Atoms
  import opened Validity
  import opened TreeTables
  import opened TreeWalk
  import opened BatchSpec
  import opened Parents
  import BatchLaws

  // What a handler reports: its log entry and its counts.
  datatype Effect = Effect(op: string, target: NodeId, created: nat, deleted: nat)

  /** The node that has the id now: what a reference to it sees. */
  function Lookup(t: Tree, id: NodeId): (r: Tree)
    requires id in IdSet(t)
    ensures Subtree(r, t) && r.id == id
    decreases t, 1
  {
    if t.id == id then t else LookupIn(t.children, id).0
  }

  function LookupIn(ts: seq<Tree>, id: NodeId): (r: (Tree, nat))
    requires id in IdSetOf(ts)
    ensures r.1 < |ts| && Subtree(r.0, ts[r.1]) && r.0.id == id
    decreases ts, 0
  {
    if id in IdSet(ts[|ts| - 1]) then (Lookup(ts[|ts| - 1], id), |ts| - 1)
    else
      InEarlier(ts, id);
      LookupIn(ts[..|ts| - 1], id)
  }

  lemma WalkableBelow(u: Tree, t: Tree)
    requires Walkable(t) && Subtree(u, t)
    ensures Walkable(u)
  {
    ShallowBelow(u, t, MAX_TREE_DEPTH);
  }

  lemma {:induction false} ShallowBelow(u: Tree, t: Tree, depth: int)
    requires Shallow(t, depth) && Subtree(u, t) && depth <= MAX_TREE_DEPTH
    ensures Shallow(u, MAX_TREE_DEPTH) && Size(u) <= Size(t)
    decreases t
  {
    if u != t {
      var i :| 0 <= i < |t.children| && Subtree(u, t.children[i]);
      ShallowBelow(u, t.children[i], depth - 1);
      SumPart(t.children, i);
    } else {
      ShallowMore(t, depth, MAX_TREE_DEPTH);
    }
  }

  function Lift(e: WalkError): EditError {
    match e
    case NodeMissing => MissingTarget
    case WalkTooDeep => TooDeep
    case WalkTooLarge => TooLarge
  }

  // ----- the new form

  lemma FormValid(w: NodeId, h: NodeId, head: string)
    requires IdOk(w) && IdOk(h) && w != h && Utf8(head) <= MAX_ATOM_VALUE_BYTES
    ensures var form := List(w, [Leaf(h, Symbol(head))]);
      && ValidTree(form) && IdSet(form) == {w, h} && Size(form) == 2
      && Rows(form) == map[w := ListRow([h]), h := AtomRow(Symbol(head))]
  {
    var leaf := Leaf(h, Symbol(head));
    var form := List(w, [leaf]);
    var kids := [leaf];
    PairIds(leaf, leaf);
    assert kids[..0] == [];
    assert ValueBytesOf(kids) == ValueBytesOf(kids[..0]) + ValueBytes(leaf);
    assert kids[0] == leaf;
    assert UniqueAll(kids);
    assert Ids(kids) == [h];
    RowInAt(kids, 0, h);
    assert IdSet(form) == {w, h};
    assert Rows(form)[w] == ListRow([h]) && Rows(form)[h] == AtomRow(Symbol(head));
  }

  lemma FormRows(rows: Table, p: NodeId, row: Row, w: NodeId, h: NodeId, rowW: Row, rowH: Row)
    requires w != h
    ensures rows[p := row] + map[w := rowW, h := rowH] == rows[p := row][w := rowW][h := rowH]
  {
  }

  // A moved subtree comes out and goes back in.
  lemma MovedRows(t: Table, c: Table, p: NodeId, q: NodeId, rowP: Row, rowQ: Row)
    requires p in t && q in t && p !in c && q !in c
    requires forall x :: x in c ==> x in t && c[x] == t[x]
    ensures (t - c.Keys)[p := rowP][q := rowQ] + c == t[p := rowP][q := rowQ]
  {
  }

  class Editor {
    var root: Tree
    var aliases: Aliases
    var next: nat
    var created: nat
    var deleted: nat
    var log: seq<(string, NodeId)>
    const newId: Supply

    constructor (root: Tree, newId: Supply)
      requires Unique(root) && GoodSupply(newId) && Unused(newId, 0, IdSet(root))
      ensures Valid() && this.root == root && this.newId == newId && aliases == map[]
      ensures next == 0 && created == 0 && deleted == 0 && log == []
    {
      this.root, aliases, next, created, deleted, log := root, map[], 0, 0, 0, [];
      this.newId := newId;
      new;
      RowsKeys(root);
    }

    /** The state as a table. */
    ghost function Abs(): Doc
      reads this
    {
      Doc(root.id, Rows(root), aliases, next, created, deleted, log)
    }

    ghost predicate Valid()
      reads this
    {
      Unique(root) && WellFormed(Abs(), newId)
    }

    /** The state once the effect is counted and logged. */
    ghost function With(effect: Effect): Doc
      reads this
    {
      Abs().(created := created + effect.created, deleted := deleted + effect.deleted, log := log + [(effect.op, effect.target)])
    }

    /** The outcome is the specified one; only a tree over the limits may stop an edit early. */
    ghost predicate Matches(r: Result<Effect, EditError>, spec: Result<Doc, EditError>, walkable: bool)
      reads this
    {
      match r
      case Ok(effect) => spec == Ok(With(effect))
      case Err(e) => spec == Err(e) || (!walkable && (e == TooDeep || e == TooLarge))
    }

    lemma ValidParts()
      requires Valid()
      ensures Unique(root) && WellFormed(Abs(), newId)
    {
    }

    method Find(id: NodeId) returns (r: Result<Tree, EditError>)
      requires Valid()
      ensures r.Ok? ==> Subtree(r.value, root) && r.value.id == id && id in Rows(root) && Rows(root)[id] == OwnRow(r.value)
      ensures r.Ok? ==> KidsOf(Rows(root), id) == if r.value.Leaf? then Err(NotList) else Ok(Ids(r.value.children))
      ensures r.Err? ==> (r.error == MissingTarget && id !in Rows(root) && KidsOf(Rows(root), id) == Err(MissingTarget)) || (!Walkable(root) && (r.error == TooDeep || r.error == TooLarge))
    {
      var found := FindNode(root, id);
      RowsKeys(root);
      if found.Err? {
        return Err(Lift(found.error));
      }
      FoundRow(root, found.value);
      return Ok(found.value);
    }

    method Parent(id: NodeId) returns (r: Result<(Tree, nat), EditError>)
      requires Valid()
      ensures r.Ok? ==> IsParent(root, r.value.0, r.value.1, id)
      ensures r.Err? ==> (r.error == MissingTarget && ParentIn(Rows(root), id).None? && (id !in Rows(root) || id == root.id))
                         || (!Walkable(root) && (r.error == TooDeep || r.error == TooLarge))
    {
      var found := FindParent(root, id);
      RowsKeys(root);
      if found.Err? {
        if found.error.NodeMissing? {
          NoParent(root, id);
        }
        return Err(Lift(found.error));
      }
      ParentIs(root, found.value.0, found.value.1);
      return Ok(found.value);
    }

    method ReplayNodeId(raw: Fields) returns (r: Result<Option<NodeId>, EditError>)
      requires Valid()
      ensures r == ReplayId(raw, Rows(root).Keys) || (r.Err? && !Walkable(root) && (r.error == TooDeep || r.error == TooLarge))
    {
      match Get(raw, "node_id") {
        case JNull => return Ok(None);
        case JStr(s) =>
          if !IdOk(s) {
            return Err(InvalidNodeId);
          }
          var found := Find(s);
          if found.Ok? {
            return Err(DuplicateNodeId);
          }
          if found.error != MissingTarget {
            return Err(found.error);
          }
          return Ok(Some(s));
        case _ => return Err(InvalidNodeId);
      }
    }

    /** A list of one new symbol, under new ids or the replayed one. */
    method MakeForm(head: string, replay: Option<NodeId>) returns (r: Result<Tree, EditError>)
      requires Valid() && (replay.Some? ==> IdOk(replay.value) && replay.value != newId(next))
      modifies this`next
      ensures r.Err? <==> Utf8(head) > MAX_ATOM_VALUE_BYTES
      ensures r.Err? ==> r.error == AtomTooLarge
      ensures r.Ok? ==> next == old(next) + 2
      ensures r.Ok? ==> r.value == List(if replay.Some? then replay.value else newId(old(next) + 1), [Leaf(newId(old(next)), Symbol(head))])
      ensures r.Ok? ==> FormOf(r.value, head, if replay.Some? then replay.value else newId(old(next) + 1), newId(old(next)))
    {
      if Utf8(head) > MAX_ATOM_VALUE_BYTES {
        return Err(AtomTooLarge);
      }
      var h := newId(next);
      var w := if replay.Some? then replay.value else newId(next + 1);
      var form := List(w, [Leaf(h, Symbol(head))]);
      FormValid(w, h, head);
      var valid := ValidateTree(form);
      if !valid {
        assert false;
      }
      next := next + 2;
      return Ok(form);
    }

    /** Inserts a new subtree among the children of a list, at the end when no position is given. */
    method InsertNode(parent: Tree, node: Tree, value: Json) returns (r: Result<nat, EditError>)
      requires Unique(root) && Subtree(parent, root) && parent.List? && Unique(node) && IdSet(node) !! Rows(root).Keys
      modifies this`root
      ensures r == Place(value, |parent.children|)
      ensures r.Ok? <==> value.JNull? || (value.JInt? && 0 <= value.n <= |parent.children|)
      ensures r.Ok? ==> r.value == if value.JNull? then |parent.children| else value.n
      ensures r.Err? ==> r.error == InvalidPosition
      ensures r.Ok? ==> Unique(root) && root.id == old(root.id)
      ensures r.Ok? ==> Rows(root) == old(Rows(root))[parent.id := ListRow(InsertAt(Ids(parent.children), r.value, node.id))] + Rows(node)
    {
      hide *;
      r := Place(value, |parent.children|);
      PlaceIs(value, |parent.children|);
      if r.Ok? {
        var updated := List(parent.id, InsertAt(parent.children, r.value, node));
        GainsBy(parent, r.value, node, updated);
        RowsKeys(root);
        InsertChild(root, parent, r.value, node, updated);
        root := Graft(root, parent.id, updated);
      }
    }

    /** A form under new ids, or under the replayed one. */
    method NewForm(raw: Fields, head: string) returns (r: Result<Tree, EditError>)
      requires Valid() && NoClash(Request(raw), newId)
      modifies this`next
      ensures r.Err? ==>
        || (ReplayId(raw, Rows(root).Keys).Err? && r.error == ReplayId(raw, Rows(root).Keys).error)
        || (ReplayId(raw, Rows(root).Keys).Ok? && Utf8(head) > MAX_ATOM_VALUE_BYTES && r.error == AtomTooLarge)
        || (!Walkable(root) && (r.error == TooDeep || r.error == TooLarge))
      ensures r.Ok? ==> ReplayId(raw, Rows(root).Keys).Ok? && Utf8(head) <= MAX_ATOM_VALUE_BYTES && next == old(next) + 2
      ensures r.Ok? ==>
        var replay := ReplayId(raw, Rows(root).Keys).value;
        r.value.id == if replay.Some? then replay.value else newId(old(next) + 1)
      ensures r.Ok? ==>
        r.value.List? && FormOf(r.value, head, r.value.id, newId(old(next))) && r.value.id !in Rows(root) && newId(old(next)) !in Rows(root)
    {
      ValidParts();
      var replay :- ReplayNodeId(raw);
      NewFormIds(Abs(), raw, replay, newId);
      r := MakeForm(head, replay);
    }

    method InsertForm(parent: Tree, form: Tree, value: Json, ghost head: string, ghost h: NodeId) returns (r: Result<nat, EditError>)
      requires Unique(root) && Subtree(parent, root) && parent.List?
      requires FormOf(form, head, form.id, h) && form.id !in Rows(root) && h !in Rows(root)
      modifies this`root
      ensures r == Place(value, |parent.children|)
      ensures r.Ok? ==> Unique(root) && root.id == old(root.id)
      ensures r.Ok? ==>
        Rows(root) == old(Rows(root))[parent.id := ListRow(InsertAt(Ids(parent.children), r.value, form.id))][form.id := ListRow([h])][h := AtomRow(Symbol(head))]
    {
      hide *;
      FormParts(form, head, form.id, h);
      r := InsertNode(parent, form, value);
      if r.Ok? {
        FormRows(old(Rows(root)), parent.id, ListRow(InsertAt(Ids(parent.children), r.value, form.id)), form.id, h,
                 ListRow([h]), AtomRow(Symbol(head)));
      }
    }

    method InsertLeaf(parent: Tree, leaf: Tree, value: Json) returns (r: Result<nat, EditError>)
      requires Unique(root) && Subtree(parent, root) && parent.List? && leaf.Leaf? && leaf.id !in Rows(root)
      modifies this`root
      ensures r == Place(value, |parent.children|)
      ensures r.Ok? ==> Unique(root) && root.id == old(root.id)
      ensures r.Ok? ==>
        Rows(root) == old(Rows(root))[parent.id := ListRow(InsertAt(Ids(parent.children), r.value, leaf.id))][leaf.id := AtomRow(leaf.atom)]
    {
      hide *;
      LeafParts(leaf);
      r := InsertNode(parent, leaf, value);
      if r.Ok? {
        LeafRows(old(Rows(root))[parent.id := ListRow(InsertAt(Ids(parent.children), r.value, leaf.id))], leaf.id, AtomRow(leaf.atom));
      }
    }

    method CreateForm(raw: Fields) returns (r: Result<Effect, EditError>)
      requires Valid() && NoClash(Request(raw), newId)
      modifies this
      ensures Matches(r, BatchSpec.CreateForm(old(Abs()), raw, newId), old(Walkable(root)))
      ensures r.Ok? ==> Unique(root) && WellFormed(With(r.value), newId) && Accounted(old(Abs()), With(r.value), 2, 1, 1)
      ensures Uncounted(created, deleted, log, old(created), old(deleted), old(log))
    {
      ghost var d := Abs();
      hide WellFormed;
      hide Accounted;
      hide KidsOf;
      hide Resolve;
      hide Register;
      hide RequiredString;
      hide Place;
      hide OwnRow;
      hide Walkable;
      hide NoClash;
      hide Get;
      hide IdSet;
      hide Ids;
      hide InsertAt;
      ValidParts();
      if !(raw.Keys <= FORM_FIELDS) {
        return Err(UnknownField);
      }
      var parentId :- Resolve(Get(raw, "parent"), aliases);
      var head :- RequiredString(raw, "head");
      var parent :- Find(parentId);
      if parent.Leaf? {
        return Err(NotList);
      }
      var form :- NewForm(raw, head);
      var position :- InsertForm(parent, form, Get(raw, "position"), head, newId(d.next));
      aliases :- Register(Get(raw, "as"), form.id, aliases);
      CreateFormKeeps(d, Request(raw), newId);
      return Ok(Effect("create_form", parentId, 1, 0));
    }

    method AddAtom(raw: Fields) returns (r: Result<Effect, EditError>)
      requires Valid() && NoClash(Request(raw), newId)
      modifies this
      ensures Matches(r, BatchSpec.AddAtom(old(Abs()), raw, newId), old(Walkable(root)))
      ensures r.Ok? ==> Unique(root) && WellFormed(With(r.value), newId) && Accounted(old(Abs()), With(r.value), 1, 1, 1)
      ensures Uncounted(created, deleted, log, old(created), old(deleted), old(log))
    {
      ghost var d := Abs();
      hide Register;
      hide NoClash;
      hide Get;
      hide IdSet;
      hide Ids;
      hide InsertAt;
      hide MakeAtom;
      ValidParts();
      if !(raw.Keys <= ATOM_FIELDS) {
        return Err(UnknownField);
      }
      var parentId :- Resolve(Get(raw, "parent"), aliases);
      var kind :- RequiredString(raw, "kind");
      if kind !in ATOM_KINDS {
        return Err(InvalidAtomKind);
      }
      if "value" !in raw {
        return Err(MissingValue);
      }
      var parent :- Find(parentId);
      if parent.Leaf? {
        return Err(NotList);
      }
      var replay :- ReplayNodeId(raw);
      NewFormIds(d, raw, replay, newId);
      var a :- MakeAtom(kind, raw["value"]);
      var node := Leaf(if replay.Some? then replay.value else newId(next), a);
      next := next + 1;
      var position :- InsertLeaf(parent, node, Get(raw, "position"));
      aliases :- Register(Get(raw, "as"), node.id, aliases);
      AddAtomKeeps(d, Request(raw), newId);
      return Ok(Effect("add_atom", parentId, 1, 0));
    }

    method SetAtom(raw: Fields) returns (r: Result<Effect, EditError>)
      requires Valid()
      modifies this
      ensures Matches(r, BatchSpec.SetAtom(old(Abs()), raw), old(Walkable(root)))
      ensures r.Ok? ==> Unique(root) && WellFormed(With(r.value), newId) && Accounted(old(Abs()), With(r.value), 0, 0, 1)
      ensures Uncounted(created, deleted, log, old(created), old(deleted), old(log))
    {
      ghost var d := Abs();
      if !(raw.Keys <= SET_FIELDS) {
        return Err(UnknownField);
      }
      var id :- Resolve(Get(raw, "node"), aliases);
      if "value" !in raw {
        return Err(MissingValue);
      }
      var node :- Find(id);
      if node.List? {
        return Err(NotAtom);
      }
      var a :- MakeAtom(KindName(KindOf(node)), raw["value"]);
      SetLeaf(root, node, a);
      root := Graft(root, id, Leaf(id, a));
      SetAtomKeeps(d, Request(raw), newId);
      return Ok(Effect("set_atom", id, 0, 0));
    }

    method MoveNode(raw: Fields) returns (r: Result<Effect, EditError>)
      requires Valid()
      modifies this
      ensures Matches(r, BatchSpec.MoveNode(old(Abs()), raw), old(Walkable(root)))
      ensures r.Ok? ==> Unique(root) && WellFormed(With(r.value), newId) && Accounted(old(Abs()), With(r.value), 0, 0, 1)
      ensures r.Ok? ==> exists node: Tree :: node.id == r.value.target && Subtree(node, old(root)) && Subtree(node, root)
      ensures Uncounted(created, deleted, log, old(created), old(deleted), old(log))
    {
      ghost var d := Abs();
      hide Valid;
      hide Rows;
      hide Unique;
      hide Subtree;
      hide WellFormed;
      hide Accounted;
      hide Resolve;
      hide Place;
      ValidParts();
      if !(raw.Keys <= MOVE_FIELDS) {
        return Err(UnknownField);
      }
      var id :- Resolve(Get(raw, "node"), aliases);
      var newParentId :- Resolve(Get(raw, "new_parent"), aliases);
      if root.id == id {
        return Err(MoveRoot);
      }
      var node :- Find(id);
      var inside :- Inside(node, newParentId);
      if inside {
        return Err(MoveCycle);
      }
      var at :- Parent(id);
      var oldParent, oldPosition := at.0, at.1;
      ParentParts(root, oldParent, oldPosition, id);
      var newParent :- Find(newParentId);
      if newParent.Leaf? {
        return Err(NotList);
      }
      ghost var kids := if newParentId == oldParent.id then RemoveAt(Ids(oldParent.children), oldPosition) else Ids(newParent.children);
      var _ :- Reattach(node, oldParent, oldPosition, newParent, kids, Get(raw, "position"));
      MoveNodeKeeps(d, Request(raw), newId);
      return Ok(Effect("move_node", id, 0, 0));
    }

    /** Takes the node out of its list and puts it into the other, whose children are counted after it has
        been taken out. */
    method Reattach(node: Tree, oldParent: Tree, oldPosition: nat, newParent: Tree, ghost kids: seq<NodeId>, value: Json)
      returns (r: Result<nat, EditError>)
      requires Unique(root) && IsParent(root, oldParent, oldPosition, node.id) && Subtree(node, root)
      requires Subtree(newParent, root) && newParent.List? && newParent.id !in Descendants(Rows(root), node.id)
      requires kids == if newParent.id == oldParent.id then RemoveAt(Ids(oldParent.children), oldPosition) else Ids(newParent.children)
      modifies this`root
      ensures r == Place(value, |kids|)
      ensures r.Ok? ==> Unique(root) && root.id == old(root.id) && Subtree(node, root)
      ensures r.Ok? ==> Rows(root) == old(Rows(root))[oldParent.id := ListRow(RemoveAt(Ids(oldParent.children), oldPosition))]
                                                     [newParent.id := ListRow(InsertAt(kids, r.value, node.id))]
    {
      hide *;
      ghost var before := root;
      ParentParts(root, oldParent, oldPosition, node.id);
      Taken(root, oldParent, oldPosition, node, newParent);
      root := Graft(root, oldParent.id, List(oldParent.id, RemoveAt(oldParent.children, oldPosition)));
      var target := Lookup(root, newParent.id);
      var place := Place(value, |target.children|);
      if place.Ok? {
        PutBack(before, oldParent, oldPosition, node, target, place.value);
        root := Graft(root, newParent.id, List(newParent.id, InsertAt(target.children, place.value, node)));
      }
      return place;
    }

    /** Whether the id names a node of the subtree. */
    method Inside(node: Tree, id: NodeId) returns (r: Result<bool, EditError>)
      requires Valid() && Subtree(node, root)
      ensures r.Ok? ==> r.value == (id in Descendants(Rows(root), node.id))
      ensures r.Err? ==> !Walkable(root) && (r.error == TooDeep || r.error == TooLarge)
    {
      var found := FindNode(node, id);
      DescendantsAre(root, node);
      if found.Err? && !found.error.NodeMissing? {
        if Walkable(root) {
          WalkableBelow(node, root);
          assert false;
        }
        return Err(Lift(found.error));
      }
      return Ok(found.Ok?);
    }

    /** Moves a child into the form and the form into the child's place. */
    method PutAround(form: Tree, parent: Tree, position: nat, ghost head: string, ghost h: NodeId)
      requires Unique(root) && Subtree(parent, root) && parent.List? && position < |parent.children|
      requires form.List? && FormOf(form, head, form.id, h) && form.id !in Rows(root) && h !in Rows(root)
      modifies this`root
      ensures Unique(root) && root.id == old(root.id)
      ensures Rows(root) == old(Rows(root))[parent.id := ListRow(Ids(parent.children)[position := form.id])]
                                           [form.id := ListRow([h, parent.children[position].id])][h := AtomRow(Symbol(head))]
    {
      hide *;
      var wrapper := List(form.id, form.children + [parent.children[position]]);
      var updated := List(parent.id, parent.children[position := wrapper]);
      WrapApplied(root, parent, position, form, head, h, updated);
      root := Graft(root, parent.id, updated);
    }

    method WrapNode(raw: Fields) returns (r: Result<Effect, EditError>)
      requires Valid() && NoClash(Request(raw), newId)
      modifies this
      ensures Matches(r, BatchSpec.WrapNode(old(Abs()), raw, newId), old(Walkable(root)))
      ensures r.Ok? ==> Unique(root) && WellFormed(With(r.value), newId) && Accounted(old(Abs()), With(r.value), 2, 1, 1)
      ensures Uncounted(created, deleted, log, old(created), old(deleted), old(log))
    {
      ghost var d := Abs();
      hide Valid;
      hide Rows;
      hide Unique;
      hide Subtree;
      hide WellFormed;
      hide Accounted;
      hide ReplayId;
      hide Resolve;
      hide Register;
      hide Ids;
      hide IndexOf;
      hide FormOf;
      hide Descendants;
      hide ParentIn;
      hide IsParent;
      ValidParts();
      if !(raw.Keys <= WRAP_FIELDS) {
        return Err(UnknownField);
      }
      var id :- Resolve(Get(raw, "node"), aliases);
      var head :- RequiredString(raw, "head");
      if root.id == id {
        return Err(WrapRoot);
      }
      var at :- Parent(id);
      var parent, position := at.0, at.1;
      ParentParts(root, parent, position, id);
      var form :- NewForm(raw, head);
      PutAround(form, parent, position, head, newId(d.next));
      aliases :- Register(Get(raw, "as"), form.id, aliases);
      WrapNodeKeeps(d, Request(raw), newId);
      return Ok(Effect("wrap_node", id, 1, 0));
    }

    method DeleteNode(raw: Fields) returns (r: Result<Effect, EditError>)
      requires Valid()
      modifies this
      ensures Matches(r, BatchSpec.DeleteNode(old(Abs()), raw), old(Walkable(root)))
      ensures r.Ok? ==> Unique(root) && WellFormed(With(r.value), newId) && Accounted(old(Abs()), With(r.value), 0, 0, 1)
      ensures Uncounted(created, deleted, log, old(created), old(deleted), old(log))
    {
      ghost var d := Abs();
      hide Unique;
      hide Accounted;
      hide IdSet;
      hide RemoveAt;
      hide Descendants;
      hide IsParent;
      hide Names;
      hide Live;
      ValidParts();
      if !(raw.Keys <= DELETE_FIELDS) {
        return Err(UnknownField);
      }
      var id :- Resolve(Get(raw, "node"), aliases);
      if root.id == id {
        return Err(DeleteRoot);
      }
      var at :- Parent(id);
      var parent, position := at.0, at.1;
      ParentParts(root, parent, position, id);
      var removed := parent.children[position];
      var updated := List(parent.id, RemoveAt(parent.children, position));
      var nodes, error := WalkNodes(removed);
      if error.Some? {
        if Walkable(root) {
          WalkableBelow(removed, root);
          assert false;
        }
        return Err(Lift(error.value));
      }
      NodesAre(removed);
      RemoveChild(root, parent, position, updated);
      root := Graft(root, parent.id, updated);
      aliases := Live(aliases, Names(nodes));
      DeleteNodeKeeps(d, Request(raw), newId);
      return Ok(Effect("delete_node", id, 0, |Names(nodes)|));
    }

    /** Dispatches one request to its handler. */
    method ApplyOne(request: Request) returns (r: Result<Effect, EditError>)
      requires Valid() && NoClash(request, newId)
      modifies this
      ensures Matches(r, Edit(old(Abs()), request, newId), old(Walkable(root)))
      ensures r.Ok? ==> Unique(root) && WellFormed(With(r.value), newId)
      ensures r.Ok? ==> Accounted(old(Abs()), With(r.value), Weight(request), Counted(request), 1)
      ensures Uncounted(created, deleted, log, old(created), old(deleted), old(log))
    {
      if request.NotAnObject? || !Get(request.fields, "op").JStr? {
        FailsAs(InvalidOperation, Edit(Abs(), request, newId), Walkable(root));
        return Err(InvalidOperation);
      }
      var raw, op := request.fields, Get(request.fields, "op").s;
      match op {
        case "create_form" => r := CreateForm(raw);
        case "add_atom" => r := AddAtom(raw);
        case "set_atom" => r := SetAtom(raw);
        case "move_node" => r := MoveNode(raw);
        case "wrap_node" => r := WrapNode(raw);
        case "delete_node" => r := DeleteNode(raw);
        case _ =>
          FailsAs(UnknownOperation, Edit(Abs(), request, newId), Walkable(root));
          return Err(UnknownOperation);
      }
    }

    lemma FailsAs(e: EditError, spec: Result<Doc, EditError>, walkable: bool)
      requires spec == Err(e)
      ensures Matches(Err(e), spec, walkable)
    {
    }

    lemma TableOf(t: Tree)
      requires Valid() && t == root
      ensures Unique(t) && Abs() == Doc(t.id, Rows(t), aliases, next, created, deleted, log)
    {
    }

    lemma WithIs(effect: Effect)
      ensures With(effect) == Doc(root.id, Rows(root), aliases, next, created + effect.created, deleted + effect.deleted,
                                  log + [(effect.op, effect.target)])
    {
    }

    lemma NowValid(d: Doc)
      requires Unique(root) && WellFormed(d, newId) && d == Doc(root.id, Rows(root), aliases, next, created, deleted, log)
      ensures Valid() && Abs() == d
    {
    }

    // The totals of a run, in terms of trees.
    lemma Totals(start: Tree, d: Doc, weight: nat, counted: nat, edits: nat)
      requires Valid() && Unique(start) && d.rows == Rows(start) && d.root == start.id && Accounted(d, Abs(), weight, counted, edits)
      ensures root.id == start.id && LiveAliases(aliases, Rows(root))
      ensures Size(root) + deleted == Size(start) + d.deleted + weight
      ensures created == d.created + counted && |log| == |d.log| + edits
    {
      SizeIsCount(start);
      SizeIsCount(root);
      RowsKeys(start);
      RowsKeys(root);
      assert |Rows(root)| == |Rows(root).Keys| && |Rows(start)| == |Rows(start).Keys|;
    }

    lemma MatchesParts(r: Result<Effect, EditError>, spec: Result<Doc, EditError>, walkable: bool)
      requires Matches(r, spec, walkable)
      ensures r.Ok? ==> spec == Ok(With(r.value))
      ensures r.Err? ==> spec == Err(r.error) || r.error == TooDeep || r.error == TooLarge
    {
    }

    /** Applies the requests in order and validates the result. A run that succeeds is the specified one:
        the root, the ids and the aliases are in order and every node is accounted for. A run that fails
        does so for the reason specified, or because a limit was passed. */
    method Transform(requests: seq<Request>) returns (r: Result<(), EditError>)
      requires Valid() && forall i :: 0 <= i < |requests| ==> NoClash(requests[i], newId)
      modifies this
      ensures |requests| == 0 ==> r == Err(EmptyBatch)
      ensures |requests| > 0 && |requests| > MAX_BATCH_OPERATIONS ==> r == Err(BatchTooLarge)
      ensures r.Ok? ==> Valid() && ValidTree(root) && Run(old(Abs()), requests, newId) == Ok(Abs())
      ensures r.Ok? ==> BatchLaws.Carries(old(Abs()), requests, newId, Abs())
      ensures r.Ok? ==> root.id == old(root.id) && LiveAliases(aliases, Rows(root))
      ensures r.Ok? ==> Size(root) + deleted == old(Size(root)) + old(deleted) + TotalWeight(requests)
      ensures r.Ok? ==> created == old(created) + TotalCounted(requests) && |log| == |old(log)| + |requests|
      ensures r.Err? && 1 <= |requests| <= MAX_BATCH_OPERATIONS ==>
        || Run(old(Abs()), requests, newId) == Err(r.error)
        || r.error == TooDeep || r.error == TooLarge
        || (r.error == InvalidTree && Run(old(Abs()), requests, newId) == Ok(Abs()) && Unique(root) && !ValidTree(root))
    {
      hide *;
      if |requests| == 0 {
        return Err(EmptyBatch);
      }
      if |requests| > MAX_BATCH_OPERATIONS {
        return Err(BatchTooLarge);
      }
      ghost var d, start := Abs(), root;
      RunStart(d, requests, newId);
      BatchLaws.NothingCarried(d, requests, newId);
      TableOf(start);
      for k := 0 to |requests|
        invariant Valid() && Run(d, requests[..k], newId) == Ok(Abs()) && BatchLaws.Carries(d, requests[..k], newId, Abs())
        invariant Unique(start) && d.rows == Rows(start) && d.root == start.id && d.deleted == old(deleted) && d.created == old(created)
        invariant d.log == old(log) && Accounted(d, Abs(), TotalWeight(requests[..k]), TotalCounted(requests[..k]), k)
      {
        ghost var before, walkable := Abs(), Walkable(root);
        ghost var tree := root;
        TableOf(tree);
        ValidParts();
        var applied := ApplyOne(requests[k]);
        MatchesParts(applied, Edit(before, requests[k], newId), walkable);
        RunNext(d, requests, k, newId);
        if applied.Err? {
          if Edit(before, requests[k], newId).Err? {
            RunFails(d, requests, k + 1, newId);
          }
          return Err(applied.error);
        }
        ghost var after := With(applied.value);
        BatchLaws.CarriedOn(d, requests, k, newId, before, after, tree);
        AccountedChain(d, before, after, TotalWeight(requests[..k]), Weight(requests[k]), TotalCounted(requests[..k]), Counted(requests[k]), k);
        WithIs(applied.value);
        created, deleted := created + applied.value.created, deleted + applied.value.deleted;
        log := log + [(applied.value.op, applied.value.target)];
        NowValid(after);
      }
      assert requests[..|requests|] == requests;
      Totals(start, d, TotalWeight(requests), TotalCounted(requests), |requests|);
      var valid := ValidateTree(root);
      if !valid {
        ValidParts();
        return Err(InvalidTree);
      }
      return Ok(());
    }
  }

  /** The tree with the node taken out still has the list it goes to. */
  lemma Taken(t: Tree, p: Tree, i: nat, node: Tree, q: Tree)
    requires Unique(t) && IsParent(t, p, i, node.id) && Subtree(node, t)
    requires Subtree(q, t) && q.List? && q.id !in Descendants(Rows(t), node.id)
    ensures var t1 := Graft(t, p.id, List(p.id, RemoveAt(p.children, i)));
      && node == p.children[i] && Unique(t1) && t1.id == t.id && q.id in IdSet(t1)
      && Lookup(t1, q.id).List?
      && Ids(Lookup(t1, q.id).children) == if q.id == p.id then RemoveAt(Ids(p.children), i) else Ids(q.children)
  {
    hide *;
    ParentParts(t, p, i, node.id);
    var base := List(p.id, RemoveAt(p.children, i));
    var t1 := Graft(t, p.id, base);
    OneNode(node, p.children[i], t);
    RemoveChild(t, p, i, base);
    SubtreeIds(q, t);
    FoundRow(t, q);
    OwnList(q);
    FoundRow(t1, Lookup(t1, q.id));
    ListFound(Lookup(t1, q.id), if q.id == p.id then RemoveAt(Ids(p.children), i) else Ids(q.children));
  }

  lemma ListFound(t: Tree, kids: seq<NodeId>)
    requires OwnRow(t) == ListRow(kids)
    ensures t.List? && Ids(t.children) == kids
  {
  }

  lemma PutBack(t: Tree, p: Tree, i: nat, node: Tree, target: Tree, position: nat)
    requires Unique(t) && IsParent(t, p, i, node.id) && node == p.children[i]
    requires var t1 := Graft(t, p.id, List(p.id, RemoveAt(p.children, i)));
      Unique(t1) && Subtree(target, t1) && target.List? && position <= |target.children|
    ensures var t1 := Graft(t, p.id, List(p.id, RemoveAt(p.children, i)));
      var t2 := Graft(t1, target.id, List(target.id, InsertAt(target.children, position, node)));
      && Unique(t2) && t2.id == t.id && Subtree(node, t2)
      && Rows(t2) == Rows(t)[p.id := ListRow(RemoveAt(Ids(p.children), i))]
                            [target.id := ListRow(InsertAt(Ids(target.children), position, node.id))]
  {
    hide *;
    ParentParts(t, p, i, node.id);
    var base, updated := List(p.id, RemoveAt(p.children, i)), List(target.id, InsertAt(target.children, position, node));
    var t1 := Graft(t, p.id, base);
    RemoveChild(t, p, i, base);
    SubtreeIds(target, t1);
    SubtreeIds(p, t);
    InsertChild(t1, target, position, node, updated) by {
      GainsBy(target, position, node, updated);
    }
    ChildSubtree(t, p, i) by {
      ParentParts(t, p, i, node.id);
    }
    RowsKeys(node);
    RowsKeys(t);
    MovedRows(Rows(t), Rows(node), p.id, target.id, ListRow(RemoveAt(Ids(p.children), i)),
              ListRow(InsertAt(Ids(target.children), position, node.id)));
  }

  lemma PlaceIs(value: Json, length: nat)
    ensures Place(value, length) ==
            if value.JNull? then Ok(length) else if value.JInt? && 0 <= value.n <= length then Ok(value.n) else Err(InvalidPosition)
  {
  }

  lemma GainsBy(p: Tree, i: nat, node: Tree, q: Tree)
    requires p.List? && i <= |p.children| && q == List(p.id, InsertAt(p.children, i, node))
    ensures Gains(p, i, node, q)
  {
  }

  lemma WrapApplied(t: Tree, p: Tree, i: nat, form: Tree, head: string, h: NodeId, updated: Tree)
    requires Unique(t) && Subtree(p, t) && p.List? && i < |p.children| && FormOf(form, head, form.id, h)
    requires form.id !in Rows(t) && h !in Rows(t) && form.List?
    requires updated == List(p.id, p.children[i := List(form.id, form.children + [p.children[i]])])
    ensures var g := Graft(t, p.id, updated);
      && g.id == t.id && Unique(g)
      && Rows(g) == Rows(t)[p.id := ListRow(Ids(p.children)[i := form.id])][form.id := ListRow([h, p.children[i].id])][h := AtomRow(Symbol(head))]
  {
    RowsKeys(t);
    assert form.children + [p.children[i]] == [Leaf(h, Symbol(head)), p.children[i]];
    WrapChild(t, p, i, form.id, h, Symbol(head), updated);
  }

  lemma LeafParts(node: Tree)
    requires node.Leaf?
    ensures Unique(node) && IdSet(node) == {node.id} && Rows(node) == map[node.id := AtomRow(node.atom)]
  {
  }

  lemma LeafRows(rows: Table, x: NodeId, row: Row)
    ensures rows + map[x := row] == rows[x := row]
  {
  }

  lemma AccountedChain(d: Doc, e: Doc, f: Doc, w: nat, w1: nat, c: nat, c1: nat, k: nat)
    requires Accounted(d, e, w, c, k) && Accounted(e, f, w1, c1, 1)
    ensures Accounted(d, f, w + w1, c + c1, k + 1)
  {
  }

  lemma RunStart(d: Doc, requests: seq<Request>, newId: Supply)
    ensures Run(d, requests[..0], newId) == Ok(d) && Accounted(d, d, TotalWeight(requests[..0]), TotalCounted(requests[..0]), 0)
  {
  }

  lemma RunNext(d: Doc, requests: seq<Request>, k: nat, newId: Supply)
    requires k < |requests| && Run(d, requests[..k], newId).Ok?
    ensures Run(d, requests[..k + 1], newId) == Edit(Run(d, requests[..k], newId).value, requests[k], newId)
    ensures TotalWeight(requests[..k + 1]) == TotalWeight(requests[..k]) + Weight(requests[k])
    ensures TotalCounted(requests[..k + 1]) == TotalCounted(requests[..k]) + Counted(requests[k])
  {
    assert requests[..k + 1][..k] == requests[..k];
    hide Edit;
  }

  /** A run fails with its first failure. */
  lemma {:induction false} RunFails(d: Doc, requests: seq<Request>, k: nat, newId: Supply)
    requires k <= |requests| && Run(d, requests[..k], newId).Err?
    ensures Run(d, requests, newId) == Run(d, requests[..k], newId)
    decreases |requests|
  {
    hide Edit;
    if k < |requests| {
      var init := requests[..|requests| - 1];
      assert init[..k] == requests[..k];
      RunFails(d, init, k, newId);
    } else {
      assert requests[..k] == requests;
    }
  }

  predicate Uncounted(created: nat, deleted: nat, log: seq<(string, NodeId)>, created0: nat, deleted0: nat, log0: seq<(string, NodeId)>) {
    created == created0 && deleted == deleted0 && log == log0
  }

  lemma FormParts(form: Tree, head: string, w: NodeId, h: NodeId)
    requires FormOf(form, head, w, h)
    ensures w != h && Unique(form) && IdSet(form) == {w, h} && Rows(form) == map[w := ListRow([h]), h := AtomRow(Symbol(head))]
  {
  }

  /** The form's shape, ids and rows. */
  ghost predicate FormOf(form: Tree, head: string, w: NodeId, h: NodeId) {
    && form == List(w, [Leaf(h, Symbol(head))]) && w != h && Unique(form) && IdSet(form) == {w, h} && Size(form) == 2
    && Rows(form) == map[w := ListRow([h]), h := AtomRow(Symbol(head))]
  }
}
