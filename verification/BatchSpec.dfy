/** What each structural edit does to the table of a document, and what every run of edits keeps
    (src/weave_frontend/batch_edit.py). */
module BatchSpec {
  import opened Prelude
  import opened Chars
  import opened Trees
  import opened Atoms
  import opened Validity
  import opened TreeTables

  const MAX_BATCH_OPERATIONS := 256

  // ----- requests

  datatype Json = JNull | JBool(b: bool) | JInt(n: int) | JFloat(lexeme: string) | JStr(s: string) | JOther

  type Fields = map<string, Json>

  datatype Request = NotAnObject | Request(fields: Fields)

  datatype EditError =
    | EmptyBatch
    | BatchTooLarge
    | InvalidOperation
    | UnknownOperation
    | UnknownField
    | InvalidReference
    | UnknownAlias
    | InvalidAlias
    | DuplicateAlias
    | InvalidNodeId
    | DuplicateNodeId
    | InvalidPosition
    | MissingValue
    | InvalidAtomKind
    | InvalidValue
    | AtomTooLarge
    | NotList
    | NotAtom
    | MoveRoot
    | MoveCycle
    | WrapRoot
    | DeleteRoot
    | MissingTarget
    | TooDeep
    | TooLarge
    | InvalidTree

  function Get(raw: Fields, name: string): Json {
    if name in raw then raw[name] else JNull
  }

  function RequiredString(raw: Fields, name: string): Result<string, EditError> {
    match Get(raw, name)
    case JStr(s) => if s == "" then Err(InvalidOperation) else Ok(s)
    case _ => Err(InvalidOperation)
  }

  // ----- the state of a batch

  type Aliases = map<string, NodeId>

  /** The document as a table, the alias table, the supply counter and the running totals. */
  datatype Doc = Doc(root: NodeId, rows: Table, aliases: Aliases, next: nat, created: nat, deleted: nat, log: seq<(string, NodeId)>)

  function Resolve(value: Json, aliases: Aliases): Result<NodeId, EditError> {
    match value
    case JStr(s) =>
      if s == "" then Err(InvalidReference)
      else if s[0] != '@' then Ok(s)
      else if s[1..] in aliases then Ok(aliases[s[1..]])
      else Err(UnknownAlias)
    case _ => Err(InvalidReference)
  }

  predicate AliasOk(s: string) {
    && 1 <= |s| <= 64
    && ('A' <= s[0] <= 'Z' || 'a' <= s[0] <= 'z')
    && forall i :: 1 <= i < |s| ==> IdChar(s[i])
  }

  function Register(value: Json, id: NodeId, aliases: Aliases): Result<Aliases, EditError> {
    match value
    case JNull => Ok(aliases)
    case JStr(s) =>
      if !AliasOk(s) then Err(InvalidAlias)
      else if s in aliases then Err(DuplicateAlias)
      else Ok(aliases[s := id])
    case _ => Err(InvalidAlias)
  }

  /** The id a replayed request asks for, if any. */
  function ReplayId(raw: Fields, used: set<NodeId>): Result<Option<NodeId>, EditError> {
    match Get(raw, "node_id")
    case JNull => Ok(None)
    case JStr(s) =>
      if !IdOk(s) then Err(InvalidNodeId) else if s in used then Err(DuplicateNodeId) else Ok(Some(s))
    case _ => Err(InvalidNodeId)
  }

  function Place(value: Json, length: nat): (r: Result<nat, EditError>)
    ensures r.Ok? ==> r.value <= length
  {
    match value
    case JNull => Ok(length)
    case JInt(n) => if 0 <= n <= length then Ok(n) else Err(InvalidPosition)
    case _ => Err(InvalidPosition)
  }

  function KindName(k: Kind): string {
    match k
    case ListKind => "list"
    case SymbolKind => "symbol"
    case StringKind => "string"
    case IntegerKind => "integer"
    case FloatKind => "float"
    case BooleanKind => "boolean"
  }

  const ATOM_KINDS: set<string> := {"symbol", "string", "integer", "float", "boolean"}

  function MakeAtom(kind: string, value: Json): Result<Atom, EditError> {
    var a :- match value
      case JStr(s) =>
        if kind == "symbol" then Ok(Symbol(s)) else if kind == "string" then Ok(Text(s)) else Err(InvalidValue)
      case JInt(n) =>
        if kind == "integer" then Ok(Integer(n)) else if kind == "float" then Ok(Float(IntText(n) + ".0")) else Err(InvalidValue)
      case JFloat(lexeme) => if kind == "float" then Ok(Float(lexeme)) else Err(InvalidValue)
      case JBool(b) => if kind == "boolean" then Ok(Boolean(b)) else Err(InvalidValue)
      case _ => Err(InvalidValue);
    if AtomBytes(a) > MAX_ATOM_VALUE_BYTES then Err(AtomTooLarge) else Ok(a)
  }

  /** The child ids of a list. */
  function KidsOf(rows: Table, x: NodeId): Result<seq<NodeId>, EditError> {
    if x !in rows then Err(MissingTarget) else if rows[x].AtomRow? then Err(NotList) else Ok(rows[x].kids)
  }

  ghost function ParentIn(rows: Table, x: NodeId): Option<NodeId> {
    if exists p :: Linked(rows, p, x) then
      var p :| Linked(rows, p, x);
      Some(p)
    else None
  }

  function IndexOf<T(==)>(s: seq<T>, x: T): nat
    requires x in s
    ensures IndexOf(s, x) < |s| && s[IndexOf(s, x)] == x
  {
    if s[0] == x then 0 else 1 + IndexOf(s[1..], x)
  }

  // ----- the edits

  const FORM_FIELDS: set<string> := {"op", "parent", "head", "position", "as", "node_id"}
  const ATOM_FIELDS: set<string> := {"op", "parent", "kind", "value", "position", "as", "node_id"}
  const SET_FIELDS: set<string> := {"op", "node", "value"}
  const MOVE_FIELDS: set<string> := {"op", "node", "new_parent", "position"}
  const WRAP_FIELDS: set<string> := {"op", "node", "head", "as", "node_id"}
  const DELETE_FIELDS: set<string> := {"op", "node"}

  /** A new list headed by a new symbol: two nodes, counted as one. */
  function CreateForm(d: Doc, raw: Fields, newId: Supply): Result<Doc, EditError> {
    if !(raw.Keys <= FORM_FIELDS) then Err(UnknownField) else
    var parent :- Resolve(Get(raw, "parent"), d.aliases);
    var head :- RequiredString(raw, "head");
    var kids :- KidsOf(d.rows, parent);
    var replay :- ReplayId(raw, d.rows.Keys);
    if Utf8(head) > MAX_ATOM_VALUE_BYTES then Err(AtomTooLarge) else
    var h := newId(d.next);
    var form := if replay.Some? then replay.value else newId(d.next + 1);
    var position :- Place(Get(raw, "position"), |kids|);
    var aliases :- Register(Get(raw, "as"), form, d.aliases);
    Ok(d.(rows := d.rows[parent := ListRow(InsertAt(kids, position, form))][form := ListRow([h])][h := AtomRow(Symbol(head))],
          aliases := aliases,
          next := d.next + 2,
          created := d.created + 1,
          log := d.log + [("create_form", parent)]))
  }

  function AddAtom(d: Doc, raw: Fields, newId: Supply): Result<Doc, EditError> {
    if !(raw.Keys <= ATOM_FIELDS) then Err(UnknownField) else
    var parent :- Resolve(Get(raw, "parent"), d.aliases);
    var kind :- RequiredString(raw, "kind");
    if kind !in ATOM_KINDS then Err(InvalidAtomKind) else
    if "value" !in raw then Err(MissingValue) else
    var kids :- KidsOf(d.rows, parent);
    var replay :- ReplayId(raw, d.rows.Keys);
    var a :- MakeAtom(kind, raw["value"]);
    var id := if replay.Some? then replay.value else newId(d.next);
    var position :- Place(Get(raw, "position"), |kids|);
    var aliases :- Register(Get(raw, "as"), id, d.aliases);
    Ok(d.(rows := d.rows[parent := ListRow(InsertAt(kids, position, id))][id := AtomRow(a)],
          aliases := aliases,
          next := d.next + 1,
          created := d.created + 1,
          log := d.log + [("add_atom", parent)]))
  }

  /** A new value of the atom's own kind. */
  function SetAtom(d: Doc, raw: Fields): Result<Doc, EditError> {
    if !(raw.Keys <= SET_FIELDS) then Err(UnknownField) else
    var id :- Resolve(Get(raw, "node"), d.aliases);
    if "value" !in raw then Err(MissingValue) else
    if id !in d.rows then Err(MissingTarget) else
    if d.rows[id].ListRow? then Err(NotAtom) else
    var a :- MakeAtom(KindName(KindOf(Leaf(id, d.rows[id].atom))), raw["value"]);
    Ok(d.(rows := d.rows[id := AtomRow(a)], log := d.log + [("set_atom", id)]))
  }

  /** The position counts the children that are left once the node is taken out. */
  ghost function MoveNode(d: Doc, raw: Fields): Result<Doc, EditError> {
    if !(raw.Keys <= MOVE_FIELDS) then Err(UnknownField) else
    var id :- Resolve(Get(raw, "node"), d.aliases);
    var newParent :- Resolve(Get(raw, "new_parent"), d.aliases);
    if d.root == id then Err(MoveRoot) else
    if id !in d.rows then Err(MissingTarget) else
    if newParent in Descendants(d.rows, id) then Err(MoveCycle) else
    if ParentIn(d.rows, id).None? then Err(MissingTarget) else
    var p := ParentIn(d.rows, id).value;
    var targetKids :- KidsOf(d.rows, newParent);
    var taken := d.rows[p := ListRow(RemoveAt(d.rows[p].kids, IndexOf(d.rows[p].kids, id)))];
    var kids := if newParent == p then taken[p].kids else targetKids;
    var position :- Place(Get(raw, "position"), |kids|);
    Ok(d.(rows := taken[newParent := ListRow(InsertAt(kids, position, id))], log := d.log + [("move_node", id)]))
  }

  /** A new list, headed by a new symbol, in the place of the node and around it: two nodes, counted as
      one. */
  ghost function WrapNode(d: Doc, raw: Fields, newId: Supply): Result<Doc, EditError> {
    if !(raw.Keys <= WRAP_FIELDS) then Err(UnknownField) else
    var id :- Resolve(Get(raw, "node"), d.aliases);
    var head :- RequiredString(raw, "head");
    if d.root == id then Err(WrapRoot) else
    if ParentIn(d.rows, id).None? then Err(MissingTarget) else
    var p := ParentIn(d.rows, id).value;
    var replay :- ReplayId(raw, d.rows.Keys);
    if Utf8(head) > MAX_ATOM_VALUE_BYTES then Err(AtomTooLarge) else
    var h := newId(d.next);
    var form := if replay.Some? then replay.value else newId(d.next + 1);
    var aliases :- Register(Get(raw, "as"), form, d.aliases);
    Ok(d.(rows := d.rows[p := ListRow(d.rows[p].kids[IndexOf(d.rows[p].kids, id) := form])][form := ListRow([h, id])][h := AtomRow(Symbol(head))],
          aliases := aliases,
          next := d.next + 2,
          created := d.created + 1,
          log := d.log + [("wrap_node", id)]))
  }

  /** The node, everything under it, and the aliases of any of these. */
  ghost function DeleteNode(d: Doc, raw: Fields): Result<Doc, EditError> {
    if !(raw.Keys <= DELETE_FIELDS) then Err(UnknownField) else
    var id :- Resolve(Get(raw, "node"), d.aliases);
    if d.root == id then Err(DeleteRoot) else
    if ParentIn(d.rows, id).None? then Err(MissingTarget) else
    var p := ParentIn(d.rows, id).value;
    var removed := Descendants(d.rows, id);
    Ok(d.(rows := (d.rows - removed)[p := ListRow(RemoveAt(d.rows[p].kids, IndexOf(d.rows[p].kids, id)))],
          aliases := Live(d.aliases, removed),
          deleted := d.deleted + |removed|,
          log := d.log + [("delete_node", id)]))
  }

  function Live(aliases: Aliases, removed: set<NodeId>): Aliases {
    map name | name in aliases && aliases[name] !in removed :: aliases[name]
  }

  ghost function Edit(d: Doc, request: Request, newId: Supply): Result<Doc, EditError> {
    if request.NotAnObject? then Err(InvalidOperation) else
    match Get(request.fields, "op")
    case JStr(op) =>
      if op == "create_form" then CreateForm(d, request.fields, newId)
      else if op == "add_atom" then AddAtom(d, request.fields, newId)
      else if op == "set_atom" then SetAtom(d, request.fields)
      else if op == "move_node" then MoveNode(d, request.fields)
      else if op == "wrap_node" then WrapNode(d, request.fields, newId)
      else if op == "delete_node" then DeleteNode(d, request.fields)
      else Err(UnknownOperation)
    case _ => Err(InvalidOperation)
  }

  ghost function Run(d: Doc, requests: seq<Request>, newId: Supply): Result<Doc, EditError> {
    if requests == [] then Ok(d)
    else
      var before :- Run(d, requests[..|requests| - 1], newId);
      Edit(before, requests[|requests| - 1], newId)
  }

  // ----- what every edit keeps

  /** The tree has the root and the rows of the table. */
  ghost predicate Shows(d: Doc, t: Tree) {
    Unique(t) && t.id == d.root && Rows(t) == d.rows
  }

  /** The supply has handed out nothing from here on, and replayed ids are none of its ids. */
  ghost predicate Unused(newId: Supply, next: nat, used: set<NodeId>) {
    forall n: nat :: n >= next ==> newId(n) !in used
  }

  ghost predicate NoClash(request: Request, newId: Supply) {
    request.Request? ==> forall n: nat :: Get(request.fields, "node_id") != JStr(newId(n))
  }

  ghost predicate LiveAliases(aliases: Aliases, rows: Table) {
    forall name :: name in aliases ==> aliases[name] in rows
  }

  ghost predicate WellFormed(d: Doc, newId: Supply) {
    GoodSupply(newId) && Unused(newId, d.next, d.rows.Keys) && LiveAliases(d.aliases, d.rows)
  }

  /** The nodes a request adds. */
  function Weight(request: Request): nat {
    if request.NotAnObject? then 0
    else match Get(request.fields, "op")
      case JStr(op) => if op == "create_form" || op == "wrap_node" then 2 else if op == "add_atom" then 1 else 0
      case _ => 0
  }

  function TotalWeight(requests: seq<Request>): nat {
    if requests == [] then 0 else TotalWeight(requests[..|requests| - 1]) + Weight(requests[|requests| - 1])
  }

  /** The nodes a request is counted to add. */
  function Counted(request: Request): nat {
    if Weight(request) > 0 then 1 else 0
  }

  function TotalCounted(requests: seq<Request>): nat {
    if requests == [] then 0 else TotalCounted(requests[..|requests| - 1]) + Counted(requests[|requests| - 1])
  }

  /** One edit: aliases stay live, supply ids stay unused, the root stays, and every node is accounted
      for. */
  ghost predicate Accounted(d: Doc, e: Doc, weight: nat, counted: nat, edits: nat) {
    && e.root == d.root
    && |e.rows| + e.deleted == |d.rows| + d.deleted + weight
    && e.created == d.created + counted
    && |e.log| == |d.log| + edits
    && e.next >= d.next
  }

  lemma AddRow(rows: Table, x: NodeId, row: Row)
    ensures |rows[x := row]| == |rows| + if x in rows then 0 else 1
  {
    var more := rows[x := row];
    assert more.Keys == rows.Keys + {x};
    if x in rows {
      assert more.Keys == rows.Keys;
    }
  }

  lemma Dropped(rows: Table, removed: set<NodeId>)
    requires removed <= rows.Keys
    ensures |rows - removed| + |removed| == |rows|
  {
    assert (rows - removed).Keys == rows.Keys - removed;
  }

  lemma CreateFormKeeps(d: Doc, request: Request, newId: Supply)
    requires WellFormed(d, newId) && request.Request? && NoClash(request, newId) && CreateForm(d, request.fields, newId).Ok?
    ensures var e := CreateForm(d, request.fields, newId).value; WellFormed(e, newId) && Accounted(d, e, 2, 1, 1)
  {
    var raw := request.fields;
    var e := CreateForm(d, raw, newId).value;
    var parent := Resolve(Get(raw, "parent"), d.aliases).value;
    var replay := ReplayId(raw, d.rows.Keys).value;
    var h := newId(d.next);
    var form := if replay.Some? then replay.value else newId(d.next + 1);
    var rows1 := d.rows[parent := e.rows[parent]];
    AddRow(d.rows, parent, e.rows[parent]);
    AddRow(rows1, form, ListRow([h]));
    AddRow(rows1[form := ListRow([h])], h, e.rows[h]);
    assert e.rows == rows1[form := ListRow([h])][h := e.rows[h]];
  }

  lemma AddAtomKeeps(d: Doc, request: Request, newId: Supply)
    requires WellFormed(d, newId) && request.Request? && NoClash(request, newId) && AddAtom(d, request.fields, newId).Ok?
    ensures var e := AddAtom(d, request.fields, newId).value; WellFormed(e, newId) && Accounted(d, e, 1, 1, 1)
  {
    var raw := request.fields;
    var e := AddAtom(d, raw, newId).value;
    var parent := Resolve(Get(raw, "parent"), d.aliases).value;
    var replay := ReplayId(raw, d.rows.Keys).value;
    var id := if replay.Some? then replay.value else newId(d.next);
    AddRow(d.rows, parent, e.rows[parent]);
    AddRow(d.rows[parent := e.rows[parent]], id, e.rows[id]);
    assert e.rows == d.rows[parent := e.rows[parent]][id := e.rows[id]];
  }

  lemma SetAtomKeeps(d: Doc, request: Request, newId: Supply)
    requires WellFormed(d, newId) && request.Request? && SetAtom(d, request.fields).Ok?
    ensures var e := SetAtom(d, request.fields).value;
      WellFormed(e, newId) && Accounted(d, e, 0, 0, 1) && e.rows.Keys == d.rows.Keys && e.aliases == d.aliases
  {
    var e := SetAtom(d, request.fields).value;
    assert e.rows.Keys == d.rows.Keys;
  }

  /** A move keeps the set of nodes, and every row but those of the list the node leaves and the list it
      joins. */
  lemma MoveNodeKeeps(d: Doc, request: Request, newId: Supply)
    requires WellFormed(d, newId) && request.Request? && MoveNode(d, request.fields).Ok?
    ensures var e := MoveNode(d, request.fields).value;
      && WellFormed(e, newId) && Accounted(d, e, 0, 0, 1) && e.rows.Keys == d.rows.Keys && e.aliases == d.aliases
    ensures var e := MoveNode(d, request.fields).value;
      var id, q := Resolve(Get(request.fields, "node"), d.aliases).value, Resolve(Get(request.fields, "new_parent"), d.aliases).value;
      forall x :: x in d.rows && !Linked(d.rows, x, id) && x != q ==> x in e.rows && e.rows[x] == d.rows[x]
  {
    var raw := request.fields;
    var e := MoveNode(d, raw).value;
    var id := Resolve(Get(raw, "node"), d.aliases).value;
    var p, q := ParentIn(d.rows, id).value, Resolve(Get(raw, "new_parent"), d.aliases).value;
    assert Linked(d.rows, p, id);
    var taken := d.rows[p := ListRow(RemoveAt(d.rows[p].kids, IndexOf(d.rows[p].kids, id)))];
    assert taken.Keys == d.rows.Keys;
    var row := e.rows[q];
    assert e.rows == taken[q := row];
    assert q in d.rows;
    hide Descendants;
    hide Place;
    hide Linked;
    assert e.rows.Keys == d.rows.Keys;
  }

  lemma WrapNodeKeeps(d: Doc, request: Request, newId: Supply)
    requires WellFormed(d, newId) && request.Request? && NoClash(request, newId) && WrapNode(d, request.fields, newId).Ok?
    ensures var e := WrapNode(d, request.fields, newId).value; WellFormed(e, newId) && Accounted(d, e, 2, 1, 1)
  {
    var raw := request.fields;
    var e := WrapNode(d, raw, newId).value;
    var id := Resolve(Get(raw, "node"), d.aliases).value;
    var p := ParentIn(d.rows, id).value;
    var replay := ReplayId(raw, d.rows.Keys).value;
    var h := newId(d.next);
    var form := if replay.Some? then replay.value else newId(d.next + 1);
    var rows1 := d.rows[p := e.rows[p]];
    AddRow(d.rows, p, e.rows[p]);
    AddRow(rows1, form, ListRow([h, id]));
    AddRow(rows1[form := ListRow([h, id])], h, e.rows[h]);
    assert e.rows == rows1[form := ListRow([h, id])][h := e.rows[h]];
  }

  /** Deleting takes away as many nodes as it counts, and no alias of a node that stays. */
  lemma DeleteNodeKeeps(d: Doc, request: Request, newId: Supply)
    requires WellFormed(d, newId) && request.Request? && DeleteNode(d, request.fields).Ok?
    requires var id := Resolve(Get(request.fields, "node"), d.aliases).value;
      ParentIn(d.rows, id).value !in Descendants(d.rows, id)
    ensures var e := DeleteNode(d, request.fields).value;
      var removed := Descendants(d.rows, Resolve(Get(request.fields, "node"), d.aliases).value);
      && WellFormed(e, newId) && Accounted(d, e, 0, 0, 1) && e.rows.Keys == d.rows.Keys - removed
      && forall name :: name in e.aliases <==> name in d.aliases && d.aliases[name] !in removed
  {
    var raw := request.fields;
    var e := DeleteNode(d, raw).value;
    var id := Resolve(Get(raw, "node"), d.aliases).value;
    var p, removed := ParentIn(d.rows, id).value, Descendants(d.rows, id);
    assert Linked(d.rows, p, id);
    assert removed <= d.rows.Keys;
    hide Descendants;
    Dropped(d.rows, removed);
    AddRow(d.rows - removed, p, e.rows[p]);
    assert e.rows == (d.rows - removed)[p := e.rows[p]];
    assert e.rows.Keys == d.rows.Keys - removed;
  }

  // The ids of a new form are new.
  lemma NewFormIds(d: Doc, raw: Fields, replay: Option<NodeId>, newId: Supply)
    requires WellFormed(d, newId) && NoClash(Request(raw), newId) && ReplayId(raw, d.rows.Keys) == Ok(replay)
    ensures var w := if replay.Some? then replay.value else newId(d.next + 1);
      && w !in d.rows && newId(d.next) !in d.rows && w != newId(d.next) && IdOk(w)
  {
  }
}
