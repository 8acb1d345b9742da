/** What each structural edit does, said of the raw request and the two tables (src/weave_frontend/batch_edit.py). */
module BatchLaws {
  import opened Prelude
  import opened Chars
  import opened Trees
  import opened Atoms
  import opened Validity
  import opened TreeTables
  import opened BatchSpec
  import opened Parents

  // ----- what the fields of a request say

  predicate Absent(raw: Fields, field: string) {
    field !in raw || raw[field] == JNull
  }

  predicate HasText(raw: Fields, field: string) {
    field in raw && raw[field].JStr? && raw[field].s != ""
  }

  /** A field names a node: by its id, or by its alias behind an `@`. */
  predicate Refers(raw: Fields, field: string, aliases: Aliases, x: NodeId) {
    && HasText(raw, field)
    && var s := raw[field].s;
       if s[0] == '@' then s[1..] in aliases && aliases[s[1..]] == x else s == x
  }

  /** The id goes to the requested position of a list, and to its end when none is requested. */
  predicate PutAt(raw: Fields, before: seq<NodeId>, id: NodeId, after: seq<NodeId>) {
    if Absent(raw, "position") then after == before + [id]
    else
      && raw["position"].JInt?
      && var n := raw["position"].n;
         0 <= n <= |before| && after == before[..n] + [id] + before[n..]
  }

  /** The new node takes the requested id, which no node has, or else the one drawn for it. */
  predicate TakesId(raw: Fields, used: set<NodeId>, drawn: NodeId, id: NodeId) {
    if Absent(raw, "node_id") then id == drawn
    else raw["node_id"] == JStr(id) && IdOk(id) && id !in used
  }

  predicate IsLetter(c: char) {
    'A' <= c <= 'Z' || 'a' <= c <= 'z'
  }

  /** A letter, then letters, digits, underscores and hyphens, 64 in all at most. */
  predicate AliasName(s: string) {
    1 <= |s| <= 64 && IsLetter(s[0]) && forall i :: 0 <= i < |s| ==> IsLetter(s[i]) || IsDigit(s[i]) || s[i] == '_' || s[i] == '-'
  }

  /** The new node becomes known by the requested alias, which none had, and every other alias stays. */
  predicate CalledAs(raw: Fields, id: NodeId, before: Aliases, after: Aliases) {
    if Absent(raw, "as") then after == before
    else raw["as"].JStr? && AliasName(raw["as"].s) && raw["as"].s !in before && after == before[raw["as"].s := id]
  }

  predicate OfKind(a: Atom, kind: string) {
    match a
    case Symbol(_) => kind == "symbol"
    case Text(_) => kind == "string"
    case Integer(_) => kind == "integer"
    case Float(_) => kind == "float"
    case Boolean(_) => kind == "boolean"
  }

  /** The atom holds the requested value; an integer may be given for a float. */
  predicate Holds(raw: Fields, a: Atom) {
    && "value" in raw && AtomBytes(a) <= 1_048_576
    && match a
       case Symbol(name) => raw["value"] == JStr(name)
       case Text(text) => raw["value"] == JStr(text)
       case Integer(n) => raw["value"] == JInt(n)
       case Float(lexeme) => raw["value"] == JFloat(lexeme) || (raw["value"].JInt? && lexeme == IntText(raw["value"].n) + ".0")
       case Boolean(b) => raw["value"] == JBool(b)
  }

  lemma RefersExactly(raw: Fields, field: string, aliases: Aliases, x: NodeId)
    ensures Resolve(Get(raw, field), aliases) == Ok(x) <==> Refers(raw, field, aliases, x)
  {
  }

  lemma PlaceExactly(raw: Fields, before: seq<NodeId>, id: NodeId, after: seq<NodeId>)
    ensures PutAt(raw, before, id, after) <==>
            Place(Get(raw, "position"), |before|).Ok? && after == InsertAt(before, Place(Get(raw, "position"), |before|).value, id)
  {
    assert before[..|before|] == before && before[|before|..] == [];
    assert before + [id] + [] == before + [id];
  }

  lemma AliasExactly(raw: Fields, id: NodeId, before: Aliases, after: Aliases)
    ensures Register(Get(raw, "as"), id, before) == Ok(after) <==> CalledAs(raw, id, before, after)
  {
    if "as" in raw && raw["as"].JStr? {
      var s := raw["as"].s;
      assert AliasOk(s) <==> AliasName(s);
    }
  }

  lemma IdExactly(raw: Fields, used: set<NodeId>, drawn: NodeId, id: NodeId)
    ensures TakesId(raw, used, drawn, id) <==>
            ReplayId(raw, used).Ok? && id == match ReplayId(raw, used).value { case None => drawn case Some(x) => x }
  {
  }

  lemma ValueExactly(raw: Fields, kind: string, a: Atom)
    requires "value" in raw
    ensures MakeAtom(kind, raw["value"]) == Ok(a) <==> OfKind(a, kind) && Holds(raw, a)
  {
  }

  lemma HeadExactly(raw: Fields, field: string, text: string)
    ensures RequiredString(raw, field) == Ok(text) <==> HasText(raw, field) && text == raw[field].s
  {
  }

  // ----- what an edit leaves of the document

  predicate IsList(rows: Table, x: NodeId) {
    x in rows && rows[x].ListRow?
  }

  predicate Kept(before: Table, after: Table, but: set<NodeId>) {
    forall x :: x in before && x !in but ==> x in after && after[x] == before[x]
  }

  predicate Tallied(d: Doc, e: Doc, drawn: nat, created: nat, deleted: nat, op: string, target: NodeId) {
    && e.root == d.root && e.next == d.next + drawn && e.created == d.created + created && e.deleted == d.deleted + deleted
    && e.log == d.log + [(op, target)]
  }

  /** A list of one new symbol goes into a list. */
  predicate FormMade(d: Doc, raw: Fields, newId: Supply, e: Doc, parent: NodeId, form: NodeId) {
    && raw.Keys <= {"op", "parent", "head", "position", "as", "node_id"}
    && Refers(raw, "parent", d.aliases, parent) && HasText(raw, "head") && Utf8(raw["head"].s) <= 1_048_576
    && TakesId(raw, d.rows.Keys, newId(d.next + 1), form) && CalledAs(raw, form, d.aliases, e.aliases)
    && IsList(d.rows, parent) && IsList(e.rows, parent) && PutAt(raw, d.rows[parent].kids, form, e.rows[parent].kids)
    && e.rows.Keys == d.rows.Keys + {form, newId(d.next)} && Kept(d.rows, e.rows, {parent})
    && e.rows[form] == ListRow([newId(d.next)]) && e.rows[newId(d.next)] == AtomRow(Symbol(raw["head"].s))
    && Tallied(d, e, 2, 1, 0, "create_form", parent)
  }

  lemma CreateFormDoes(d: Doc, raw: Fields, newId: Supply, e: Doc)
    requires WellFormed(d, newId) && NoClash(Request(raw), newId)
    ensures CreateForm(d, raw, newId) == Ok(e) <==> exists parent, form :: FormMade(d, raw, newId, e, parent, form)
  {
    if CreateForm(d, raw, newId) == Ok(e) {
      var parent := Resolve(Get(raw, "parent"), d.aliases).value;
      var replay := ReplayId(raw, d.rows.Keys).value;
      FormWas(d, raw, newId, e, parent, match replay { case None => newId(d.next + 1) case Some(x) => x });
    }
    forall parent, form | FormMade(d, raw, newId, e, parent, form) ensures CreateForm(d, raw, newId) == Ok(e) {
      FormIs(d, raw, newId, e, parent, form);
    }
  }

  lemma FormIs(d: Doc, raw: Fields, newId: Supply, e: Doc, parent: NodeId, form: NodeId)
    requires WellFormed(d, newId) && NoClash(Request(raw), newId) && FormMade(d, raw, newId, e, parent, form)
    ensures CreateForm(d, raw, newId) == Ok(e)
  {
    hide Resolve;
    hide Refers;
    hide ReplayId;
    hide TakesId;
    hide Register;
    hide CalledAs;
    hide Place;
    hide PutAt;
    hide RequiredString;
    hide Get;
    hide WellFormed;
    hide NoClash;
    hide InsertAt;
    RefersExactly(raw, "parent", d.aliases, parent);
    HeadExactly(raw, "head", raw["head"].s);
    IdExactly(raw, d.rows.Keys, newId(d.next + 1), form);
    AliasExactly(raw, form, d.aliases, e.aliases);
    PlaceExactly(raw, d.rows[parent].kids, form, e.rows[parent].kids);
    NewFormIds(d, raw, ReplayId(raw, d.rows.Keys).value, newId);
    var h := newId(d.next);
    assert e.rows == d.rows[parent := e.rows[parent]][form := ListRow([h])][h := AtomRow(Symbol(raw["head"].s))];
  }

  lemma FormWas(d: Doc, raw: Fields, newId: Supply, e: Doc, parent: NodeId, form: NodeId)
    requires WellFormed(d, newId) && NoClash(Request(raw), newId) && CreateForm(d, raw, newId) == Ok(e)
    requires Resolve(Get(raw, "parent"), d.aliases) == Ok(parent)
    requires form == match ReplayId(raw, d.rows.Keys).value { case None => newId(d.next + 1) case Some(x) => x }
    ensures FormMade(d, raw, newId, e, parent, form)
  {
    hide Resolve;
    hide Refers;
    hide ReplayId;
    hide TakesId;
    hide Register;
    hide CalledAs;
    hide Place;
    hide PutAt;
    hide RequiredString;
    hide Get;
    hide WellFormed;
    hide NoClash;
    hide InsertAt;
    RefersExactly(raw, "parent", d.aliases, parent);
    HeadExactly(raw, "head", RequiredString(raw, "head").value);
    IdExactly(raw, d.rows.Keys, newId(d.next + 1), form);
    AliasExactly(raw, form, d.aliases, e.aliases);
    NewFormIds(d, raw, ReplayId(raw, d.rows.Keys).value, newId);
    PlaceExactly(raw, d.rows[parent].kids, form, e.rows[parent].kids);
  }

  /** An atom goes into a list. */
  predicate AtomAdded(d: Doc, raw: Fields, newId: Supply, e: Doc, parent: NodeId, id: NodeId) {
    && raw.Keys <= {"op", "parent", "kind", "value", "position", "as", "node_id"}
    && Refers(raw, "parent", d.aliases, parent) && HasText(raw, "kind")
    && TakesId(raw, d.rows.Keys, newId(d.next), id) && CalledAs(raw, id, d.aliases, e.aliases)
    && IsList(d.rows, parent) && IsList(e.rows, parent) && PutAt(raw, d.rows[parent].kids, id, e.rows[parent].kids)
    && e.rows.Keys == d.rows.Keys + {id} && Kept(d.rows, e.rows, {parent})
    && e.rows[id].AtomRow? && OfKind(e.rows[id].atom, raw["kind"].s) && Holds(raw, e.rows[id].atom)
    && Tallied(d, e, 1, 1, 0, "add_atom", parent)
  }

  lemma AddAtomDoes(d: Doc, raw: Fields, newId: Supply, e: Doc)
    requires WellFormed(d, newId) && NoClash(Request(raw), newId)
    ensures AddAtom(d, raw, newId) == Ok(e) <==> exists parent, id :: AtomAdded(d, raw, newId, e, parent, id)
  {
    if AddAtom(d, raw, newId) == Ok(e) {
      var parent := Resolve(Get(raw, "parent"), d.aliases).value;
      var replay := ReplayId(raw, d.rows.Keys).value;
      AtomWas(d, raw, newId, e, parent, match replay { case None => newId(d.next) case Some(x) => x });
    }
    forall parent, id | AtomAdded(d, raw, newId, e, parent, id) ensures AddAtom(d, raw, newId) == Ok(e) {
      AtomIs(d, raw, newId, e, parent, id);
    }
  }

  lemma AtomIs(d: Doc, raw: Fields, newId: Supply, e: Doc, parent: NodeId, id: NodeId)
    requires WellFormed(d, newId) && NoClash(Request(raw), newId) && AtomAdded(d, raw, newId, e, parent, id)
    ensures AddAtom(d, raw, newId) == Ok(e)
  {
    hide Resolve;
    hide Refers;
    hide ReplayId;
    hide TakesId;
    hide Register;
    hide CalledAs;
    hide Place;
    hide PutAt;
    hide RequiredString;
    hide Get;
    hide WellFormed;
    hide NoClash;
    hide InsertAt;
    hide MakeAtom;
    hide Holds;
    hide OfKind;
    hide ATOM_KINDS;
    RefersExactly(raw, "parent", d.aliases, parent);
    HeadExactly(raw, "kind", raw["kind"].s);
    KindsAre(e.rows[id].atom, raw["kind"].s);
    HasValue(raw, e.rows[id].atom);
    ValueExactly(raw, raw["kind"].s, e.rows[id].atom);
    IdExactly(raw, d.rows.Keys, newId(d.next), id);
    AliasExactly(raw, id, d.aliases, e.aliases);
    PlaceExactly(raw, d.rows[parent].kids, id, e.rows[parent].kids);
    NewFormIds(d, raw, ReplayId(raw, d.rows.Keys).value, newId);
    assert e.rows == d.rows[parent := e.rows[parent]][id := e.rows[id]];
  }

  lemma KindsAre(a: Atom, kind: string)
    requires OfKind(a, kind)
    ensures kind in ATOM_KINDS
  {
  }

  lemma HasValue(raw: Fields, a: Atom)
    requires Holds(raw, a)
    ensures "value" in raw
  {
  }

  lemma AtomWas(d: Doc, raw: Fields, newId: Supply, e: Doc, parent: NodeId, id: NodeId)
    requires WellFormed(d, newId) && NoClash(Request(raw), newId) && AddAtom(d, raw, newId) == Ok(e)
    requires Resolve(Get(raw, "parent"), d.aliases) == Ok(parent)
    requires id == match ReplayId(raw, d.rows.Keys).value { case None => newId(d.next) case Some(x) => x }
    ensures AtomAdded(d, raw, newId, e, parent, id)
  {
    hide Resolve;
    hide Refers;
    hide ReplayId;
    hide TakesId;
    hide Register;
    hide CalledAs;
    hide Place;
    hide PutAt;
    hide RequiredString;
    hide Get;
    hide WellFormed;
    hide NoClash;
    hide InsertAt;
    hide MakeAtom;
    hide Holds;
    hide OfKind;
    RefersExactly(raw, "parent", d.aliases, parent);
    HeadExactly(raw, "kind", RequiredString(raw, "kind").value);
    ValueExactly(raw, raw["kind"].s, e.rows[id].atom);
    IdExactly(raw, d.rows.Keys, newId(d.next), id);
    AliasExactly(raw, id, d.aliases, e.aliases);
    NewFormIds(d, raw, ReplayId(raw, d.rows.Keys).value, newId);
    PlaceExactly(raw, d.rows[parent].kids, id, e.rows[parent].kids);
  }

  predicate SameKind(a: Atom, b: Atom) {
    a.Symbol? == b.Symbol? && a.Text? == b.Text? && a.Integer? == b.Integer? && a.Float? == b.Float?
  }

  /** The atom has the requested value, of its own kind, and nothing else is different. */
  predicate AtomSet(d: Doc, raw: Fields, e: Doc, id: NodeId) {
    && raw.Keys <= {"op", "node", "value"} && Refers(raw, "node", d.aliases, id)
    && id in d.rows && d.rows[id].AtomRow? && e.rows.Keys == d.rows.Keys && Kept(d.rows, e.rows, {id})
    && e.rows[id].AtomRow? && SameKind(d.rows[id].atom, e.rows[id].atom) && Holds(raw, e.rows[id].atom)
    && e.aliases == d.aliases && Tallied(d, e, 0, 0, 0, "set_atom", id)
  }

  lemma SetAtomDoes(d: Doc, raw: Fields, e: Doc)
    ensures BatchSpec.SetAtom(d, raw) == Ok(e) <==> exists id :: AtomSet(d, raw, e, id)
  {
    if BatchSpec.SetAtom(d, raw) == Ok(e) {
      var id := Resolve(Get(raw, "node"), d.aliases).value;
      RefersExactly(raw, "node", d.aliases, id);
      SetKind(d, raw, id, e.rows[id].atom);
      assert AtomSet(d, raw, e, id);
    }
    forall id | AtomSet(d, raw, e, id) ensures BatchSpec.SetAtom(d, raw) == Ok(e) {
      RefersExactly(raw, "node", d.aliases, id);
      SetKind(d, raw, id, e.rows[id].atom);
      assert e.rows == d.rows[id := e.rows[id]];
    }
  }

  lemma SetKind(d: Doc, raw: Fields, id: NodeId, a: Atom)
    requires id in d.rows && d.rows[id].AtomRow? && "value" in raw
    ensures MakeAtom(KindName(KindOf(Leaf(id, d.rows[id].atom))), raw["value"]) == Ok(a) <==> SameKind(d.rows[id].atom, a) && Holds(raw, a)
  {
    hide MakeAtom;
    hide Holds;
    ValueExactly(raw, KindName(KindOf(Leaf(id, d.rows[id].atom))), a);
  }

  // ----- edits of a node in its place

  /** The node is the i-th child of the list. */
  predicate ChildAt(rows: Table, p: NodeId, i: nat, id: NodeId) {
    IsList(rows, p) && i < |rows[p].kids| && rows[p].kids[i] == id
  }

  // A node of a tree is the child of one list, once.
  lemma PlaceOf(d: Doc, t: Tree, p: NodeId, i: nat, id: NodeId)
    requires Shows(d, t) && ChildAt(d.rows, p, i, id)
    ensures ParentIn(d.rows, id) == Some(p) && id in d.rows[p].kids && IndexOf(d.rows[p].kids, id) == i
    ensures id in d.rows && p !in Descendants(d.rows, id)
  {
    RowsKeys(t);
    var u := HasNode(t, p);
    SubtreeRows(u, t);
    SubtreeIds(u, t);
    assert Rows(t)[u.id] == Rows(u)[u.id] == OwnRow(u);
    ParentIs(t, u, i);
    ParentParts(t, u, i, id);
  }

  lemma ParentPlace(d: Doc, id: NodeId) returns (p: NodeId, i: nat)
    requires ParentIn(d.rows, id).Some?
    ensures ParentIn(d.rows, id) == Some(p) && ChildAt(d.rows, p, i, id)
  {
    p := ParentIn(d.rows, id).value;
    assert Linked(d.rows, p, id);
    i := IndexOf(d.rows[p].kids, id);
  }

  lemma InsideExactly(rows: Table, id: NodeId, q: NodeId)
    requires q in rows
    ensures q in Descendants(rows, id) <==> Under(rows, id, q)
  {
  }

  lemma BelowExactly(rows: Table, id: NodeId, below: set<NodeId>)
    ensures below == Descendants(rows, id) <==> forall x :: x in below <==> x in rows && Under(rows, id, x)
  {
    hide Under;
  }

  /** The node leaves its list and goes into another, or elsewhere into the same: the position counts the
      children that are there once it has left. */
  ghost predicate NodeMoved(d: Doc, raw: Fields, e: Doc, id: NodeId, p: NodeId, i: nat, q: NodeId) {
    && raw.Keys <= {"op", "node", "new_parent", "position"}
    && Refers(raw, "node", d.aliases, id) && Refers(raw, "new_parent", d.aliases, q)
    && id != d.root && ChildAt(d.rows, p, i, id) && IsList(d.rows, q) && !Under(d.rows, id, q)
    && e.rows.Keys == d.rows.Keys && Kept(d.rows, e.rows, {p, q}) && IsList(e.rows, p) && IsList(e.rows, q)
    && (var kids := d.rows[p].kids;
        if p == q then PutAt(raw, kids[..i] + kids[i + 1..], id, e.rows[q].kids)
        else e.rows[p].kids == kids[..i] + kids[i + 1..] && PutAt(raw, d.rows[q].kids, id, e.rows[q].kids))
    && e.aliases == d.aliases && Tallied(d, e, 0, 0, 0, "move_node", id)
  }

  lemma MoveNodeDoes(d: Doc, raw: Fields, e: Doc, t: Tree)
    requires Shows(d, t)
    ensures BatchSpec.MoveNode(d, raw) == Ok(e) <==> exists id, p, i, q :: NodeMoved(d, raw, e, id, p, i, q)
  {
    hide NodeMoved;
    hide Shows;
    if BatchSpec.MoveNode(d, raw) == Ok(e) {
      MoveWas(d, raw, e, t);
    }
    forall id, p, i, q | NodeMoved(d, raw, e, id, p, i, q) ensures BatchSpec.MoveNode(d, raw) == Ok(e) {
      MoveIs(d, raw, e, t, id, p, i, q);
    }
  }

  lemma MoveIs(d: Doc, raw: Fields, e: Doc, t: Tree, id: NodeId, p: NodeId, i: nat, q: NodeId)
    requires Shows(d, t) && NodeMoved(d, raw, e, id, p, i, q)
    ensures BatchSpec.MoveNode(d, raw) == Ok(e)
  {
    hide Resolve;
    hide Refers;
    hide Place;
    hide PutAt;
    hide Get;
    hide Shows;
    hide Under;
    hide Descendants;
    hide ParentIn;
    hide IndexOf;
    hide InsertAt;
    RefersExactly(raw, "node", d.aliases, id);
    RefersExactly(raw, "new_parent", d.aliases, q);
    PlaceOf(d, t, p, i, id);
    InsideExactly(d.rows, id, q);
    var left := RemoveAt(d.rows[p].kids, i);
    var kids := if p == q then left else d.rows[q].kids;
    PlaceExactly(raw, kids, id, e.rows[q].kids);
    assert e.rows == d.rows[p := ListRow(left)][q := e.rows[q]];
  }

  lemma MoveWas(d: Doc, raw: Fields, e: Doc, t: Tree)
    requires Shows(d, t) && BatchSpec.MoveNode(d, raw) == Ok(e)
    ensures exists id, p, i, q :: NodeMoved(d, raw, e, id, p, i, q)
  {
    hide Resolve;
    hide Refers;
    hide Place;
    hide PutAt;
    hide Get;
    hide Shows;
    hide Under;
    hide Descendants;
    hide ParentIn;
    hide IndexOf;
    hide InsertAt;
    var id, q := Resolve(Get(raw, "node"), d.aliases).value, Resolve(Get(raw, "new_parent"), d.aliases).value;
    RefersExactly(raw, "node", d.aliases, id);
    RefersExactly(raw, "new_parent", d.aliases, q);
    var p, i := ParentPlace(d, id);
    PlaceOf(d, t, p, i, id);
    InsideExactly(d.rows, id, q);
    var left := RemoveAt(d.rows[p].kids, i);
    var kids := if p == q then left else d.rows[q].kids;
    PlaceExactly(raw, kids, id, e.rows[q].kids);
    assert NodeMoved(d, raw, e, id, p, i, q);
  }

  /** A list of a new symbol and the node stands where the node stood. */
  predicate NodeWrapped(d: Doc, raw: Fields, newId: Supply, e: Doc, id: NodeId, p: NodeId, i: nat, form: NodeId) {
    && raw.Keys <= {"op", "node", "head", "as", "node_id"}
    && Refers(raw, "node", d.aliases, id) && HasText(raw, "head") && Utf8(raw["head"].s) <= 1_048_576
    && TakesId(raw, d.rows.Keys, newId(d.next + 1), form) && CalledAs(raw, form, d.aliases, e.aliases)
    && id != d.root && ChildAt(d.rows, p, i, id)
    && e.rows.Keys == d.rows.Keys + {form, newId(d.next)} && Kept(d.rows, e.rows, {p})
    && (var kids := d.rows[p].kids; e.rows[p] == ListRow(kids[..i] + [form] + kids[i + 1..]))
    && e.rows[form] == ListRow([newId(d.next), id]) && e.rows[newId(d.next)] == AtomRow(Symbol(raw["head"].s))
    && Tallied(d, e, 2, 1, 0, "wrap_node", id)
  }

  lemma WrapNodeDoes(d: Doc, raw: Fields, newId: Supply, e: Doc, t: Tree)
    requires WellFormed(d, newId) && NoClash(Request(raw), newId) && Shows(d, t)
    ensures BatchSpec.WrapNode(d, raw, newId) == Ok(e) <==> exists id, p, i, form :: NodeWrapped(d, raw, newId, e, id, p, i, form)
  {
    hide NodeWrapped;
    hide Shows;
    hide WellFormed;
    hide NoClash;
    if BatchSpec.WrapNode(d, raw, newId) == Ok(e) {
      WrapWas(d, raw, newId, e, t);
    }
    forall id, p, i, form | NodeWrapped(d, raw, newId, e, id, p, i, form) ensures BatchSpec.WrapNode(d, raw, newId) == Ok(e) {
      WrapIs(d, raw, newId, e, t, id, p, i, form);
    }
  }

  lemma WrapIs(d: Doc, raw: Fields, newId: Supply, e: Doc, t: Tree, id: NodeId, p: NodeId, i: nat, form: NodeId)
    requires WellFormed(d, newId) && NoClash(Request(raw), newId) && Shows(d, t) && NodeWrapped(d, raw, newId, e, id, p, i, form)
    ensures BatchSpec.WrapNode(d, raw, newId) == Ok(e)
  {
    hide Resolve;
    hide Refers;
    hide ReplayId;
    hide TakesId;
    hide Register;
    hide CalledAs;
    hide RequiredString;
    hide Get;
    hide Shows;
    hide Descendants;
    hide ParentIn;
    hide IndexOf;
    hide WellFormed;
    hide NoClash;
    RefersExactly(raw, "node", d.aliases, id);
    HeadExactly(raw, "head", raw["head"].s);
    IdExactly(raw, d.rows.Keys, newId(d.next + 1), form);
    AliasExactly(raw, form, d.aliases, e.aliases);
    PlaceOf(d, t, p, i, id);
    NewFormIds(d, raw, ReplayId(raw, d.rows.Keys).value, newId);
    var h, kids := newId(d.next), d.rows[p].kids;
    assert kids[i := form] == kids[..i] + [form] + kids[i + 1..];
    assert e.rows == d.rows[p := e.rows[p]][form := ListRow([h, id])][h := AtomRow(Symbol(raw["head"].s))];
  }

  lemma WrapWas(d: Doc, raw: Fields, newId: Supply, e: Doc, t: Tree)
    requires WellFormed(d, newId) && NoClash(Request(raw), newId) && Shows(d, t) && BatchSpec.WrapNode(d, raw, newId) == Ok(e)
    ensures exists id, p, i, form :: NodeWrapped(d, raw, newId, e, id, p, i, form)
  {
    hide Resolve;
    hide Refers;
    hide ReplayId;
    hide TakesId;
    hide Register;
    hide CalledAs;
    hide RequiredString;
    hide Get;
    hide Shows;
    hide Descendants;
    hide ParentIn;
    hide IndexOf;
    hide WellFormed;
    hide NoClash;
    var id := Resolve(Get(raw, "node"), d.aliases).value;
    var form := match ReplayId(raw, d.rows.Keys).value { case None => newId(d.next + 1) case Some(x) => x };
    RefersExactly(raw, "node", d.aliases, id);
    HeadExactly(raw, "head", RequiredString(raw, "head").value);
    IdExactly(raw, d.rows.Keys, newId(d.next + 1), form);
    AliasExactly(raw, form, d.aliases, e.aliases);
    var p, i := ParentPlace(d, id);
    PlaceOf(d, t, p, i, id);
    NewFormIds(d, raw, ReplayId(raw, d.rows.Keys).value, newId);
    var kids := d.rows[p].kids;
    assert kids[i := form] == kids[..i] + [form] + kids[i + 1..];
    assert NodeWrapped(d, raw, newId, e, id, p, i, form);
  }

  /** The node, what lies under it and the aliases of these are gone. */
  ghost predicate NodeDeleted(d: Doc, raw: Fields, e: Doc, id: NodeId, p: NodeId, i: nat, removed: set<NodeId>) {
    && raw.Keys <= {"op", "node"} && Refers(raw, "node", d.aliases, id)
    && id != d.root && ChildAt(d.rows, p, i, id)
    && (forall x :: x in removed <==> x in d.rows && Under(d.rows, id, x))
    && e.rows.Keys == d.rows.Keys - removed && Kept(d.rows, e.rows, removed + {p}) && p in e.rows
    && (var kids := d.rows[p].kids; e.rows[p] == ListRow(kids[..i] + kids[i + 1..]))
    && (forall name :: name in e.aliases <==> name in d.aliases && d.aliases[name] !in removed)
    && (forall name :: name in e.aliases ==> e.aliases[name] == d.aliases[name])
    && Tallied(d, e, 0, 0, |removed|, "delete_node", id)
  }

  lemma DeleteNodeDoes(d: Doc, raw: Fields, e: Doc, t: Tree)
    requires Shows(d, t)
    ensures BatchSpec.DeleteNode(d, raw) == Ok(e) <==> exists id, p, i, removed :: NodeDeleted(d, raw, e, id, p, i, removed)
  {
    hide NodeDeleted;
    hide Shows;
    if BatchSpec.DeleteNode(d, raw) == Ok(e) {
      DeleteWas(d, raw, e, t);
    }
    forall id, p, i, removed | NodeDeleted(d, raw, e, id, p, i, removed) ensures BatchSpec.DeleteNode(d, raw) == Ok(e) {
      DeleteIs(d, raw, e, t, id, p, i, removed);
    }
  }

  lemma DeleteIs(d: Doc, raw: Fields, e: Doc, t: Tree, id: NodeId, p: NodeId, i: nat, removed: set<NodeId>)
    requires Shows(d, t) && NodeDeleted(d, raw, e, id, p, i, removed)
    ensures BatchSpec.DeleteNode(d, raw) == Ok(e)
  {
    hide Resolve;
    hide Refers;
    hide Get;
    hide Shows;
    hide Descendants;
    hide Under;
    hide ParentIn;
    hide IndexOf;
    RefersExactly(raw, "node", d.aliases, id);
    PlaceOf(d, t, p, i, id);
    BelowExactly(d.rows, id, removed);
    assert e.rows == (d.rows - removed)[p := e.rows[p]];
    assert e.aliases == Live(d.aliases, removed);
  }

  lemma DeleteWas(d: Doc, raw: Fields, e: Doc, t: Tree)
    requires Shows(d, t) && BatchSpec.DeleteNode(d, raw) == Ok(e)
    ensures exists id, p, i, removed :: NodeDeleted(d, raw, e, id, p, i, removed)
  {
    hide Resolve;
    hide Refers;
    hide Get;
    hide Shows;
    hide Descendants;
    hide Under;
    hide ParentIn;
    hide IndexOf;
    var id := Resolve(Get(raw, "node"), d.aliases).value;
    RefersExactly(raw, "node", d.aliases, id);
    var p, i := ParentPlace(d, id);
    PlaceOf(d, t, p, i, id);
    var removed := Descendants(d.rows, id);
    BelowExactly(d.rows, id, removed);
    assert NodeDeleted(d, raw, e, id, p, i, removed);
  }

  // ----- runs

  predicate Asks(request: Request, op: string) {
    request.Request? && "op" in request.fields && request.fields["op"] == JStr(op)
  }

  /** One of the six edits is asked for, and it made the one document of the other. */
  ghost predicate Made(d: Doc, request: Request, newId: Supply, e: Doc) {
    || (Asks(request, "create_form") && exists parent, form :: FormMade(d, request.fields, newId, e, parent, form))
    || (Asks(request, "add_atom") && exists parent, id :: AtomAdded(d, request.fields, newId, e, parent, id))
    || (Asks(request, "set_atom") && exists id :: AtomSet(d, request.fields, e, id))
    || (Asks(request, "move_node") && exists id, p, i, q :: NodeMoved(d, request.fields, e, id, p, i, q))
    || (Asks(request, "wrap_node") && exists id, p, i, form :: NodeWrapped(d, request.fields, newId, e, id, p, i, form))
    || (Asks(request, "delete_node") && exists id, p, i, removed :: NodeDeleted(d, request.fields, e, id, p, i, removed))
  }

  /** An edit goes through exactly when the request and the document allow it, and then does what was asked. */
  lemma EditDoes(d: Doc, request: Request, newId: Supply, e: Doc, t: Tree)
    requires WellFormed(d, newId) && NoClash(request, newId) && Shows(d, t)
    ensures Edit(d, request, newId) == Ok(e) <==> Made(d, request, newId, e)
  {
    hide FormMade;
    hide AtomAdded;
    hide AtomSet;
    hide NodeMoved;
    hide NodeWrapped;
    hide NodeDeleted;
    hide BatchSpec.CreateForm;
    hide BatchSpec.AddAtom;
    hide BatchSpec.SetAtom;
    hide BatchSpec.MoveNode;
    hide BatchSpec.WrapNode;
    hide BatchSpec.DeleteNode;
    hide WellFormed;
    hide Shows;
    hide NoClash;
    if request.Request? && "op" in request.fields && request.fields["op"].JStr? {
      var raw := request.fields;
      CreateFormDoes(d, raw, newId, e);
      AddAtomDoes(d, raw, newId, e);
      SetAtomDoes(d, raw, e);
      MoveNodeDoes(d, raw, e, t);
      WrapNodeDoes(d, raw, newId, e, t);
      DeleteNodeDoes(d, raw, e, t);
    }
  }

  /** The requests, one after the other, each did what was asked of the document before it. */
  ghost predicate Carries(d: Doc, requests: seq<Request>, newId: Supply, e: Doc) {
    exists docs: seq<Doc> :: Went(docs, requests, newId) && docs[0] == d && docs[|requests|] == e
  }

  ghost predicate Went(docs: seq<Doc>, requests: seq<Request>, newId: Supply) {
    |docs| == |requests| + 1 && forall k :: 0 <= k < |requests| ==> Made(docs[k], requests[k], newId, docs[k + 1])
  }

  lemma NothingCarried(d: Doc, requests: seq<Request>, newId: Supply)
    ensures Carries(d, requests[..0], newId, d)
  {
    assert Went([d], requests[..0], newId);
  }

  lemma CarriedOn(d: Doc, requests: seq<Request>, k: nat, newId: Supply, e: Doc, f: Doc, t: Tree)
    requires k < |requests| && Carries(d, requests[..k], newId, e) && Edit(e, requests[k], newId) == Ok(f)
    requires WellFormed(e, newId) && NoClash(requests[k], newId) && Unique(t) && e.rows == Rows(t) && e.root == t.id
    ensures Carries(d, requests[..k + 1], newId, f)
  {
    hide Made;
    hide Edit;
    EditDoes(e, requests[k], newId, f, t);
    var docs :| Went(docs, requests[..k], newId) && docs[0] == d && docs[k] == e;
    var more := docs + [f];
    forall i | 0 <= i < k + 1 ensures Made(more[i], requests[..k + 1][i], newId, more[i + 1]) {
      if i < k {
        assert requests[..k][i] == requests[i];
      }
    }
    assert Went(more, requests[..k + 1], newId);
  }
}
