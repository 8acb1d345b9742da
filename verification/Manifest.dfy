/** Classifying the changes between two tool manifests, and what a classification promises callers
    (src/weave_frontend/manifest_compatibility.py). */
module Manifest {
  import opened Prelude

  // Numbers keep their canonical text, so that equal values have one form.
  datatype Value =
    | Null
    | Bool(b: bool)
    | Num(text: string)
    | Str(s: string)
    | Arr(items: seq<Value>)
    | Obj(fields: map<string, Value>)

  type Fields = map<string, Value>

  datatype Class = IdentityOnly | DocumentationOnly | AdditiveCompatible | BehaviorReviewRequired | Breaking

  function Rank(c: Class): nat {
    match c
    case IdentityOnly => 0
    case DocumentationOnly => 1
    case AdditiveCompatible => 2
    case BehaviorReviewRequired => 3
    case Breaking => 4
  }

  datatype Change = Change(pointer: string, class_: Class, kind: string)

  datatype ManifestError = BadEnum | BadRequired | BadSchema

  type Outcome = Result<set<Change>, ManifestError>

  /** No change is worse than additive. */
  ghost predicate Additive(changes: set<Change>) {
    forall c :: c in changes ==> Rank(c.class_) <= Rank(AdditiveCompatible)
  }

  function Get(m: Fields, k: string): Option<Value> {
    if k in m then Some(m[k]) else None
  }

  function PointerToken(s: string): string {
    if s == "" then ""
    else (if s[0] == '~' then "~0" else if s[0] == '/' then "~1" else [s[0]]) + PointerToken(s[1..])
  }

  function Under(pointer: string, field: string): string {
    pointer + "/" + PointerToken(field)
  }

  // ----- enums and defaults

  function Members(items: seq<Value>): set<Value> {
    set i | 0 <= i < |items| :: items[i]
  }

  predicate Distinct<T(==)>(items: seq<T>) {
    forall i, j :: 0 <= i < j < |items| ==> items[i] != items[j]
  }

  /** The members of an enum, which must be a list without repeats that is not empty. */
  function EnumSet(v: Value): Result<set<Value>, ManifestError> {
    if v.Arr? && v.items != [] && Distinct(v.items) then Ok(Members(v.items)) else Err(BadEnum)
  }

  function OptionalEnum(m: Fields): Result<Option<set<Value>>, ManifestError> {
    if "enum" !in m then Ok(None)
    else
      var members :- EnumSet(m["enum"]);
      Ok(Some(members))
  }

  function EnumChange(pointer: string, was: Fields, now: Fields): Outcome {
    var a :- OptionalEnum(was);
    var b :- OptionalEnum(now);
    var at := pointer + "/enum";
    if a == b then Ok({})
    else if a.None? then Ok({Change(at, Breaking, "parameter-enum-constrained")})
    else if b.None? then Ok({Change(at, AdditiveCompatible, "parameter-enum-unconstrained")})
    else if a.value < b.value then Ok({Change(at, AdditiveCompatible, "parameter-enum-expanded")})
    else if b.value < a.value then Ok({Change(at, Breaking, "parameter-enum-narrowed")})
    else Ok({Change(at, Breaking, "parameter-enum-changed")})
  }

  function DefaultChange(pointer: string, was: Fields, now: Fields): set<Change> {
    var a, b := Get(was, "default"), Get(now, "default");
    if a == b then {}
    else {Change(pointer + "/default", BehaviorReviewRequired,
                 if a.None? then "parameter-default-added" else if b.None? then "parameter-default-removed" else "parameter-default-changed")}
  }

  // ----- changes of a value

  function Others(m: Fields): set<string> {
    m.Keys - {"default", "enum"}
  }

  function SchemaChanged(pointer: string): set<Change> {
    {Change(pointer, BehaviorReviewRequired, "parameter-schema-changed")}
  }

  function ValueChanges(pointer: string, was: Value, now: Value): Outcome
    decreases was, 2
  {
    if !was.Obj? || !now.Obj? then Ok(if was == now then {} else SchemaChanged(pointer))
    else
      var enums :- EnumChange(pointer, was.fields, now.fields);
      var rest :- FieldChanges(pointer, was, now.fields, Others(was.fields) + Others(now.fields));
      Ok(DefaultChange(pointer, was.fields, now.fields) + enums + rest)
  }

  /** The changes of each of the fields `which`; the comparison fails if that of any of them does. */
  function FieldChanges(pointer: string, was: Value, now: Fields, which: set<string>): Outcome
    requires was.Obj?
    decreases was, 1
  {
    Merged(map f | f in which :: OneField(pointer, was, now, f))
  }

  function Merged(outcomes: map<string, Outcome>): Outcome {
    if exists f :: f in outcomes && outcomes[f].Err? then Err(BadEnum)
    else Ok(set f, c | f in outcomes && c in outcomes[f].value :: c)
  }

  lemma MergedAdd(outcomes: map<string, Outcome>, f: string, changes: set<Change>)
    requires Merged(outcomes).Ok? && f !in outcomes
    ensures Merged(outcomes[f := Ok(changes)]) == Ok(Merged(outcomes).value + changes)
  {
    var more := outcomes[f := Ok(changes)];
    var before := Merged(outcomes).value;
    forall g | g in more ensures more[g].Ok? {
      assert g in outcomes ==> !outcomes[g].Err?;
    }
    forall c | c in before + changes ensures c in Merged(more).value {
      if c in changes {
        assert c in more[f].value;
      } else {
        var g :| g in outcomes && c in outcomes[g].value;
        assert c in more[g].value;
      }
    }
    forall c | c in Merged(more).value ensures c in before + changes {
      var g :| g in more && c in more[g].value;
      if g != f {
        assert c in outcomes[g].value;
      }
    }
    assert Merged(more).value == before + changes;
  }

  function OneField(pointer: string, was: Value, now: Fields, f: string): Outcome
    requires was.Obj?
    decreases was, 0
  {
    if f in was.fields && f in now then ValueChanges(Under(pointer, f), was.fields[f], now[f])
    else if f in was.fields || f in now then Ok(SchemaChanged(Under(pointer, f)))
    else Ok({})
  }

  // ----- changes of a tool's parameters

  /** The required parameters, which must be a list of different non-empty names. */
  function RequiredSet(schema: Fields): Result<set<string>, ManifestError> {
    if "required" !in schema then Ok({})
    else
      var v := schema["required"];
      if v.Arr? && Distinct(v.items) && (forall i :: 0 <= i < |v.items| ==> v.items[i].Str? && v.items[i].s != "") then
        Ok(set i | 0 <= i < |v.items| :: v.items[i].s)
      else Err(BadRequired)
  }

  function Properties(schema: Fields): Value {
    if "properties" in schema then schema["properties"] else Obj(map[])
  }

  function Remainder(schema: Fields): Value {
    Obj(schema - {"required", "properties"})
  }

  function RequiredChanges(pointer: string, was: set<string>, now: set<string>): set<Change> {
    (set name | name in was - now :: Change(Under(pointer + "/required", name), AdditiveCompatible, "required-parameter-relaxed")) +
    (set name | name in now - was :: Change(Under(pointer + "/required", name), Breaking, "required-parameter-added"))
  }

  function RemovedChanges(pointer: string, was: Fields, now: Fields): set<Change> {
    set name | name in was.Keys - now.Keys :: Change(Under(pointer + "/properties", name), Breaking, "parameter-removed")
  }

  function AddedChanges(pointer: string, was: Fields, now: Fields, required: set<string>): set<Change> {
    set name | name in now.Keys - was.Keys :: AddedChange(pointer, name, required)
  }

  function AddedChange(pointer: string, name: string, required: set<string>): Change {
    Change(Under(pointer + "/properties", name), if name in required then Breaking else AdditiveCompatible, "parameter-added")
  }

  function SchemaChanges(pointer: string, was: Fields, now: Fields): Outcome {
    var wasRequired :- RequiredSet(was);
    var nowRequired :- RequiredSet(now);
    var required := RequiredChanges(pointer, wasRequired, nowRequired);
    var a, b := Properties(was), Properties(now);
    if !a.Obj? || !b.Obj? then Ok(required + if was == now then {} else SchemaChanged(pointer))
    else
      var shared :- FieldChanges(pointer + "/properties", a, b.fields, a.fields.Keys * b.fields.Keys);
      var rest :- ValueChanges(pointer, Remainder(was), Remainder(now));
      Ok(required + RemovedChanges(pointer, a.fields, b.fields) + AddedChanges(pointer, a.fields, b.fields, nowRequired) + shared + rest)
  }

  // ----- what a classification means

  /** The new enum, if any, admits whatever the old one admitted. */
  ghost predicate EnumWider(was: Fields, now: Fields) {
    var a, b := OptionalEnum(was), OptionalEnum(now);
    a.Ok? && b.Ok? && (b.value.None? || (a.value.Some? && a.value.value <= b.value.value))
  }

  ghost predicate EnumSame(was: Fields, now: Fields) {
    OptionalEnum(was).Ok? && OptionalEnum(was) == OptionalEnum(now)
  }

  /** Equal values, but for enums that grew or went. */
  ghost predicate Widens(was: Value, now: Value)
    decreases was
  {
    if !was.Obj? || !now.Obj? then was == now
    else
      && EnumWider(was.fields, now.fields) && Get(was.fields, "default") == Get(now.fields, "default")
      && Others(was.fields) == Others(now.fields)
      && forall f :: f in Others(was.fields) && f in was.fields && f in now.fields ==> Widens(was.fields[f], now.fields[f])
  }

  /** Equal values, but for the order of enums. */
  ghost predicate SameUpToOrder(was: Value, now: Value)
    decreases was
  {
    if !was.Obj? || !now.Obj? then was == now
    else
      && EnumSame(was.fields, now.fields) && Get(was.fields, "default") == Get(now.fields, "default")
      && Others(was.fields) == Others(now.fields)
      && forall f :: f in Others(was.fields) && f in was.fields && f in now.fields ==> SameUpToOrder(was.fields[f], now.fields[f])
  }

  lemma FieldsOk(pointer: string, was: Value, now: Fields, which: set<string>, f: string)
    requires was.Obj? && FieldChanges(pointer, was, now, which).Ok? && f in which
    ensures OneField(pointer, was, now, f).Ok?
    ensures OneField(pointer, was, now, f).value <= FieldChanges(pointer, was, now, which).value
  {
    var outcomes := map g | g in which :: OneField(pointer, was, now, g);
    assert outcomes[f] == OneField(pointer, was, now, f);
  }

  lemma EnumClass(pointer: string, was: Fields, now: Fields)
    requires EnumChange(pointer, was, now).Ok?
    ensures Additive(EnumChange(pointer, was, now).value) <==> EnumWider(was, now)
    ensures EnumChange(pointer, was, now).value == {} <==> EnumSame(was, now)
  {
    var a, b, at := OptionalEnum(was).value, OptionalEnum(now).value, pointer + "/enum";
    assert Additive({});
    if a.Some? && b.Some? {
      assert a.value <= b.value <==> a.value == b.value || a.value < b.value;
    }
    AdditiveOne(Change(at, Breaking, "parameter-enum-constrained"));
    AdditiveOne(Change(at, AdditiveCompatible, "parameter-enum-unconstrained"));
    AdditiveOne(Change(at, AdditiveCompatible, "parameter-enum-expanded"));
    AdditiveOne(Change(at, Breaking, "parameter-enum-narrowed"));
    AdditiveOne(Change(at, Breaking, "parameter-enum-changed"));
  }

  lemma AdditiveOne(c: Change)
    ensures Additive({c}) <==> Rank(c.class_) <= 2
  {
    assert c in {c};
  }

  lemma DefaultClass(pointer: string, was: Fields, now: Fields)
    ensures Additive(DefaultChange(pointer, was, now)) <==> Get(was, "default") == Get(now, "default")
    ensures DefaultChange(pointer, was, now) == {} <==> Get(was, "default") == Get(now, "default")
  {
    var c := DefaultChange(pointer, was, now);
    if c != {} {
      var x :| x in c;
      assert Rank(x.class_) == 3;
    }
  }

  lemma AdditiveUnion(a: set<Change>, b: set<Change>)
    ensures Additive(a + b) <==> Additive(a) && Additive(b)
  {
    assert forall c :: c in a ==> c in a + b;
    assert forall c :: c in b ==> c in a + b;
  }

  lemma ChangedIsWorse(pointer: string)
    ensures !Additive(SchemaChanged(pointer)) && SchemaChanged(pointer) != {}
  {
    assert Change(pointer, BehaviorReviewRequired, "parameter-schema-changed") in SchemaChanged(pointer);
  }

  /** A value's changes are additive exactly when only enums grew or went, and there are none exactly when
      the values are equal up to the order of enums. */
  lemma {:induction false} ValueClass(pointer: string, was: Value, now: Value)
    requires ValueChanges(pointer, was, now).Ok?
    ensures Additive(ValueChanges(pointer, was, now).value) <==> Widens(was, now)
    ensures ValueChanges(pointer, was, now).value == {} <==> SameUpToOrder(was, now)
    decreases was
  {
    if !was.Obj? || !now.Obj? {
      ChangedIsWorse(pointer);
    } else {
      var which := Others(was.fields) + Others(now.fields);
      EnumClass(pointer, was.fields, now.fields);
      DefaultClass(pointer, was.fields, now.fields);
      var enums, rest := EnumChange(pointer, was.fields, now.fields).value, FieldChanges(pointer, was, now.fields, which).value;
      AdditiveUnion(DefaultChange(pointer, was.fields, now.fields), enums);
      AdditiveUnion(DefaultChange(pointer, was.fields, now.fields) + enums, rest);
      forall f | f in which
        ensures OneField(pointer, was, now.fields, f).Ok? && OneField(pointer, was, now.fields, f).value <= rest
        ensures Additive(OneField(pointer, was, now.fields, f).value) <==> FieldWidens(was.fields, now.fields, f)
        ensures OneField(pointer, was, now.fields, f).value == {} <==> FieldSame(was.fields, now.fields, f)
      {
        FieldsOk(pointer, was, now.fields, which, f);
        if f in was.fields && f in now.fields {
          ValueClass(Under(pointer, f), was.fields[f], now.fields[f]);
        } else {
          ChangedIsWorse(Under(pointer, f));
        }
      }
      FieldsClass(pointer, was, now.fields, which);
      WidensFields(was, now);
    }
  }

  ghost predicate FieldWidens(was: Fields, now: Fields, f: string) {
    if f in was && f in now then Widens(was[f], now[f]) else f !in was && f !in now
  }

  ghost predicate FieldSame(was: Fields, now: Fields, f: string) {
    if f in was && f in now then SameUpToOrder(was[f], now[f]) else f !in was && f !in now
  }

  lemma WidensFields(was: Value, now: Value)
    requires was.Obj? && now.Obj?
    ensures var which := Others(was.fields) + Others(now.fields);
      && (Widens(was, now) <==>
          && EnumWider(was.fields, now.fields) && Get(was.fields, "default") == Get(now.fields, "default")
          && forall f :: f in which ==> FieldWidens(was.fields, now.fields, f))
      && (SameUpToOrder(was, now) <==>
          && EnumSame(was.fields, now.fields) && Get(was.fields, "default") == Get(now.fields, "default")
          && forall f :: f in which ==> FieldSame(was.fields, now.fields, f))
  {
    hide EnumWider;
    hide EnumSame;
    var a, b := Others(was.fields), Others(now.fields);
    if forall f :: f in a + b ==> FieldWidens(was.fields, now.fields, f) {
      assert forall f :: f in a + b ==> f in a && f in b;
      assert a == b;
    }
    if forall f :: f in a + b ==> FieldSame(was.fields, now.fields, f) {
      assert forall f :: f in a + b ==> f in a && f in b;
      assert a == b;
    }
  }

  // The changes of several fields are as good as those of each.
  lemma FieldsClass(pointer: string, was: Value, now: Fields, which: set<string>)
    requires was.Obj? && FieldChanges(pointer, was, now, which).Ok?
    ensures var c := FieldChanges(pointer, was, now, which).value;
      && (Additive(c) <==> forall f :: f in which ==> OneField(pointer, was, now, f).Ok? && Additive(OneField(pointer, was, now, f).value))
      && (c == {} <==> forall f :: f in which ==> OneField(pointer, was, now, f).Ok? && OneField(pointer, was, now, f).value == {})
  {
    var all := FieldChanges(pointer, was, now, which).value;
    forall f | f in which ensures OneField(pointer, was, now, f).Ok? && OneField(pointer, was, now, f).value <= all {
      FieldsOk(pointer, was, now, which, f);
    }
    var outcomes := map f | f in which :: OneField(pointer, was, now, f);
    forall c | c in all ensures exists f :: f in which && c in OneField(pointer, was, now, f).value {
      var f :| f in outcomes && c in outcomes[f].value;
      assert c in OneField(pointer, was, now, f).value;
    }
  }

  // ----- what a tool's classification means

  lemma RequiredClass(pointer: string, was: set<string>, now: set<string>)
    ensures Additive(RequiredChanges(pointer, was, now)) <==> now <= was
    ensures RequiredChanges(pointer, was, now) == {} <==> was == now
  {
    var all := RequiredChanges(pointer, was, now);
    forall x | x in now - was ensures Change(Under(pointer + "/required", x), Breaking, "required-parameter-added") in all {
    }
    forall x | x in was - now ensures Change(Under(pointer + "/required", x), AdditiveCompatible, "required-parameter-relaxed") in all {
    }
    forall c | c in all ensures (c.class_ == AdditiveCompatible && was - now != {}) || (c.class_ == Breaking && now - was != {}) {
    }
    assert was - now == {} && now - was == {} ==> was == now;
    if was == now {
      assert was - now == {} == now - was;
      assert all == {};
    }
    if !(now <= was) {
      var x :| x in now && x !in was;
      WorseThanAdditive(all, Change(Under(pointer + "/required", x), Breaking, "required-parameter-added"));
    } else {
      assert now - was == {};
    }
  }

  lemma RemovedClass(pointer: string, was: Fields, now: Fields)
    ensures Additive(RemovedChanges(pointer, was, now)) <==> was.Keys <= now.Keys
    ensures RemovedChanges(pointer, was, now) == {} <==> was.Keys <= now.Keys
  {
    var all := RemovedChanges(pointer, was, now);
    forall x | x in was.Keys - now.Keys ensures Change(Under(pointer + "/properties", x), Breaking, "parameter-removed") in all {
    }
    forall c | c in all ensures c.class_ == Breaking && was.Keys - now.Keys != {} {
    }
    if !(was.Keys <= now.Keys) {
      var x :| x in was.Keys && x !in now.Keys;
      WorseThanAdditive(all, Change(Under(pointer + "/properties", x), Breaking, "parameter-removed"));
    } else {
      assert was.Keys - now.Keys == {};
      assert all == {};
      NothingIsAdditive();
    }
  }

  lemma WorseThanAdditive(changes: set<Change>, c: Change)
    requires c in changes && Rank(c.class_) > 2
    ensures !Additive(changes) && changes != {}
  {
  }

  lemma AddedClass(pointer: string, was: Fields, now: Fields, required: set<string>)
    ensures Additive(AddedChanges(pointer, was, now, required)) <==> (now.Keys - was.Keys) !! required
    ensures AddedChanges(pointer, was, now, required) == {} <==> now.Keys <= was.Keys
  {
    var all := AddedChanges(pointer, was, now, required);
    forall x | x in now.Keys - was.Keys ensures AddedChange(pointer, x, required) in all {
    }
    forall c | c in all ensures exists x :: x in now.Keys - was.Keys && c == AddedChange(pointer, x, required) {
    }
    if !(now.Keys <= was.Keys) {
      var x :| x in now.Keys && x !in was.Keys;
      assert AddedChange(pointer, x, required) in all;
    } else {
      assert now.Keys - was.Keys == {};
      assert all == {};
    }
    if x :| x in now.Keys - was.Keys && x in required {
      WorseThanAdditive(all, AddedChange(pointer, x, required));
    }
  }

  /** What an additive change of a tool's parameters comes to. */
  ghost predicate SchemaWidens(was: Fields, now: Fields) {
    && RequiredSet(was).Ok? && RequiredSet(now).Ok? && RequiredSet(now).value <= RequiredSet(was).value
    && var a, b := Properties(was), Properties(now);
      if !a.Obj? || !b.Obj? then was == now
      else
        && a.fields.Keys <= b.fields.Keys && (b.fields.Keys - a.fields.Keys) !! RequiredSet(now).value
        && (forall p :: p in a.fields && p in b.fields ==> Widens(a.fields[p], b.fields[p]))
        && Widens(Remainder(was), Remainder(now))
  }

  ghost predicate SchemaSame(was: Fields, now: Fields) {
    && RequiredSet(was).Ok? && RequiredSet(now).Ok? && RequiredSet(now).value == RequiredSet(was).value
    && var a, b := Properties(was), Properties(now);
      if !a.Obj? || !b.Obj? then was == now
      else
        && a.fields.Keys == b.fields.Keys
        && (forall p :: p in a.fields && p in b.fields ==> SameUpToOrder(a.fields[p], b.fields[p]))
        && SameUpToOrder(Remainder(was), Remainder(now))
  }

  // The changes of the parameters that both schemas declare.
  lemma SharedClass(pointer: string, a: Value, b: Fields)
    requires a.Obj? && FieldChanges(pointer, a, b, a.fields.Keys * b.Keys).Ok?
    ensures var c := FieldChanges(pointer, a, b, a.fields.Keys * b.Keys).value;
      && (Additive(c) <==> forall p :: p in a.fields && p in b ==> Widens(a.fields[p], b[p]))
      && (c == {} <==> forall p :: p in a.fields && p in b ==> SameUpToOrder(a.fields[p], b[p]))
  {
    var which := a.fields.Keys * b.Keys;
    FieldsClass(pointer, a, b, which);
    forall p | p in which
      ensures OneField(pointer, a, b, p).Ok?
      ensures Additive(OneField(pointer, a, b, p).value) <==> Widens(a.fields[p], b[p])
      ensures OneField(pointer, a, b, p).value == {} <==> SameUpToOrder(a.fields[p], b[p])
    {
      FieldsOk(pointer, a, b, which, p);
      ValueClass(Under(pointer, p), a.fields[p], b[p]);
    }
    hide OneField;
    hide Widens;
    hide SameUpToOrder;
    assert forall p :: p in which <==> p in a.fields && p in b;
  }

  /** The classification of a tool's parameters: additive exactly when nothing became required, nothing
      was removed, and what remains is wider; no change exactly when the schemas are equal up to the order
      of enums and of the required names. */
  lemma SchemaClass(pointer: string, was: Fields, now: Fields)
    requires SchemaChanges(pointer, was, now).Ok?
    ensures Additive(SchemaChanges(pointer, was, now).value) <==> SchemaWidens(was, now)
    ensures SchemaChanges(pointer, was, now).value == {} <==> SchemaSame(was, now)
  {
    hide Additive;
    hide Widens;
    hide SameUpToOrder;
    hide FieldChanges;
    hide ValueChanges;
    hide RequiredSet;
    hide Properties;
    hide RequiredChanges;
    hide RemovedChanges;
    hide AddedChanges;
    hide SchemaChanged;
    var required := RequiredChanges(pointer, RequiredSet(was).value, RequiredSet(now).value);
    var a, b := Properties(was), Properties(now);
    RequiredClass(pointer, RequiredSet(was).value, RequiredSet(now).value);
    ChangedIsWorse(pointer);
    NothingIsAdditive();
    if !a.Obj? || !b.Obj? {
      AdditiveUnion(required, if was == now then {} else SchemaChanged(pointer));
    } else {
      RemovedClass(pointer, a.fields, b.fields);
      AddedClass(pointer, a.fields, b.fields, RequiredSet(now).value);
      SharedClass(pointer + "/properties", a, b.fields);
      ValueClass(pointer, Remainder(was), Remainder(now));
      var removed, added := RemovedChanges(pointer, a.fields, b.fields), AddedChanges(pointer, a.fields, b.fields, RequiredSet(now).value);
      var shared := FieldChanges(pointer + "/properties", a, b.fields, a.fields.Keys * b.fields.Keys).value;
      var rest := ValueChanges(pointer, Remainder(was), Remainder(now)).value;
      AdditiveUnion(required, removed);
      AdditiveUnion(required + removed, added);
      AdditiveUnion(required + removed + added, shared);
      AdditiveUnion(required + removed + added + shared, rest);
    }
  }

  lemma NothingIsAdditive()
    ensures Additive({})
  {
  }

  // ----- the comparison as the source runs it

  method CompareValues(pointer: string, was: Value, now: Value) returns (r: Outcome)
    ensures r == ValueChanges(pointer, was, now)
    decreases was
  {
    if !was.Obj? || !now.Obj? {
      return Ok(if was == now then {} else SchemaChanged(pointer));
    }
    var enums :- EnumChange(pointer, was.fields, now.fields);
    var rest :- CompareFields(pointer, was, now.fields, Others(was.fields) + Others(now.fields));
    return Ok(DefaultChange(pointer, was.fields, now.fields) + enums + rest);
  }

  // The loop over the fields.
  method CompareFields(pointer: string, was: Value, now: Fields, which: set<string>) returns (r: Outcome)
    requires was.Obj?
    ensures r == FieldChanges(pointer, was, now, which)
    decreases was, 0
  {
    var changes: set<Change> := {};
    var left := which;
    ghost var outcomes: map<string, Outcome> := map[];
    assert Merged(outcomes).value == {};
    while left != {}
      invariant left <= which && outcomes.Keys == which - left
      invariant forall f :: f in outcomes ==> outcomes[f] == OneField(pointer, was, now, f)
      invariant Merged(outcomes) == Ok(changes)
    {
      var f :| f in left;
      var one: Outcome := Ok({});
      if f in was.fields && f in now {
        one := CompareValues(Under(pointer, f), was.fields[f], now[f]);
      } else if f in was.fields || f in now {
        one := Ok(SchemaChanged(Under(pointer, f)));
      }
      assert one == OneField(pointer, was, now, f);
      if one.Err? {
        FieldErrors(pointer, was, now, which, f);
        return Err(BadEnum);
      }
      MergedAdd(outcomes, f, one.value);
      outcomes := outcomes[f := one];
      changes := changes + one.value;
      left := left - {f};
    }
    assert outcomes == map f | f in which :: OneField(pointer, was, now, f);
    return Ok(changes);
  }

  lemma FieldErrors(pointer: string, was: Value, now: Fields, which: set<string>, f: string)
    requires was.Obj? && f in which && OneField(pointer, was, now, f).Err?
    ensures FieldChanges(pointer, was, now, which) == Err(BadEnum)
  {
    var outcomes := map g | g in which :: OneField(pointer, was, now, g);
    assert outcomes[f].Err?;
  }

  method CompareParameters(pointer: string, was: Fields, now: Fields) returns (r: Outcome)
    ensures r == SchemaChanges(pointer, was, now)
  {
    hide FieldChanges;
    hide ValueChanges;
    var wasRequired :- RequiredSet(was);
    var nowRequired :- RequiredSet(now);
    var changes := RequiredChanges(pointer, wasRequired, nowRequired);
    var a, b := Properties(was), Properties(now);
    if !a.Obj? || !b.Obj? {
      return Ok(changes + if was == now then {} else SchemaChanged(pointer));
    }
    changes := changes + RemovedChanges(pointer, a.fields, b.fields);
    changes := changes + AddedChanges(pointer, a.fields, b.fields, nowRequired);
    var shared :- CompareFields(pointer + "/properties", a, b.fields, a.fields.Keys * b.fields.Keys);
    changes := changes + shared;
    var rest :- CompareValues(pointer, Remainder(was), Remainder(now));
    return Ok(changes + rest);
  }

  /** The worst classification among the changes; identity when there are none. */
  method Classify(changes: set<Change>) returns (worst: Class)
    ensures forall c :: c in changes ==> Rank(c.class_) <= Rank(worst)
    ensures if changes == {} then worst == IdentityOnly else exists c :: c in changes && c.class_ == worst
    ensures Rank(worst) <= Rank(AdditiveCompatible) <==> Additive(changes)
  {
    worst := IdentityOnly;
    var left := changes;
    while left != {}
      invariant left <= changes && forall c :: c in changes && c !in left ==> Rank(c.class_) <= Rank(worst)
      invariant if left == changes then worst == IdentityOnly else exists c :: c in changes && c.class_ == worst
    {
      var c :| c in left;
      if left == changes || Rank(c.class_) > Rank(worst) {
        worst := c.class_;
      }
      left := left - {c};
    }
  }
}
