/** Which changes of a tool's parameters are breaking, and which ask for a review
    (src/weave_frontend/manifest_compatibility.py). */
module ManifestClasses {
  import opened Prelude
  import opened Manifest

  ghost predicate Has(changes: set<Change>, k: Class) {
    exists c :: c in changes && c.class_ == k
  }

  /** Somewhere inside, an enum appeared or lost a member. */
  ghost predicate Narrows(was: Value, now: Value)
    decreases was
  {
    was.Obj? && now.Obj? &&
    (!EnumWider(was.fields, now.fields) ||
     exists f :: f in was.fields && f in now.fields && f != "default" && f != "enum" && Narrows(was.fields[f], now.fields[f]))
  }

  /** Somewhere inside, a default or anything else but an enum is not the same. */
  ghost predicate Shifts(was: Value, now: Value)
    decreases was
  {
    if !was.Obj? || !now.Obj? then was != now
    else
      || Get(was.fields, "default") != Get(now.fields, "default")
      || exists f :: (f in was.fields || f in now.fields) && f != "default" && f != "enum" &&
                     (f in was.fields && f in now.fields ==> Shifts(was.fields[f], now.fields[f]))
  }

  ghost predicate FieldShifts(was: Fields, now: Fields, f: string) {
    (f in was || f in now) && (f in was && f in now ==> Shifts(was[f], now[f]))
  }

  ghost predicate FieldNarrows(was: Fields, now: Fields, f: string) {
    f in was && f in now && Narrows(was[f], now[f])
  }

  lemma HasUnion(a: set<Change>, b: set<Change>, k: Class)
    ensures Has(a + b, k) <==> Has(a, k) || Has(b, k)
  {
    if c :| c in a && c.class_ == k {
      assert c in a + b;
    }
    if c :| c in b && c.class_ == k {
      assert c in a + b;
    }
  }

  lemma HasOne(c: Change, k: Class)
    ensures Has({c}, k) <==> c.class_ == k
  {
    assert c in {c};
  }

  lemma HasNone(k: Class)
    ensures !Has({}, k)
  {
  }

  lemma EnumHas(pointer: string, was: Fields, now: Fields)
    requires EnumChange(pointer, was, now).Ok?
    ensures Has(EnumChange(pointer, was, now).value, Breaking) <==> !EnumWider(was, now)
    ensures !Has(EnumChange(pointer, was, now).value, BehaviorReviewRequired)
  {
    EnumClass(pointer, was, now);
    var changes := EnumChange(pointer, was, now).value;
    forall c | c in changes ensures c.class_ == Breaking || c.class_ == AdditiveCompatible {
    }
  }

  lemma DefaultHas(pointer: string, was: Fields, now: Fields)
    ensures Has(DefaultChange(pointer, was, now), BehaviorReviewRequired) <==> Get(was, "default") != Get(now, "default")
    ensures !Has(DefaultChange(pointer, was, now), Breaking)
  {
    DefaultClass(pointer, was, now);
    var changes := DefaultChange(pointer, was, now);
    if changes != {} {
      var c :| c in changes;
      assert c.class_ == BehaviorReviewRequired;
    }
  }

  lemma ChangedHas(pointer: string)
    ensures Has(SchemaChanged(pointer), BehaviorReviewRequired) && !Has(SchemaChanged(pointer), Breaking)
  {
    HasOne(Change(pointer, BehaviorReviewRequired, "parameter-schema-changed"), BehaviorReviewRequired);
    HasOne(Change(pointer, BehaviorReviewRequired, "parameter-schema-changed"), Breaking);
  }

  lemma FieldsHave(pointer: string, was: Value, now: Fields, which: set<string>, k: Class)
    requires was.Obj? && FieldChanges(pointer, was, now, which).Ok?
    ensures Has(FieldChanges(pointer, was, now, which).value, k) <==>
            exists f :: f in which && OneField(pointer, was, now, f).Ok? && Has(OneField(pointer, was, now, f).value, k)
  {
    var all := FieldChanges(pointer, was, now, which).value;
    forall f | f in which ensures OneField(pointer, was, now, f).Ok? && OneField(pointer, was, now, f).value <= all {
      FieldsOk(pointer, was, now, which, f);
    }
    var outcomes := map f | f in which :: OneField(pointer, was, now, f);
    forall c | c in all ensures exists f :: f in which && c in OneField(pointer, was, now, f).value {
      var f :| f in outcomes && c in outcomes[f].value;
      assert c in OneField(pointer, was, now, f).value;
    }
  }

  lemma PlainExactly(pointer: string, was: Value, now: Value)
    requires !was.Obj? || !now.Obj?
    ensures var changes := if was == now then {} else SchemaChanged(pointer);
      !Has(changes, Breaking) && !Narrows(was, now) && (Has(changes, BehaviorReviewRequired) <==> Shifts(was, now))
  {
    ChangedHas(pointer);
  }

  /** A value's changes are breaking exactly when an enum appeared or lost a member, and ask for a review exactly
      when a default or anything but an enum is not the same. */
  lemma {:induction false} ValueExactly(pointer: string, was: Value, now: Value)
    requires ValueChanges(pointer, was, now).Ok?
    ensures Has(ValueChanges(pointer, was, now).value, Breaking) <==> Narrows(was, now)
    ensures Has(ValueChanges(pointer, was, now).value, BehaviorReviewRequired) <==> Shifts(was, now)
    decreases was
  {
    hide Narrows;
    hide Shifts;
    hide EnumWider;
    hide EnumChange;
    if !was.Obj? || !now.Obj? {
      PlainExactly(pointer, was, now);
    } else {
      var which := Others(was.fields) + Others(now.fields);
      var defaults := DefaultChange(pointer, was.fields, now.fields);
      var enums, rest := EnumChange(pointer, was.fields, now.fields).value, FieldChanges(pointer, was, now.fields, which).value;
      EnumHas(pointer, was.fields, now.fields);
      DefaultHas(pointer, was.fields, now.fields);
      forall k | k in {Breaking, BehaviorReviewRequired}
        ensures Has(defaults + enums + rest, k) <==> Has(defaults, k) || Has(enums, k) || Has(rest, k)
      {
        HasUnion(defaults, enums, k);
        HasUnion(defaults + enums, rest, k);
      }
      forall f | f in which
        ensures OneField(pointer, was, now.fields, f).Ok?
        ensures Has(OneField(pointer, was, now.fields, f).value, Breaking) <==> FieldNarrows(was.fields, now.fields, f)
        ensures Has(OneField(pointer, was, now.fields, f).value, BehaviorReviewRequired) <==> FieldShifts(was.fields, now.fields, f)
      {
        FieldsOk(pointer, was, now.fields, which, f);
        if f in was.fields && f in now.fields {
          ValueExactly(Under(pointer, f), was.fields[f], now.fields[f]);
        } else {
          ChangedHas(Under(pointer, f));
        }
      }
      FieldsHave(pointer, was, now.fields, which, Breaking);
      FieldsHave(pointer, was, now.fields, which, BehaviorReviewRequired);
      NarrowsFields(was, now);
    }
  }

  lemma NarrowsFields(was: Value, now: Value)
    requires was.Obj? && now.Obj?
    ensures var which := Others(was.fields) + Others(now.fields);
      && (Narrows(was, now) <==> !EnumWider(was.fields, now.fields) || exists f :: f in which && FieldNarrows(was.fields, now.fields, f))
      && (Shifts(was, now) <==>
          Get(was.fields, "default") != Get(now.fields, "default") || exists f :: f in which && FieldShifts(was.fields, now.fields, f))
  {
    hide EnumWider;
    var which := Others(was.fields) + Others(now.fields);
    assert forall f :: f in which <==> (f in was.fields || f in now.fields) && f != "default" && f != "enum";
  }

  // ----- a tool's parameters

  /** A parameter became required, or was removed, or came as a required one, or an enum narrowed somewhere. */
  ghost predicate ToolBreaks(was: Fields, now: Fields) {
    && RequiredSet(was).Ok? && RequiredSet(now).Ok?
    && (!(RequiredSet(now).value <= RequiredSet(was).value) || ParametersBreak(was, now, RequiredSet(now).value))
  }

  ghost predicate ParametersBreak(was: Fields, now: Fields, required: set<string>) {
    var a, b := Properties(was), Properties(now);
    a.Obj? && b.Obj? &&
    (|| (exists p :: p in a.fields && p !in b.fields)
     || (exists p :: p in b.fields && p !in a.fields && p in required)
     || (exists p :: FieldNarrows(a.fields, b.fields, p))
     || Narrows(Remainder(was), Remainder(now)))
  }

  /** A parameter that both have is not the same but for its enums, or what is said besides is not. */
  ghost predicate ToolShifts(was: Fields, now: Fields) {
    var a, b := Properties(was), Properties(now);
    if !a.Obj? || !b.Obj? then was != now
    else (exists p :: p in a.fields && p in b.fields && Shifts(a.fields[p], b.fields[p])) || Shifts(Remainder(was), Remainder(now))
  }

  lemma RequiredHas(pointer: string, was: set<string>, now: set<string>)
    ensures Has(RequiredChanges(pointer, was, now), Breaking) <==> !(now <= was)
    ensures !Has(RequiredChanges(pointer, was, now), BehaviorReviewRequired)
  {
    var all := RequiredChanges(pointer, was, now);
    if x :| x in now && x !in was {
      assert x in now - was;
      assert Change(Under(pointer + "/required", x), Breaking, "required-parameter-added") in all;
    }
    forall c | c in all ensures c.class_ == AdditiveCompatible || (c.class_ == Breaking && now - was != {}) {
    }
  }

  lemma RemovedHas(pointer: string, was: Fields, now: Fields)
    ensures Has(RemovedChanges(pointer, was, now), Breaking) <==> exists p :: p in was && p !in now
    ensures !Has(RemovedChanges(pointer, was, now), BehaviorReviewRequired)
  {
    var all := RemovedChanges(pointer, was, now);
    if p :| p in was && p !in now {
      assert p in was.Keys - now.Keys;
      assert Change(Under(pointer + "/properties", p), Breaking, "parameter-removed") in all;
    }
    forall c | c in all ensures c.class_ == Breaking && exists p :: p in was && p !in now {
      var p :| p in was.Keys - now.Keys;
    }
  }

  lemma AddedHas(pointer: string, was: Fields, now: Fields, required: set<string>)
    ensures Has(AddedChanges(pointer, was, now, required), Breaking) <==> exists p :: p in now && p !in was && p in required
    ensures !Has(AddedChanges(pointer, was, now, required), BehaviorReviewRequired)
  {
    var all := AddedChanges(pointer, was, now, required);
    if p :| p in now && p !in was && p in required {
      assert p in now.Keys - was.Keys;
      assert AddedChange(pointer, p, required) in all;
    }
    forall c | c in all
      ensures c.class_ == AdditiveCompatible || (c.class_ == Breaking && exists p :: p in now && p !in was && p in required)
    {
      var p :| p in now.Keys - was.Keys && c == AddedChange(pointer, p, required);
    }
  }

  lemma SharedHas(pointer: string, a: Value, b: Fields)
    requires a.Obj? && FieldChanges(pointer, a, b, a.fields.Keys * b.Keys).Ok?
    ensures var c := FieldChanges(pointer, a, b, a.fields.Keys * b.Keys).value;
      && (Has(c, Breaking) <==> exists p :: FieldNarrows(a.fields, b, p))
      && (Has(c, BehaviorReviewRequired) <==> exists p :: p in a.fields && p in b && Shifts(a.fields[p], b[p]))
  {
    var which := a.fields.Keys * b.Keys;
    FieldsHave(pointer, a, b, which, Breaking);
    FieldsHave(pointer, a, b, which, BehaviorReviewRequired);
    forall p | p in which
      ensures OneField(pointer, a, b, p).Ok?
      ensures Has(OneField(pointer, a, b, p).value, Breaking) <==> FieldNarrows(a.fields, b, p)
      ensures Has(OneField(pointer, a, b, p).value, BehaviorReviewRequired) <==> Shifts(a.fields[p], b[p])
    {
      FieldsOk(pointer, a, b, which, p);
      ValueExactly(Under(pointer, p), a.fields[p], b[p]);
    }
    hide OneField;
    hide Narrows;
    hide Shifts;
    hide Has;
    assert forall p :: p in which <==> p in a.fields && p in b;
  }

  lemma HasFive(a: set<Change>, b: set<Change>, c: set<Change>, d: set<Change>, e: set<Change>, k: Class)
    ensures Has(a + b + c + d + e, k) <==> Has(a, k) || Has(b, k) || Has(c, k) || Has(d, k) || Has(e, k)
  {
    hide Has;
    HasUnion(a, b, k);
    HasUnion(a + b, c, k);
    HasUnion(a + b + c, d, k);
    HasUnion(a + b + c + d, e, k);
  }

  /** A tool's changes are breaking exactly when something became required, was removed, or an enum narrowed, and
      ask for a review exactly when something else that both versions say is not the same. */
  lemma ToolExactly(pointer: string, was: Fields, now: Fields)
    requires SchemaChanges(pointer, was, now).Ok?
    ensures Has(SchemaChanges(pointer, was, now).value, Breaking) <==> ToolBreaks(was, now)
    ensures Has(SchemaChanges(pointer, was, now).value, BehaviorReviewRequired) <==> ToolShifts(was, now)
  {
    hide Has;
    hide Narrows;
    hide Shifts;
    hide FieldNarrows;
    hide FieldChanges;
    hide ValueChanges;
    hide RequiredSet;
    hide Properties;
    hide RequiredChanges;
    hide RemovedChanges;
    hide AddedChanges;
    hide SchemaChanged;
    var required := RequiredChanges(pointer, RequiredSet(was).value, RequiredSet(now).value);
    var a, b := Properties(was), Properties(now);
    RequiredHas(pointer, RequiredSet(was).value, RequiredSet(now).value);
    if !a.Obj? || !b.Obj? {
      ChangedHas(pointer);
      var rest := if was == now then {} else SchemaChanged(pointer);
      HasNone(Breaking);
      HasNone(BehaviorReviewRequired);
      HasUnion(required, rest, Breaking);
      HasUnion(required, rest, BehaviorReviewRequired);
    } else {
      RemovedHas(pointer, a.fields, b.fields);
      AddedHas(pointer, a.fields, b.fields, RequiredSet(now).value);
      SharedHas(pointer + "/properties", a, b.fields);
      ValueExactly(pointer, Remainder(was), Remainder(now));
      var removed, added := RemovedChanges(pointer, a.fields, b.fields), AddedChanges(pointer, a.fields, b.fields, RequiredSet(now).value);
      var shared := FieldChanges(pointer + "/properties", a, b.fields, a.fields.Keys * b.fields.Keys).value;
      var rest := ValueChanges(pointer, Remainder(was), Remainder(now)).value;
      HasFive(required, removed, added, shared, rest, Breaking);
      HasFive(required, removed, added, shared, rest, BehaviorReviewRequired);
    }
  }

  // ----- what the lists of a schema say

  /** Required names are a list of different non-empty strings, or there is no list and none is required. */
  lemma RequiredExactly(schema: Fields)
    ensures RequiredSet(schema).Ok? <==>
            ("required" in schema ==>
               && schema["required"].Arr?
               && (forall v :: v in schema["required"].items ==> v.Str? && v.s != "")
               && forall i, j :: 0 <= i < j < |schema["required"].items| ==> schema["required"].items[i] != schema["required"].items[j])
    ensures RequiredSet(schema).Ok? ==>
            forall x :: x in RequiredSet(schema).value <==> "required" in schema && Str(x) in schema["required"].items
  {
    if "required" in schema && schema["required"].Arr? {
      var items := schema["required"].items;
      assert (forall v :: v in items ==> v.Str? && v.s != "") <==> forall i :: 0 <= i < |items| ==> items[i].Str? && items[i].s != "";
      if RequiredSet(schema).Ok? {
        forall x | Str(x) in items ensures x in RequiredSet(schema).value {
          var i :| 0 <= i < |items| && items[i] == Str(x);
        }
      }
    }
  }

  /** An enum is a list of different values that is not empty, and admits these. */
  lemma EnumExactly(m: Fields)
    ensures OptionalEnum(m).Ok? <==>
            ("enum" in m ==>
               && m["enum"].Arr? && m["enum"].items != []
               && forall i, j :: 0 <= i < j < |m["enum"].items| ==> m["enum"].items[i] != m["enum"].items[j])
    ensures OptionalEnum(m).Ok? ==> (OptionalEnum(m).value.Some? <==> "enum" in m)
    ensures OptionalEnum(m).Ok? && "enum" in m ==> forall v :: v in OptionalEnum(m).value.value <==> v in m["enum"].items
  {
  }

  lemma {:induction false} TokensApart(a: string, b: string)
    requires PointerToken(a) == PointerToken(b)
    ensures a == b
  {
    if a != "" && b != "" {
      TokenParts(a);
      TokenParts(b);
      TokensApart(a[1..], b[1..]);
      assert a == [a[0]] + a[1..] && b == [b[0]] + b[1..];
    }
  }

  // The first character of a token gives that of the name, or with the next one does.
  lemma TokenParts(a: string)
    requires a != ""
    ensures PointerToken(a) != ""
    ensures a[0] == '~' ==> |PointerToken(a)| >= 2 && PointerToken(a)[..2] == "~0" && PointerToken(a)[2..] == PointerToken(a[1..])
    ensures a[0] == '/' ==> |PointerToken(a)| >= 2 && PointerToken(a)[..2] == "~1" && PointerToken(a)[2..] == PointerToken(a[1..])
    ensures a[0] != '~' && a[0] != '/' ==> PointerToken(a)[0] == a[0] && PointerToken(a)[1..] == PointerToken(a[1..])
  {
  }

  lemma {:induction false} TokenWhole(a: string)
    ensures '/' !in PointerToken(a)
  {
    if a != "" {
      TokenWhole(a[1..]);
    }
  }

  /** Different fields have different pointers, and a field is one step of its pointer. */
  lemma PointersApart(pointer: string, f: string, g: string)
    requires Under(pointer, f) == Under(pointer, g)
    ensures f == g && Under(pointer, f)[..|pointer| + 1] == pointer + "/" && '/' !in Under(pointer, f)[|pointer| + 1..]
  {
    var p, q := Under(pointer, f), Under(pointer, g);
    assert p[|pointer| + 1..] == PointerToken(f) && q[|pointer| + 1..] == PointerToken(g);
    TokensApart(f, g);
    TokenWhole(f);
  }
}
