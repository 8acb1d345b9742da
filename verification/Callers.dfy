/** What an additive change of a tool's parameters promises its callers, and for which schemas the promise
    holds (src/weave_frontend/manifest_compatibility.py; JSON Schema Validation draft 2020-12, sections
    6.1.2 and 6.5.3). */
module Callers {
  import opened Prelude
  import opened Manifest

  // Whether a keyword other than the ones below, with its own value, accepts a value.
  type Check = (string, Value, Value) -> bool

  const ANY: Check := (f: string, s: Value, x: Value) => true

  predicate HasEnum(fields: Fields) {
    "enum" in fields && fields["enum"].Arr?
  }

  predicate HasProperties(fields: Fields) {
    "properties" in fields && fields["properties"].Obj?
  }

  /** Which names are additional is plain to see unless patterns declare names too. */
  predicate HasAdditional(fields: Fields) {
    "additionalProperties" in fields && "patternProperties" !in fields
  }

  /** The keywords whose meaning is fixed here; every other one may mean anything. */
  function Structural(fields: Fields): set<string> {
    {"enum", "default", "properties", "items"} + if "patternProperties" in fields then {} else {"additionalProperties"}
  }

  /** The name has a schema of its own. A list under the name enum is not one. */
  predicate Declared(fields: Fields, p: string) {
    HasProperties(fields) && p in fields["properties"].fields && (p == "enum" ==> !fields["properties"].fields[p].Arr?)
  }

  /** The schema of a property: its own, or the one for additional names. */
  function At(fields: Fields, p: string): Option<Value> {
    if Declared(fields, p) then Some(fields["properties"].fields[p])
    else if HasAdditional(fields) then Some(fields["additionalProperties"])
    else None
  }

  /** A property called default is compared as a default is: it never changes. */
  predicate Fixed(fields: Fields, p: string) {
    p == "default" && Declared(fields, p)
  }

  /** A value satisfies a schema: its enum, the schemas of its properties and items, and every other keyword.
      Nothing satisfies the schema false. */
  predicate Accepts(check: Check, schema: Value, v: Value)
    decreases v, schema
  {
    && schema != Bool(false)
    && (schema.Obj? ==>
          && (HasEnum(schema.fields) ==> v in schema.fields["enum"].items)
          && (v.Obj? ==> forall p :: p in v.fields && At(schema.fields, p).Some? ==> Accepts(check, At(schema.fields, p).value, v.fields[p]))
          && ("items" in schema.fields && v.Arr? ==> forall i :: 0 <= i < |v.items| ==> Accepts(check, schema.fields["items"], v.items[i]))
          && (forall f :: f in schema.fields && f !in Structural(schema.fields) ==> check(f, schema.fields[f], v)))
  }

  /** No enum inside the value, through any nesting of objects but defaults, which never change. */
  predicate Plain(v: Value) {
    v.Obj? ==> "enum" !in v.fields && forall f :: f in v.fields && f != "default" ==> Plain(v.fields[f])
  }

  predicate PlainKeywords(fields: Fields) {
    forall f :: f in fields && f !in Structural(fields) ==> Plain(fields[f])
  }

  /** Along this value, no other keyword that is met holds an enum. */
  predicate PositiveAt(schema: Value, v: Value)
    decreases v, schema
  {
    schema.Obj? ==>
      && PlainKeywords(schema.fields)
      && (v.Obj? ==>
            forall p :: p in v.fields && At(schema.fields, p).Some? && !Fixed(schema.fields, p) ==>
              PositiveAt(At(schema.fields, p).value, v.fields[p]))
      && ("items" in schema.fields && v.Arr? ==> forall i :: 0 <= i < |v.items| ==> PositiveAt(schema.fields["items"], v.items[i]))
  }

  /** No other keyword that an accepted value meets holds an enum. Below an enum only its members count. */
  predicate Positive(schema: Value) {
    schema.Obj? ==>
      if HasEnum(schema.fields) then
        forall i :: 0 <= i < |schema.fields["enum"].items| && Accepts(ANY, schema, schema.fields["enum"].items[i]) ==>
          PositiveAt(schema, schema.fields["enum"].items[i])
      else
        && PlainKeywords(schema.fields)
        && ("items" in schema.fields ==> Positive(schema.fields["items"]))
        && (HasAdditional(schema.fields) ==> Positive(schema.fields["additionalProperties"]))
        && (HasProperties(schema.fields) ==>
              forall p :: p in schema.fields["properties"].fields && p != "default" ==> Positive(schema.fields["properties"].fields[p]))
  }

  ghost predicate PositiveOnAccepted(schema: Value) {
    forall v :: Accepts(ANY, schema, v) ==> PositiveAt(schema, v)
  }

  // ----- the condition on values and on the schema

  lemma AcceptsProperty(schema: Value, p: string, y: Value)
    requires schema.Obj? && !HasEnum(schema.fields) && At(schema.fields, p).Some? && Accepts(ANY, At(schema.fields, p).value, y)
    ensures Accepts(ANY, schema, Obj(map[p := y]))
    ensures !Fixed(schema.fields, p) && PositiveAt(schema, Obj(map[p := y])) ==> PositiveAt(At(schema.fields, p).value, y)
  {
    var v := Obj(map[p := y]);
    assert v.fields[p] == y;
  }

  /** Some name is none of the given ones. */
  lemma {:induction false} FreshName(names: set<string>) returns (p: string)
    ensures p !in names
  {
    var n := LongName(names);
    p := seq(n, i => 'a');
  }

  lemma {:induction false} LongName(names: set<string>) returns (n: nat)
    ensures forall x :: x in names ==> |x| < n
    decreases |names|
  {
    n := 0;
    if names != {} {
      var x :| x in names;
      n := LongName(names - {x});
      n := if n <= |x| then |x| + 1 else n;
    }
  }

  lemma AcceptsItem(schema: Value, y: Value)
    requires schema.Obj? && !HasEnum(schema.fields) && "items" in schema.fields && Accepts(ANY, schema.fields["items"], y)
    ensures Accepts(ANY, schema, Arr([y]))
    ensures PositiveAt(schema, Arr([y])) ==> PositiveAt(schema.fields["items"], y)
  {
    var v := Arr([y]);
    assert v.items[0] == y;
  }

  /** The condition on the schema says exactly that of every accepted value. */
  lemma {:induction false} PositiveExactly(schema: Value)
    ensures Positive(schema) <==> PositiveOnAccepted(schema)
    decreases schema, 2
  {
    if schema.Obj? && !HasEnum(schema.fields) {
      if Positive(schema) {
        PositiveParts(schema);
      }
      if PositiveOnAccepted(schema) {
        PositiveFromValues(schema);
      }
    } else if schema.Obj? {
      var items := schema.fields["enum"].items;
      forall v | Accepts(ANY, schema, v) && Positive(schema) ensures PositiveAt(schema, v) {
        var i :| 0 <= i < |items| && items[i] == v;
      }
    }
  }

  lemma {:induction false} PositiveParts(schema: Value)
    requires schema.Obj? && !HasEnum(schema.fields) && Positive(schema)
    ensures PositiveOnAccepted(schema)
    decreases schema, 0
  {
    if "items" in schema.fields {
      PositiveExactly(schema.fields["items"]);
    }
    forall p | At(schema.fields, p).Some? && !Fixed(schema.fields, p) ensures PositiveOnAccepted(At(schema.fields, p).value) {
      PositiveExactly(At(schema.fields, p).value);
    }
    forall v | Accepts(ANY, schema, v) ensures PositiveAt(schema, v) {
      if v.Obj? {
        forall p | p in v.fields && At(schema.fields, p).Some? && !Fixed(schema.fields, p)
          ensures PositiveAt(At(schema.fields, p).value, v.fields[p])
        {
          assert Accepts(ANY, At(schema.fields, p).value, v.fields[p]);
        }
      }
      if "items" in schema.fields && v.Arr? {
        forall i | 0 <= i < |v.items| ensures PositiveAt(schema.fields["items"], v.items[i]) {
          assert Accepts(ANY, schema.fields["items"], v.items[i]);
        }
      }
    }
  }

  lemma {:induction false} PositiveFromValues(schema: Value)
    requires schema.Obj? && !HasEnum(schema.fields)
    requires PositiveOnAccepted(schema)
    ensures Positive(schema)
    decreases schema, 1
  {
    assert Accepts(ANY, schema, Null);
    if "items" in schema.fields {
      forall y | Accepts(ANY, schema.fields["items"], y) ensures PositiveAt(schema.fields["items"], y) {
        AcceptsItem(schema, y);
      }
      PositiveExactly(schema.fields["items"]);
    }
    if HasProperties(schema.fields) {
      forall p | p in schema.fields["properties"].fields && p != "default" ensures Positive(schema.fields["properties"].fields[p]) {
        if Declared(schema.fields, p) {
          PositiveProperty(schema, p);
        }
      }
    }
    if HasAdditional(schema.fields) {
      var names := if HasProperties(schema.fields) then schema.fields["properties"].fields.Keys else {};
      var p := FreshName(names);
      PositiveProperty(schema, p);
    }
  }

  lemma {:induction false} PositiveProperty(schema: Value, p: string)
    requires schema.Obj? && !HasEnum(schema.fields) && At(schema.fields, p).Some? && !Fixed(schema.fields, p) && PositiveOnAccepted(schema)
    ensures Positive(At(schema.fields, p).value)
    decreases schema, 0
  {
    forall y | Accepts(ANY, At(schema.fields, p).value, y) ensures PositiveAt(At(schema.fields, p).value, y) {
      AcceptsProperty(schema, p, y);
    }
    PositiveExactly(At(schema.fields, p).value);
  }

  lemma {:induction false} AcceptsAny(check: Check, schema: Value, v: Value)
    requires Accepts(check, schema, v)
    ensures Accepts(ANY, schema, v)
    decreases v, schema
  {
    if schema.Obj? {
      if v.Obj? {
        forall p | p in v.fields && At(schema.fields, p).Some? ensures Accepts(ANY, At(schema.fields, p).value, v.fields[p]) {
          AcceptsAny(check, At(schema.fields, p).value, v.fields[p]);
        }
      }
      if "items" in schema.fields && v.Arr? {
        forall i | 0 <= i < |v.items| ensures Accepts(ANY, schema.fields["items"], v.items[i]) {
          AcceptsAny(check, schema.fields["items"], v.items[i]);
        }
      }
    }
  }

  // ----- where the promise holds

  /** Without an enum inside, a value that may only widen stays as it is. */
  lemma {:induction false} PlainWidens(was: Value, now: Value)
    requires Plain(was) && Widens(was, now)
    ensures was == now
    decreases was
  {
    if was.Obj? && now.Obj? {
      assert OptionalEnum(was.fields) == Ok(None);
      assert "enum" !in now.fields;
      forall f ensures Get(was.fields, f) == Get(now.fields, f) {
        if f != "default" {
          assert f in Others(was.fields) <==> f in was.fields;
          assert f in Others(now.fields) <==> f in now.fields;
          if f in was.fields {
            PlainWidens(was.fields[f], now.fields[f]);
          }
        }
      }
      SameFields(was.fields, now.fields);
    }
  }

  lemma SameFields(a: Fields, b: Fields)
    requires forall f :: Get(a, f) == Get(b, f)
    ensures a == b
  {
    forall f ensures f in a <==> f in b {
      assert Get(a, f) == Get(b, f);
    }
    forall f | f in a ensures a[f] == b[f] {
      assert Get(a, f) == Get(b, f);
    }
  }

  lemma WiderField(was: Value, now: Value, f: string)
    requires was.Obj? && now.Obj? && Widens(was, now) && f !in {"enum", "default"}
    ensures f in was.fields <==> f in now.fields
    ensures f in was.fields ==> Widens(was.fields[f], now.fields[f])
  {
    assert f in Others(was.fields) <==> f in Others(now.fields);
  }

  /** Every name keeps its schema, or one that is wider. */
  lemma WiderAt(was: Value, now: Value, p: string)
    requires was.Obj? && now.Obj? && Widens(was, now)
    ensures At(was.fields, p).Some? <==> At(now.fields, p).Some?
    ensures At(was.fields, p).Some? ==>
      if Fixed(was.fields, p) then At(was.fields, p) == At(now.fields, p) else Widens(At(was.fields, p).value, At(now.fields, p).value)
  {
    WiderField(was, now, "properties");
    WiderField(was, now, "additionalProperties");
    WiderField(was, now, "patternProperties");
    if HasProperties(was.fields) || HasProperties(now.fields) {
      WiderDeclared(was.fields["properties"], now.fields["properties"], p);
    }
  }

  lemma WiderDeclared(was: Value, now: Value, p: string)
    requires Widens(was, now) && (was.Obj? || now.Obj?)
    ensures was.Obj? && now.Obj?
    ensures p != "enum" ==> (p in was.fields <==> p in now.fields)
    ensures p == "enum" ==> (p in was.fields ==> was.fields[p].Arr?) && (p in now.fields ==> now.fields[p].Arr?)
    ensures p != "enum" && p in was.fields ==> if p == "default" then was.fields[p] == now.fields[p] else Widens(was.fields[p], now.fields[p])
  {
    if p == "default" {
      assert Get(was.fields, p) == Get(now.fields, p);
    } else if p != "enum" {
      WiderField(was, now, p);
    }
  }

  /** What an accepted value meets only widens, so it is still accepted. */
  lemma {:induction false} WiderAccepts(check: Check, was: Value, now: Value, v: Value)
    requires PositiveAt(was, v) && Widens(was, now) && Accepts(check, was, v)
    ensures Accepts(check, now, v)
    decreases v, was
  {
    if was.Obj? && now.Obj? {
      WiderField(was, now, "items");
      WiderField(was, now, "patternProperties");
      if HasEnum(now.fields) {
        WiderEnum(was.fields, now.fields, v);
      }
      if v.Obj? {
        forall p | p in v.fields && At(now.fields, p).Some? ensures Accepts(check, At(now.fields, p).value, v.fields[p]) {
          WiderAt(was, now, p);
          if !Fixed(was.fields, p) {
            WiderAccepts(check, At(was.fields, p).value, At(now.fields, p).value, v.fields[p]);
          }
        }
      }
      if "items" in now.fields && v.Arr? {
        forall i | 0 <= i < |v.items| ensures Accepts(check, now.fields["items"], v.items[i]) {
          WiderAccepts(check, was.fields["items"], now.fields["items"], v.items[i]);
        }
      }
      forall f | f in now.fields && f !in Structural(now.fields) ensures check(f, now.fields[f], v) {
        WiderField(was, now, f);
        PlainWidens(was.fields[f], now.fields[f]);
      }
    }
  }

  lemma WiderEnum(was: Fields, now: Fields, v: Value)
    requires EnumWider(was, now) && "enum" in now && (HasEnum(was) ==> v in was["enum"].items)
    ensures now["enum"].Arr? && v in now["enum"].items
  {
    var i :| 0 <= i < |was["enum"].items| && was["enum"].items[i] == v;
    assert v in Members(was["enum"].items);
  }

  // ----- where it fails

  /** The value is nested at most `d` deep. */
  predicate Within(v: Value, d: nat) {
    match v
    case Obj(fields) => d > 0 && forall f :: f in fields ==> Within(fields[f], d - 1)
    case Arr(items) => d > 0 && forall i :: 0 <= i < |items| ==> Within(items[i], d - 1)
    case _ => true
  }

  lemma {:induction false} WithinMore(v: Value, d: nat, e: nat)
    requires Within(v, d) && d <= e
    ensures Within(v, e)
    decreases v
  {
    match v
    case Obj(fields) =>
      forall f | f in fields ensures Within(fields[f], e - 1) {
        WithinMore(fields[f], d - 1, e - 1);
      }
    case Arr(items) =>
      forall i | 0 <= i < |items| ensures Within(items[i], e - 1) {
        WithinMore(items[i], d - 1, e - 1);
      }
    case _ =>
  }

  lemma {:induction false} Bounded(v: Value) returns (d: nat)
    ensures Within(v, d)
    decreases v, 1
  {
    match v
    case Obj(fields) =>
      var e := BoundedFields(v, fields.Keys);
      d := e + 1;
    case Arr(items) =>
      var e := BoundedItems(v, |items|);
      d := e + 1;
    case _ => d := 0;
  }

  lemma {:induction false} BoundedFields(v: Value, which: set<string>) returns (d: nat)
    requires v.Obj? && which <= v.fields.Keys
    ensures forall f :: f in which ==> Within(v.fields[f], d)
    decreases v, 0, |which|
  {
    d := 0;
    if which != {} {
      var f :| f in which;
      var a := Bounded(v.fields[f]);
      var b := BoundedFields(v, which - {f});
      d := if a < b then b else a;
      forall g | g in which ensures Within(v.fields[g], d) {
        WithinMore(v.fields[g], if g == f then a else b, d);
      }
    }
  }

  lemma {:induction false} BoundedItems(v: Value, n: nat) returns (d: nat)
    requires v.Arr? && n <= |v.items|
    ensures forall i :: 0 <= i < n ==> Within(v.items[i], d)
    decreases v, 0, n
  {
    d := 0;
    if n > 0 {
      var a := Bounded(v.items[n - 1]);
      var b := BoundedItems(v, n - 1);
      d := if a < b then b else a;
      forall i | 0 <= i < n ensures Within(v.items[i], d) {
        WithinMore(v.items[i], if i == n - 1 then a else b, d);
      }
    }
  }

  function Deep(d: nat): Value {
    if d == 0 then Null else Arr([Deep(d - 1)])
  }

  lemma {:induction false} DeepOutside(d: nat, e: nat)
    requires e < d
    ensures !Within(Deep(d), e)
  {
    var items := [Deep(d - 1)];
    assert Deep(d) == Arr(items) && items[0] == Deep(d - 1);
    if e > 0 {
      DeepOutside(d - 1, e - 1);
    }
  }

  /** A comparable value with an enum inside can grow, beyond any depth. */
  lemma {:induction false} Grows(w: Value, d: nat) returns (n: Value)
    requires Widens(w, w) && !Plain(w)
    ensures Widens(w, n) && !Within(n, d)
    decreases w
  {
    if "enum" in w.fields {
      n := GrowsEnum(w, d);
    } else {
      var f :| f in w.fields && f != "default" && !Plain(w.fields[f]);
      WiderField(w, w, f);
      var m := Grows(w.fields[f], d);
      n := Obj(w.fields[f := m]);
      ReplacedWidens(w, f, m);
      if Within(n, d) {
        assert n.fields[f] == m;
        WithinMore(m, d - 1, d);
      }
    }
  }

  // One field that widens makes the object widen.
  lemma ReplacedWidens(w: Value, f: string, m: Value)
    requires w.Obj? && Widens(w, w) && f in w.fields && f !in {"enum", "default"} && Widens(w.fields[f], m)
    ensures Widens(w, Obj(w.fields[f := m]))
  {
    var n := w.fields[f := m];
    assert OptionalEnum(n) == OptionalEnum(w.fields);
    assert Get(n, "default") == Get(w.fields, "default");
    assert Others(n) == Others(w.fields);
    forall g | g in Others(w.fields) ensures Widens(w.fields[g], n[g]) {
      if g != f {
        WiderField(w, w, g);
      }
    }
  }

  lemma GrowsEnum(w: Value, d: nat) returns (n: Value)
    requires w.Obj? && Widens(w, w) && "enum" in w.fields
    ensures Widens(w, n) && !Within(n, d)
  {
    var items := w.fields["enum"].items;
    var e := Bounded(w.fields["enum"]);
    var big := if d < e then e else d;
    var x := Deep(big + 1);
    var more := items + [x];
    DeepOutside(big + 1, d);
    n := Obj(w.fields["enum" := Arr(more)]);
    forall i | 0 <= i < |items| ensures items[i] != x {
      WithinMore(items[i], e - 1, big);
      DeepOutside(big + 1, big);
    }
    DistinctMore(items, x);
    assert OptionalEnum(w.fields) == Ok(Some(Members(items)));
    assert OptionalEnum(n.fields) == Ok(Some(Members(more)));
    assert Others(n.fields) == Others(w.fields);
    assert Get(n.fields, "default") == Get(w.fields, "default");
    forall g | g in Others(w.fields) ensures Widens(w.fields[g], n.fields[g]) {
      WiderField(w, w, g);
    }
    if Within(n, d) {
      assert n.fields["enum"] == Arr(more);
      assert d > 0 && Within(Arr(more), d - 1);
      assert more[|items|] == x && d > 1 && Within(x, d - 2);
      WithinMore(x, d - 2, d);
    }
  }

  lemma DistinctMore(items: seq<Value>, x: Value)
    requires Distinct(items) && forall i :: 0 <= i < |items| ==> items[i] != x
    ensures Distinct(items + [x]) && Members(items) <= Members(items + [x])
  {
    var more := items + [x];
    forall y | y in Members(items) ensures y in Members(more) {
      var i :| 0 <= i < |items| && items[i] == y;
      assert more[i] == y;
    }
  }

  /** The check that refuses one keyword value only. */
  function Refuses(n: Value): Check {
    (f: string, s: Value, x: Value) => s != n
  }

  lemma {:induction false} RefusesNothing(schema: Value, v: Value, n: Value, d: nat)
    requires Accepts(ANY, schema, v) && Within(schema, d) && !Within(n, d)
    ensures Accepts(Refuses(n), schema, v)
    decreases v, schema
  {
    if schema.Obj? {
      forall f | f in schema.fields && f !in Structural(schema.fields) ensures schema.fields[f] != n {
        WithinMore(schema.fields[f], d - 1, d);
      }
      if v.Obj? {
        forall p | p in v.fields && At(schema.fields, p).Some? ensures Accepts(Refuses(n), At(schema.fields, p).value, v.fields[p]) {
          WithinMore(At(schema.fields, p).value, if Declared(schema.fields, p) then d - 2 else d - 1, d);
          RefusesNothing(At(schema.fields, p).value, v.fields[p], n, d);
        }
      }
      if "items" in schema.fields && v.Arr? {
        WithinMore(schema.fields["items"], d - 1, d);
        forall i | 0 <= i < |v.items| ensures Accepts(Refuses(n), schema.fields["items"], v.items[i]) {
          RefusesNothing(schema.fields["items"], v.items[i], n, d);
        }
      }
    }
  }

  /** Where an accepted value meets an enum under another keyword, an additive change can refuse it. */
  lemma {:induction false} Breaks(was: Value, v: Value, d: nat) returns (now: Value, n: Value)
    requires Widens(was, was) && Accepts(ANY, was, v) && !PositiveAt(was, v)
    ensures Widens(was, now) && !Within(n, d) && !Accepts(Refuses(n), now, v)
    decreases v, was
  {
    if !PlainKeywords(was.fields) {
      now, n := BreaksKeyword(was, v, d);
    } else if v.Obj? && exists p :: p in v.fields && At(was.fields, p).Some? && !Fixed(was.fields, p) && !PositiveAt(At(was.fields, p).value, v.fields[p]) {
      var p :| p in v.fields && At(was.fields, p).Some? && !Fixed(was.fields, p) && !PositiveAt(At(was.fields, p).value, v.fields[p]);
      WiderAt(was, was, p);
      var m;
      m, n := Breaks(At(was.fields, p).value, v.fields[p], d);
      now := ReplacedAt(was, p, m);
      assert !Accepts(Refuses(n), At(now.fields, p).value, v.fields[p]);
    } else {
      var i :| 0 <= i < |v.items| && !PositiveAt(was.fields["items"], v.items[i]);
      WiderField(was, was, "items");
      var m;
      m, n := Breaks(was.fields["items"], v.items[i], d);
      ReplacedWidens(was, "items", m);
      now := Obj(was.fields["items" := m]);
      assert now.fields["items"] == m;
    }
  }

  // Another keyword that holds an enum can grow.
  lemma BreaksKeyword(was: Value, v: Value, d: nat) returns (now: Value, n: Value)
    requires was.Obj? && Widens(was, was) && !PlainKeywords(was.fields)
    ensures Widens(was, now) && !Within(n, d) && !Accepts(Refuses(n), now, v)
  {
    var f :| f in was.fields && f !in Structural(was.fields) && !Plain(was.fields[f]);
    WiderField(was, was, f);
    n := Grows(was.fields[f], d);
    now := Obj(was.fields[f := n]);
    ReplacedWidens(was, f, n);
    assert Structural(now.fields) == Structural(was.fields);
    assert now.fields[f] == n && !Refuses(n)(f, n, v);
  }

  // The schema of one property can be replaced by a wider one.
  lemma ReplacedAt(was: Value, p: string, m: Value) returns (now: Value)
    requires was.Obj? && Widens(was, was) && At(was.fields, p).Some? && !Fixed(was.fields, p) && Widens(At(was.fields, p).value, m)
    ensures now.Obj? && Widens(was, now) && At(now.fields, p) == Some(m)
  {
    if Declared(was.fields, p) {
      var props := was.fields["properties"];
      WiderField(was, was, "properties");
      WiderDeclared(props, props, p);
      ReplacedWidens(props, p, m);
      var more := Obj(props.fields[p := m]);
      ReplacedWidens(was, "properties", more);
      now := Obj(was.fields["properties" := more]);
      assert now.fields["properties"] == more && more.fields[p] == m;
    } else {
      ReplacedWidens(was, "additionalProperties", m);
      now := Obj(was.fields["additionalProperties" := m]);
    }
  }

  // ----- calls

  /** The tool's schema without its parameters. No name is additional in a call. */
  function Rest(schema: Fields): Value {
    if "patternProperties" in schema then Remainder(schema) else Obj(Remainder(schema).fields - {"additionalProperties"})
  }

  /** A call that names only declared parameters, gives the required ones, and satisfies the schema of
      each parameter and the rest of the tool's schema. */
  predicate Callable(check: Check, schema: Fields, call: Fields) {
    && RequiredSet(schema).Ok? && RequiredSet(schema).value <= call.Keys
    && (Properties(schema).Obj? ==>
          && call.Keys <= Properties(schema).fields.Keys
          && forall p :: p in call && p in Properties(schema).fields ==> Accepts(check, Properties(schema).fields[p], call[p]))
    && Accepts(check, Rest(schema), Obj(call))
  }

  predicate CallPositive(schema: Fields, call: Fields) {
    && (Properties(schema).Obj? ==>
          forall p :: p in call && p in Properties(schema).fields ==> PositiveAt(Properties(schema).fields[p], call[p]))
    && PositiveAt(Rest(schema), Obj(call))
  }

  /** Some value is accepted: any without an enum, one of the members with one. */
  predicate Answerable(schema: Value) {
    && schema != Bool(false)
    && (schema.Obj? && HasEnum(schema.fields) ==>
          exists i :: 0 <= i < |schema.fields["enum"].items| && Accepts(ANY, schema, schema.fields["enum"].items[i]))
  }

  predicate CanBeCalled(schema: Fields) {
    RequiredSet(schema).Ok? && Properties(schema).Obj? &&
    forall r :: r in RequiredSet(schema).value ==> r in Properties(schema).fields && Answerable(Properties(schema).fields[r])
  }

  /** No other keyword that some call meets holds an enum: decided on the old schema alone. */
  predicate PositiveSchema(schema: Fields) {
    var rest := Rest(schema).fields;
    Properties(schema).Obj? ==>
      if HasEnum(rest) then
        forall i :: 0 <= i < |rest["enum"].items| && rest["enum"].items[i].Obj? && Callable(ANY, schema, rest["enum"].items[i].fields) ==>
          CallPositive(schema, rest["enum"].items[i].fields)
      else
        CanBeCalled(schema) ==>
          PlainKeywords(rest) && forall p :: p in Properties(schema).fields ==> Positive(Properties(schema).fields[p])
  }

  ghost predicate EveryCallPositive(schema: Fields) {
    forall call :: Callable(ANY, schema, call) ==> CallPositive(schema, call)
  }

  lemma Answer(schema: Value) returns (v: Value)
    requires Answerable(schema)
    ensures Accepts(ANY, schema, v)
  {
    if schema.Obj? && HasEnum(schema.fields) {
      var i :| 0 <= i < |schema.fields["enum"].items| && Accepts(ANY, schema, schema.fields["enum"].items[i]);
      v := schema.fields["enum"].items[i];
    } else {
      v := Null;
    }
  }

  lemma NoAnswer(schema: Value, v: Value)
    requires Accepts(ANY, schema, v)
    ensures Answerable(schema)
  {
    if schema.Obj? && HasEnum(schema.fields) {
      var items := schema.fields["enum"].items;
      var i :| 0 <= i < |items| && items[i] == v;
      assert Accepts(ANY, schema, items[i]);
    }
  }

  /** Required parameters with accepted values make a call, where the rest of the schema has no enum. */
  lemma {:induction false} SmallestCall(schema: Fields, names: set<string>) returns (call: Fields)
    requires CanBeCalled(schema) && names <= RequiredSet(schema).value
    ensures call.Keys == names && forall p :: p in call ==> p in Properties(schema).fields && Accepts(ANY, Properties(schema).fields[p], call[p])
    decreases |names|
  {
    if names == {} {
      call := map[];
    } else {
      var r :| r in names;
      var others := SmallestCall(schema, names - {r});
      var v := Answer(Properties(schema).fields[r]);
      call := others[r := v];
    }
  }

  lemma RestFields(schema: Fields)
    ensures Rest(schema).Obj? && !HasProperties(Rest(schema).fields) && !HasAdditional(Rest(schema).fields)
    ensures forall p :: At(Rest(schema).fields, p).None?
  {
  }

  lemma RestWidens(was: Fields, now: Fields)
    requires Widens(Remainder(was), Remainder(now))
    ensures Widens(Rest(was), Rest(now))
  {
    var a, b := Remainder(was), Remainder(now);
    WiderField(a, b, "patternProperties");
    var c, d := Rest(was), Rest(now);
    assert OptionalEnum(c.fields) == OptionalEnum(a.fields) && OptionalEnum(d.fields) == OptionalEnum(b.fields);
    assert Get(c.fields, "default") == Get(a.fields, "default") && Get(d.fields, "default") == Get(b.fields, "default");
    assert "patternProperties" in was <==> "patternProperties" in a.fields;
    assert "patternProperties" in now <==> "patternProperties" in b.fields;
    var gone := if "patternProperties" in was then {} else {"additionalProperties"};
    assert Others(c.fields) == Others(a.fields) - gone && Others(d.fields) == Others(b.fields) - gone;
  }

  lemma CallOfAll(schema: Fields, call: Fields)
    requires RequiredSet(schema).Ok? && RequiredSet(schema).value <= call.Keys && !HasEnum(Rest(schema).fields)
    requires Properties(schema).Obj?
    requires forall p :: p in call ==> p in Properties(schema).fields && Accepts(ANY, Properties(schema).fields[p], call[p])
    ensures Callable(ANY, schema, call)
    ensures CallPositive(schema, call) ==> PlainKeywords(Rest(schema).fields)
  {
    RestFields(schema);
  }

  /** The condition on the schema says exactly that of every call it takes. */
  lemma CallsPositiveExactly(schema: Fields)
    requires Properties(schema).Obj?
    ensures PositiveSchema(schema) <==> EveryCallPositive(schema)
  {
    RestFields(schema);
    if HasEnum(Rest(schema).fields) {
      CallsOfEnum(schema);
    } else if CanBeCalled(schema) {
      if EveryCallPositive(schema) {
        AllPositive(schema);
      }
      if PositiveSchema(schema) {
        forall call | Callable(ANY, schema, call) ensures CallPositive(schema, call) {
          ParametersPositive(schema, call);
        }
      }
    } else {
      forall call | Callable(ANY, schema, call) ensures CanBeCalled(schema) {
        forall r | r in RequiredSet(schema).value ensures r in Properties(schema).fields && Answerable(Properties(schema).fields[r]) {
          NoAnswer(Properties(schema).fields[r], call[r]);
        }
      }
    }
  }

  lemma CallsOfEnum(schema: Fields)
    requires Properties(schema).Obj? && HasEnum(Rest(schema).fields)
    ensures PositiveSchema(schema) <==> EveryCallPositive(schema)
  {
    var items := Rest(schema).fields["enum"].items;
    if PositiveSchema(schema) {
      forall call | Callable(ANY, schema, call) ensures CallPositive(schema, call) {
        assert Obj(call) in items;
        var i :| 0 <= i < |items| && items[i] == Obj(call);
        assert items[i].fields == call;
      }
    }
  }

  lemma ParametersPositive(schema: Fields, call: Fields)
    requires Properties(schema).Obj? && !HasEnum(Rest(schema).fields) && PlainKeywords(Rest(schema).fields)
    requires forall p :: p in Properties(schema).fields ==> Positive(Properties(schema).fields[p])
    requires Callable(ANY, schema, call)
    ensures CallPositive(schema, call)
  {
    RestFields(schema);
    forall p | p in call && p in Properties(schema).fields ensures PositiveAt(Properties(schema).fields[p], call[p]) {
      PositiveExactly(Properties(schema).fields[p]);
      assert Accepts(ANY, Properties(schema).fields[p], call[p]);
    }
  }

  lemma AllPositive(schema: Fields)
    requires CanBeCalled(schema) && !HasEnum(Rest(schema).fields) && EveryCallPositive(schema)
    ensures PlainKeywords(Rest(schema).fields) && forall p :: p in Properties(schema).fields ==> Positive(Properties(schema).fields[p])
  {
    var base := SmallestCall(schema, RequiredSet(schema).value);
    CallOfAll(schema, base);
    forall p | p in Properties(schema).fields ensures Positive(Properties(schema).fields[p]) {
      forall y | Accepts(ANY, Properties(schema).fields[p], y) ensures PositiveAt(Properties(schema).fields[p], y) {
        var call := base[p := y];
        CallOfAll(schema, call);
        assert CallPositive(schema, call) && p in call && call[p] == y;
      }
      PositiveExactly(Properties(schema).fields[p]);
    }
  }

  // ----- the promise

  /** The comparison succeeds and finds nothing worse than additive. */
  ghost predicate AdditiveStep(pointer: string, was: Fields, now: Fields) {
    SchemaChanges(pointer, was, now).Ok? && Additive(SchemaChanges(pointer, was, now).value)
  }

  /** Whatever additive change is made and whatever the other keywords mean, every call taken before is
      taken after. */
  ghost predicate PromiseKept(pointer: string, was: Fields) {
    forall now: Fields, check: Check, call: Fields :: AdditiveStep(pointer, was, now) && Callable(check, was, call) ==> Callable(check, now, call)
  }

  lemma {:induction false} WidensSelf(was: Value, now: Value)
    requires Widens(was, now)
    ensures Widens(was, was)
    decreases was
  {
    if was.Obj? && now.Obj? {
      forall f | f in Others(was.fields) ensures Widens(was.fields[f], was.fields[f]) {
        WiderField(was, now, f);
        WidensSelf(was.fields[f], now.fields[f]);
      }
    }
  }

  lemma {:induction false} WidensOk(pointer: string, was: Value, now: Value)
    requires Widens(was, now)
    ensures ValueChanges(pointer, was, now).Ok?
    decreases was
  {
    if was.Obj? && now.Obj? {
      var which := Others(was.fields) + Others(now.fields);
      forall f | f in which ensures OneField(pointer, was, now.fields, f).Ok? {
        WiderField(was, now, f);
        WidensOk(Under(pointer, f), was.fields[f], now.fields[f]);
      }
      AllFieldsOk(pointer, was, now.fields, which);
    }
  }

  lemma AllFieldsOk(pointer: string, was: Value, now: Fields, which: set<string>)
    requires was.Obj? && forall f :: f in which ==> OneField(pointer, was, now, f).Ok?
    ensures FieldChanges(pointer, was, now, which).Ok?
  {
    var outcomes := map f | f in which :: OneField(pointer, was, now, f);
    assert forall f :: f in outcomes ==> outcomes[f].Ok?;
  }

  /** A widening of parameters and of the rest is an additive step. */
  lemma WideningIsAdditive(pointer: string, was: Fields, now: Fields)
    requires SchemaWidens(was, now) && Properties(was).Obj? && Properties(now).Obj?
    ensures AdditiveStep(pointer, was, now)
  {
    var a, b := Properties(was), Properties(now);
    var which := a.fields.Keys * b.fields.Keys;
    forall p | p in which ensures OneField(pointer + "/properties", a, b.fields, p).Ok? {
      WidensOk(Under(pointer + "/properties", p), a.fields[p], b.fields[p]);
    }
    AllFieldsOk(pointer + "/properties", a, b.fields, which);
    WidensOk(pointer, Remainder(was), Remainder(now));
    SchemaClass(pointer, was, now);
  }

  /** The old schema can be compared at all: its enums and its required names are well formed. */
  ghost predicate Comparable(was: Fields) {
    SchemaWidens(was, was)
  }

  lemma StepIsComparable(pointer: string, was: Fields, now: Fields)
    requires AdditiveStep(pointer, was, now)
    ensures Comparable(was) && SchemaWidens(was, now)
  {
    SchemaClass(pointer, was, now);
    var a, b := Properties(was), Properties(now);
    if a.Obj? && b.Obj? {
      forall p | p in a.fields ensures Widens(a.fields[p], a.fields[p]) {
        WidensSelf(a.fields[p], b.fields[p]);
      }
      WidensSelf(Remainder(was), Remainder(now));
    }
  }

  /** A tool classified additive or lower still takes a call that meets no enum under another keyword. */
  lemma CallKept(check: Check, was: Fields, now: Fields, call: Fields)
    requires SchemaWidens(was, now) && Callable(check, was, call) && (Properties(was).Obj? ==> CallPositive(was, call))
    ensures Callable(check, now, call)
  {
    var a, b := Properties(was), Properties(now);
    if a.Obj? && b.Obj? {
      forall p | p in call && p in b.fields ensures Accepts(check, b.fields[p], call[p]) {
        WiderAccepts(check, a.fields[p], b.fields[p], call[p]);
      }
      RestWidens(was, now);
      WiderAccepts(check, Rest(was), Rest(now), Obj(call));
    }
  }

  lemma CallableAny(check: Check, was: Fields, call: Fields)
    requires Callable(check, was, call)
    ensures Callable(ANY, was, call)
  {
    AcceptsAny(check, Rest(was), Obj(call));
    if Properties(was).Obj? {
      forall p | p in call && p in Properties(was).fields ensures Accepts(ANY, Properties(was).fields[p], call[p]) {
        AcceptsAny(check, Properties(was).fields[p], call[p]);
      }
    }
  }

  /** A tool classified additive or lower still takes every call it took. */
  lemma CallersKeepWorking(check: Check, pointer: string, was: Fields, now: Fields, call: Fields)
    requires AdditiveStep(pointer, was, now) && PositiveSchema(was) && Callable(check, was, call)
    ensures Callable(check, now, call)
  {
    StepIsComparable(pointer, was, now);
    CallableAny(check, was, call);
    if Properties(was).Obj? {
      CallsPositiveExactly(was);
    }
    CallKept(check, was, now, call);
  }

  lemma RefusesNoCall(schema: Fields, call: Fields, n: Value, d: nat)
    requires Callable(ANY, schema, call) && Within(Obj(schema), d) && !Within(n, d)
    ensures Callable(Refuses(n), schema, call)
  {
    hide Within;
    hide Accepts;
    WithinParts(schema, d);
    RefusesNothing(Rest(schema), Obj(call), n, d);
    if Properties(schema).Obj? {
      forall p | p in call && p in Properties(schema).fields ensures Accepts(Refuses(n), Properties(schema).fields[p], call[p]) {
        RefusesNothing(Properties(schema).fields[p], call[p], n, d);
      }
    }
  }

  lemma WithinParts(schema: Fields, d: nat)
    requires Within(Obj(schema), d)
    ensures Within(Rest(schema), d)
    ensures Properties(schema).Obj? ==> forall p :: p in Properties(schema).fields ==> Within(Properties(schema).fields[p], d)
  {
    if Properties(schema).Obj? && "properties" in schema {
      forall p | p in Properties(schema).fields ensures Within(Properties(schema).fields[p], d) {
        WithinMore(Properties(schema).fields[p], d - 2, d);
      }
    }
  }

  // A parameter that meets such an enum can be widened so that the call is refused.
  lemma BreaksParameter(pointer: string, was: Fields, call: Fields, p: string, d: nat) returns (now: Fields, n: Value)
    requires Comparable(was) && Properties(was).Obj? && Callable(ANY, was, call) && Within(Obj(was), d)
    requires p in call && p in Properties(was).fields && !PositiveAt(Properties(was).fields[p], call[p])
    ensures AdditiveStep(pointer, was, now) && !Within(n, d) && !Callable(Refuses(n), now, call)
  {
    hide AdditiveStep;
    hide Within;
    hide PositiveAt;
    var m;
    m, n := Breaks(Properties(was).fields[p], call[p], d);
    now := was["properties" := Obj(Properties(was).fields[p := m])];
    ReplacedParameter(was, now, p, m);
    WideningIsAdditive(pointer, was, now);
  }

  lemma ReplacedParameter(was: Fields, now: Fields, p: string, m: Value)
    requires Comparable(was) && Properties(was).Obj? && p in Properties(was).fields && Widens(Properties(was).fields[p], m)
    requires now == was["properties" := Obj(Properties(was).fields[p := m])]
    ensures SchemaWidens(was, now) && Properties(now) == Obj(Properties(was).fields[p := m])
  {
    hide Widens;
    assert "properties" in was;
    assert Remainder(now) == Remainder(was);
    assert RequiredSet(now) == RequiredSet(was);
  }

  // So can the rest of the schema.
  lemma BreaksRest(pointer: string, was: Fields, call: Fields, d: nat) returns (now: Fields, n: Value)
    requires Comparable(was) && Properties(was).Obj? && Callable(ANY, was, call) && Within(Obj(was), d)
    requires !PositiveAt(Rest(was), Obj(call))
    ensures AdditiveStep(pointer, was, now) && !Within(n, d) && !Callable(Refuses(n), now, call)
  {
    hide AdditiveStep;
    hide Within;
    RestFields(was);
    var rest := Rest(was);
    var f := RestBreaks(rest, call);
    WiderField(Remainder(was), Remainder(was), f);
    n := Grows(rest.fields[f], d);
    ReplacedWidens(Remainder(was), f, n);
    now := was[f := n];
    ReplacedRest(was, now, f, n);
    WideningIsAdditive(pointer, was, now);
    RefusedRest(now, call, f, n);
  }

  lemma RestBreaks(rest: Value, call: Fields) returns (f: string)
    requires rest.Obj? && (forall p :: At(rest.fields, p).None?) && !PositiveAt(rest, Obj(call))
    ensures f in rest.fields && f !in Structural(rest.fields) && !Plain(rest.fields[f])
  {
    f :| f in rest.fields && f !in Structural(rest.fields) && !Plain(rest.fields[f]);
  }

  lemma ReplacedRest(was: Fields, now: Fields, f: string, n: Value)
    requires Comparable(was) && Properties(was).Obj? && f in Rest(was).fields && now == was[f := n]
    requires Widens(Remainder(was), Obj(Remainder(was).fields[f := n]))
    ensures SchemaWidens(was, now) && Properties(now) == Properties(was) && Rest(now) == Obj(Rest(was).fields[f := n])
  {
    hide Widens;
    assert Remainder(now) == Obj(Remainder(was).fields[f := n]) && Rest(now) == Obj(Rest(was).fields[f := n]);
    assert Properties(now) == Properties(was) && RequiredSet(now) == RequiredSet(was);
  }

  lemma RefusedRest(now: Fields, call: Fields, f: string, n: Value)
    requires f in Rest(now).fields && f !in Structural(Rest(now).fields) && Rest(now).fields[f] == n
    ensures !Callable(Refuses(n), now, call)
  {
    assert !Refuses(n)(f, n, Obj(call));
  }

  /** The promise holds for exactly the schemas that put no enum where a call meets it under another
      keyword. A schema that cannot be compared has no additive changes. */
  lemma PromiseExactly(pointer: string, was: Fields)
    ensures PromiseKept(pointer, was) <==> (Comparable(was) ==> PositiveSchema(was))
  {
    if PositiveSchema(was) {
      forall now: Fields, check: Check, call: Fields | AdditiveStep(pointer, was, now) && Callable(check, was, call)
        ensures Callable(check, now, call)
      {
        CallersKeepWorking(check, pointer, was, now, call);
      }
    } else if Comparable(was) {
      CallsPositiveExactly(was);
      var call :| Callable(ANY, was, call) && !CallPositive(was, call);
      PromiseBroken(pointer, was, call);
    } else {
      forall now: Fields | AdditiveStep(pointer, was, now) ensures false {
        StepIsComparable(pointer, was, now);
      }
    }
  }

  lemma PromiseBroken(pointer: string, was: Fields, call: Fields)
    requires Comparable(was) && Properties(was).Obj? && Callable(ANY, was, call) && !CallPositive(was, call)
    ensures !PromiseKept(pointer, was)
  {
    var d := Bounded(Obj(was));
    var now, n;
    if p :| p in call && p in Properties(was).fields && !PositiveAt(Properties(was).fields[p], call[p]) {
      now, n := BreaksParameter(pointer, was, call, p, d);
    } else {
      now, n := BreaksRest(pointer, was, call, d);
    }
    RefusesNoCall(was, call, n, d);
    assert AdditiveStep(pointer, was, now) && Callable(Refuses(n), was, call) && !Callable(Refuses(n), now, call);
  }

  // ----- a schema for which it fails

  // Negation of schemas that hold an enum only.
  const NEGATION: Check := (f: string, s: Value, x: Value) => f == "not" && s.Obj? && HasEnum(s.fields) && x !in s.fields["enum"].items

  /** An enum under a negation grows: the change is classified additive and takes a call away. */
  lemma NegatedEnum()
    returns (check: Check, was: Fields, now: Fields, call: Fields)
    ensures AdditiveStep("", was, now) && !PositiveSchema(was)
    ensures Callable(check, was, call) && !Callable(check, now, call)
  {
    hide AdditiveStep;
    hide PositiveSchema;
    hide Plain;
    hide Callable;
    hide Accepts;
    hide Widens;
    var one, two := Num("1"), Num("2");
    var wasX, nowX := Negated([one]), Negated([one, two]);
    was := map["properties" := Obj(map["x" := wasX])];
    now := map["properties" := Obj(map["x" := nowX])];
    call := map["x" := two];
    check := NEGATION;
    NegatedWidens(one, two, wasX, nowX);
    NegatedStep(was, now, wasX, nowX);
    NegatedAccepts([one], two);
    NegatedAccepts([one, two], two);
    NegatedCall(check, was, call, wasX);
    NegatedCall(check, now, call, nowX);
    if PositiveSchema(was) {
      CallersKeepWorking(check, "", was, now, call);
    }
  }

  function Negated(items: seq<Value>): Value {
    Obj(map["not" := Obj(map["enum" := Arr(items)])])
  }

  lemma NegatedAccepts(items: seq<Value>, x: Value)
    ensures Accepts(NEGATION, Negated(items), x) <==> x !in items
  {
    var fields := Negated(items).fields;
    assert fields["not"].fields["enum"] == Arr(items);
    assert Accepts(NEGATION, Negated(items), x) <==> NEGATION("not", fields["not"], x);
  }

  lemma GrownEnum(one: Value, two: Value, a: Value, b: Value)
    requires one != two && a == Obj(map["enum" := Arr([one])]) && b == Obj(map["enum" := Arr([one, two])])
    ensures Widens(a, b)
  {
    assert a.fields["enum"].items == [one] && b.fields["enum"].items == [one, two];
    assert Distinct([one]) && Distinct([one, two]);
    assert [one][0] == one && [one, two][0] == one;
    assert Members([one]) <= Members([one, two]);
    assert Others(a.fields) == {} == Others(b.fields);
  }

  lemma NegatedWidens(one: Value, two: Value, was: Value, now: Value)
    requires one != two && was == Negated([one]) && now == Negated([one, two])
    ensures Widens(was, now)
  {
    var a, b := was.fields["not"], now.fields["not"];
    GrownEnum(one, two, a, b);
    assert Others(was.fields) == {"not"} == Others(now.fields);
  }

  lemma NegatedStep(was: Fields, now: Fields, wasX: Value, nowX: Value)
    requires Widens(wasX, nowX) && was == map["properties" := Obj(map["x" := wasX])] && now == map["properties" := Obj(map["x" := nowX])]
    ensures AdditiveStep("", was, now)
  {
    assert Remainder(was) == Obj(map[]) == Remainder(now);
    assert Others(map[]) == {};
    assert Widens(Obj(map[]), Obj(map[]));
    WideningIsAdditive("", was, now);
  }

  // The call is accepted exactly when its one parameter is.
  lemma NegatedCall(check: Check, schema: Fields, call: Fields, x: Value)
    requires schema == map["properties" := Obj(map["x" := x])] && call.Keys == {"x"}
    ensures Callable(check, schema, call) <==> Accepts(check, x, call["x"])
  {
    assert Rest(schema) == Obj(map[]);
  }
}
