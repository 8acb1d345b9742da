/** The merge as the workspace runs it: recursion over copies, loops over child lists, and one list of
    conflicts that every call appends to. */
module Mergers {
  import opened Prelude
  import opened Trees
  import opened Merge

  function Look<K, V>(m: map<K, V>, k: K): Option<V> {
    if k in m then Some(m[k]) else None
  }

  function LookSeq<K, V>(m: map<K, seq<V>>, k: K): seq<V> {
    if k in m then m[k] else []
  }

  // The dictionaries a list merge works from.
  datatype Tables = Tables(
    baseMap: map<NodeId, Tree>, ourMap: map<NodeId, Tree>, theirMap: map<NodeId, Tree>,
    ourAdditions: map<Option<NodeId>, seq<Tree>>, theirAdditions: map<Option<NodeId>, seq<Tree>>)
  {
    ghost predicate Index(bs: seq<Tree>, os: seq<Tree>, ts: seq<Tree>) {
      && (forall id :: Look(baseMap, id) == Find(bs, id))
      && (forall id :: Look(ourMap, id) == Find(os, id))
      && (forall id :: Look(theirMap, id) == Find(ts, id))
      && (forall a :: LookSeq(ourAdditions, a) == Slot(os, Names(bs), a))
      && (forall a :: LookSeq(theirAdditions, a) == Slot(ts, Names(bs), a))
    }
  }

  method BuildTables(bs: seq<Tree>, os: seq<Tree>, ts: seq<Tree>) returns (tables: Tables)
    ensures tables.Index(bs, os, ts)
  {
    var baseMap := ById(bs);
    var ourMap := ById(os);
    var theirMap := ById(ts);
    var ourAdditions := AdditionSlots(os, Names(bs));
    var theirAdditions := AdditionSlots(ts, Names(bs));
    tables := Tables(baseMap, ourMap, theirMap, ourAdditions, theirAdditions);
  }

  class Merger {
    var conflicts: seq<string>

    constructor ()
      ensures conflicts == []
    {
      conflicts := [];
    }

    method MergeNode(b: Option<Tree>, o: Option<Tree>, t: Option<Tree>, path: string) returns (r: Option<Tree>)
      modifies this
      ensures r == Merge.MergeNode(b, o, t, path).node
      ensures conflicts == old(conflicts) + Merge.MergeNode(b, o, t, path).conflicts
      decreases Rank(b), 1, 0
    {
      if o == b {
        return t;
      }
      if t == b || o == t {
        return o;
      }
      if b.None? {
        conflicts := conflicts + [path];
        return o;
      }
      if o.None? || t.None? {
        conflicts := conflicts + [path];
        return if o.Some? then o else t;
      }
      var base, ours, theirs := b.value, o.value, t.value;
      if ours.id != base.id || theirs.id != base.id {
        conflicts := conflicts + [path];
        return o;
      }
      if KindOf(ours) != KindOf(base) || KindOf(theirs) != KindOf(base) {
        conflicts := conflicts + [path + ":" + base.id + ":kind"];
        return o;
      }
      if base.Leaf? {
        conflicts := conflicts + [path + ":" + base.id + ":value"];
        return o;
      }
      var kids := MergeChildren(base, ours, theirs, path);
      return Some(List(base.id, kids));
    }

    method MergeChildren(base: Tree, ours: Tree, theirs: Tree, path: string) returns (result: seq<Tree>)
      requires base.List? && ours.List? && theirs.List?
      modifies this
      ensures result == Merge.MergeChildren(base, ours, theirs, path).nodes
      ensures conflicts == old(conflicts) + Merge.MergeChildren(base, ours, theirs, path).conflicts
      decreases base, 0, 0
    {
      var bs, os, ts := base.children, ours.children, theirs.children;
      ghost var spec := MergeFrom(bs, os, ts, path, 0);
      ghost var reorders := Reorder(bs, os, path, base.id) + Reorder(bs, ts, path, base.id);
      SpecChildren(base, ours, theirs, path);
      hide *;
      CheckBaseOrder(bs, os, path, base.id);
      CheckBaseOrder(bs, ts, path, base.id);
      var tables := BuildTables(bs, os, ts);
      result := MergeOpening(bs, os, ts, tables);
      ghost var opening, checked := result, conflicts;
      Regroup(checked, old(conflicts), Reorder(bs, os, path, base.id), Reorder(bs, ts, path, base.id));
      for k := 0 to |bs|
        invariant opening + spec.nodes == result + MergeFrom(bs, os, ts, path, k).nodes
        invariant checked + spec.conflicts == conflicts + MergeFrom(bs, os, ts, path, k).conflicts
      {
        ghost var before, said := result, conflicts;
        var part := MergeBaseChild(bs, os, ts, path, k, tables);
        result := result + part;
        SpecStep(bs, os, ts, path, k);
        ghost var rest := MergeFrom(bs, os, ts, path, k + 1);
        Regroup(opening + spec.nodes, before, part, rest.nodes);
        Regroup(checked + spec.conflicts, said, MergeChild(bs, os, ts, path, k).conflicts, rest.conflicts);
      }
      SpecEnd(bs, os, ts, path);
      Regroup(old(conflicts) + (reorders + spec.conflicts), old(conflicts), reorders, spec.conflicts);
    }

    // The additions in front of every base child.
    method MergeOpening(bs: seq<Tree>, os: seq<Tree>, ts: seq<Tree>, tables: Tables) returns (result: seq<Tree>)
      requires tables.Index(bs, os, ts)
      ensures result == MergeSlot(os, ts, Names(bs), None)
    {
      result := MergeAdditions(LookSeq(tables.ourAdditions, None), LookSeq(tables.theirAdditions, None));
    }

    // One turn of the loop: the merge of base child k, then the additions behind it.
    method MergeBaseChild(bs: seq<Tree>, os: seq<Tree>, ts: seq<Tree>, path: string, k: nat, tables: Tables)
      returns (part: seq<Tree>)
      requires k < |bs| && tables.Index(bs, os, ts)
      modifies this
      ensures part == OptSeq(MergeChild(bs, os, ts, path, k).node) + MergeSlot(os, ts, Names(bs), Some(bs[k].id))
      ensures conflicts == old(conflicts) + MergeChild(bs, os, ts, path, k).conflicts
      decreases bs, 0, 0
    {
      hide Merge.MergeNode;
      var id := bs[k].id;
      var merged := MergeNode(Look(tables.baseMap, id), Look(tables.ourMap, id), Look(tables.theirMap, id), path + "/" + id);
      part := if merged.Some? then [merged.value] else [];
      var added := MergeAdditions(LookSeq(tables.ourAdditions, Some(id)), LookSeq(tables.theirAdditions, Some(id)));
      part := part + added;
    }

    method CheckBaseOrder(bs: seq<Tree>, cs: seq<Tree>, path: string, id: NodeId)
      modifies this
      ensures conflicts == old(conflicts) + Reorder(bs, cs, path, id)
    {
      var actual := KeepIds(cs, Names(bs));
      var expected := KeepIds(bs, Names(cs));
      if actual != expected {
        conflicts := conflicts + [path + ":" + id + ":reorder"];
      }
    }
  }

  // The specification, one loop step at a time.
  lemma SpecChildren(b: Tree, o: Tree, t: Tree, path: string)
    requires b.List? && o.List? && t.List?
    ensures Merge.MergeChildren(b, o, t, path) == MergedKids(
      MergeSlot(o.children, t.children, Names(b.children), None) + MergeFrom(b.children, o.children, t.children, path, 0).nodes,
      Reorder(b.children, o.children, path, b.id) + Reorder(b.children, t.children, path, b.id)
      + MergeFrom(b.children, o.children, t.children, path, 0).conflicts)
  {
    hide MergeFrom;
    hide MergeSlot;
    hide Reorder;
  }

  lemma SpecStep(bs: seq<Tree>, os: seq<Tree>, ts: seq<Tree>, path: string, k: nat)
    requires k < |bs|
    ensures var m, rest := MergeChild(bs, os, ts, path, k), MergeFrom(bs, os, ts, path, k + 1);
      MergeFrom(bs, os, ts, path, k) ==
        MergedKids(OptSeq(m.node) + MergeSlot(os, ts, Names(bs), Some(bs[k].id)) + rest.nodes, m.conflicts + rest.conflicts)
  {
    hide MergeChild;
    hide MergeSlot;
  }

  lemma Regroup<T>(whole: seq<T>, a: seq<T>, b: seq<T>, c: seq<T>)
    ensures whole == a + (b + c) <==> whole == a + b + c
  {
    assert a + (b + c) == a + b + c;
  }

  lemma SpecEnd(bs: seq<Tree>, os: seq<Tree>, ts: seq<Tree>, path: string)
    ensures MergeFrom(bs, os, ts, path, |bs|) == MergedKids([], [])
  {
  }

  method KeepIds(cs: seq<Tree>, wanted: set<NodeId>) returns (r: seq<NodeId>)
    ensures r == Keep(Ids(cs), wanted)
  {
    r := [];
    for i := 0 to |cs|
      invariant r == Keep(Ids(cs[..i]), wanted)
    {
      assert Ids(cs[..i + 1]) == Ids(cs[..i]) + [cs[i].id];
      if cs[i].id in wanted {
        r := r + [cs[i].id];
      }
    }
    assert cs[..|cs|] == cs;
  }

  method ById(cs: seq<Tree>) returns (m: map<NodeId, Tree>)
    ensures forall id :: Look(m, id) == Find(cs, id)
  {
    m := map[];
    for i := 0 to |cs|
      invariant forall id :: Look(m, id) == Find(cs[..i], id)
    {
      assert cs[..i + 1][..i] == cs[..i];
      m := m[cs[i].id := cs[i]];
    }
    assert cs[..|cs|] == cs;
  }

  method AdditionSlots(cs: seq<Tree>, base: set<NodeId>) returns (slots: map<Option<NodeId>, seq<Tree>>)
    ensures forall a :: LookSeq(slots, a) == Slot(cs, base, a)
  {
    slots := map[];
    var anchor: Option<NodeId> := None;
    for i := 0 to |cs|
      invariant anchor == Anchor(cs[..i], base)
      invariant forall a :: LookSeq(slots, a) == Slot(cs[..i], base, a)
    {
      assert cs[..i + 1][..i] == cs[..i];
      if cs[i].id in base {
        anchor := Some(cs[i].id);
      } else {
        slots := slots[anchor := LookSeq(slots, anchor) + [cs[i]]];
      }
    }
    assert cs[..|cs|] == cs;
  }

  method MergeAdditions(os: seq<Tree>, ts: seq<Tree>) returns (result: seq<Tree>)
    ensures result == Dedup(os + ts)
  {
    var all := os + ts;
    var seen: set<NodeId> := {};
    result := [];
    for i := 0 to |all|
      invariant seen == Names(all[..i])
      invariant result == Dedup(all[..i])
    {
      assert all[..i + 1][..i] == all[..i];
      NamesSnoc(all, i);
      if all[i].id !in seen {
        seen := seen + {all[i].id};
        result := result + [all[i]];
      }
    }
    assert all[..|all|] == all;
  }

  lemma NamesSnoc(cs: seq<Tree>, i: nat)
    requires i < |cs|
    ensures Names(cs[..i + 1]) == Names(cs[..i]) + {cs[i].id}
  {
    var s := cs[..i + 1];
    forall x | x in Names(cs[..i]) + {cs[i].id} ensures x in Names(s) {
      if x == cs[i].id {
        assert s[i].id == x;
      } else {
        var j :| 0 <= j < i && cs[..i][j].id == x;
        assert s[j].id == x;
      }
    }
  }

  // The outcome of merging every document of a revision.
  datatype MergedState = MergedState(documents: map<string, Tree>, changed: set<string>)

  function DocumentMerge(base: map<string, Tree>, ours: map<string, Tree>, theirs: map<string, Tree>, name: string): Merged {
    Merge.MergeNode(Look(base, name), Look(ours, name), Look(theirs, name), "document:" + name)
  }

  function AllConflicts(base: map<string, Tree>, ours: map<string, Tree>, theirs: map<string, Tree>, names: seq<string>): seq<string> {
    if names == [] then []
    else AllConflicts(base, ours, theirs, names[..|names| - 1]) + DocumentMerge(base, ours, theirs, names[|names| - 1]).conflicts
  }

  /** The state holds document `n` as its own merge left it, and knows whether ours changed. */
  ghost predicate Settled(s: MergedState, base: map<string, Tree>, ours: map<string, Tree>, theirs: map<string, Tree>, n: string) {
    && Look(s.documents, n) == DocumentMerge(base, ours, theirs, n).node
    && (n in s.changed <==> DocumentMerge(base, ours, theirs, n).node != Look(ours, n))
  }

  /** `names` lists the documents of the three states in the order the merge visits them. The merge
      fails with every document's conflicts, or it is the merge of every document. */
  method MergeStates(base: map<string, Tree>, ours: map<string, Tree>, theirs: map<string, Tree>, names: seq<string>)
    returns (r: Result<MergedState, seq<string>>)
    requires forall i, j :: 0 <= i < j < |names| ==> names[i] != names[j]
    requires forall n :: n in names <==> n in base || n in ours || n in theirs
    ensures r.Err? <==> AllConflicts(base, ours, theirs, names) != []
    ensures r.Err? ==> r.error == AllConflicts(base, ours, theirs, names)
    ensures r.Ok? ==> forall n :: Settled(r.value, base, ours, theirs, n)
    ensures r.Ok? ==> forall n :: DocumentMerge(base, ours, theirs, n).conflicts == []
  {
    hide Merge.MergeNode;
    hide DocumentMerge;
    hide AllConflicts;
    hide Settled;
    NoneSettled(base, ours, theirs, names);
    var merger := new Merger();
    var state := MergedState(map[], {});
    for i := 0 to |names|
      invariant merger.conflicts == AllConflicts(base, ours, theirs, names[..i])
      invariant forall n :: n in names[..i] ==> Settled(state, base, ours, theirs, n)
      invariant forall n :: n !in names[..i] ==> n !in state.documents && n !in state.changed
    {
      var name := names[i];
      ConflictsSnoc(base, ours, theirs, names, i);
      var value := merger.MergeNode(Look(base, name), Look(ours, name), Look(theirs, name), "document:" + name);
      ghost var before := state;
      if value.Some? {
        state := state.(documents := state.documents[name := value.value]);
      }
      if value != Look(ours, name) {
        state := state.(changed := state.changed + {name});
      }
      SettledStep(before, state, base, ours, theirs, names, i);
    }
    assert names[..|names|] == names;
    if merger.conflicts != [] {
      return Err(merger.conflicts);
    }
    AllSettled(state, base, ours, theirs, names);
    return Ok(state);
  }

  lemma NoneSettled(base: map<string, Tree>, ours: map<string, Tree>, theirs: map<string, Tree>, names: seq<string>)
    ensures AllConflicts(base, ours, theirs, names[..0]) == []
  {
  }

  lemma ConflictsSnoc(base: map<string, Tree>, ours: map<string, Tree>, theirs: map<string, Tree>, names: seq<string>, i: nat)
    requires i < |names|
    ensures AllConflicts(base, ours, theirs, names[..i + 1]) ==
      AllConflicts(base, ours, theirs, names[..i]) + DocumentMerge(base, ours, theirs, names[i]).conflicts
    ensures DocumentMerge(base, ours, theirs, names[i]) ==
      Merge.MergeNode(Look(base, names[i]), Look(ours, names[i]), Look(theirs, names[i]), "document:" + names[i])
  {
    hide Merge.MergeNode;
    assert names[..i + 1][..i] == names[..i];
  }

  // One more document is settled, and the earlier ones stay so.
  lemma SettledStep(s: MergedState, t: MergedState, base: map<string, Tree>, ours: map<string, Tree>, theirs: map<string, Tree>,
                    names: seq<string>, i: nat)
    requires i < |names| && forall j :: 0 <= j < i ==> names[j] != names[i]
    requires forall n :: n in names[..i] ==> Settled(s, base, ours, theirs, n)
    requires forall n :: n !in names[..i] ==> n !in s.documents && n !in s.changed
    requires var value := DocumentMerge(base, ours, theirs, names[i]).node;
      && t.documents == (if value.Some? then s.documents[names[i] := value.value] else s.documents)
      && t.changed == (if value != Look(ours, names[i]) then s.changed + {names[i]} else s.changed)
    ensures forall n :: n in names[..i + 1] ==> Settled(t, base, ours, theirs, n)
    ensures forall n :: n !in names[..i + 1] ==> n !in t.documents && n !in t.changed
  {
    hide DocumentMerge;
    var name := names[i];
    assert names[..i + 1] == names[..i] + [name];
    forall n | n in names[..i + 1] ensures Settled(t, base, ours, theirs, n) {
      if n in names[..i] {
        assert Settled(s, base, ours, theirs, n) && n != name;
      }
    }
  }

  lemma AllSettled(state: MergedState, base: map<string, Tree>, ours: map<string, Tree>, theirs: map<string, Tree>, names: seq<string>)
    requires forall n :: n in names <==> n in base || n in ours || n in theirs
    requires AllConflicts(base, ours, theirs, names) == []
    requires forall n :: n in names ==> Settled(state, base, ours, theirs, n)
    requires forall n :: n !in names ==> n !in state.documents && n !in state.changed
    ensures forall n :: Settled(state, base, ours, theirs, n)
    ensures forall n :: DocumentMerge(base, ours, theirs, n).conflicts == []
  {
    hide Merge.MergeNode;
    forall n ensures Settled(state, base, ours, theirs, n) && DocumentMerge(base, ours, theirs, n).conflicts == [] {
      if n in names {
        NoConflictsAt(base, ours, theirs, names, n);
      } else {
        AbsentEverywhere(n);
      }
    }
  }

  lemma AbsentEverywhere(n: string)
    ensures Merge.MergeNode(None, None, None, "document:" + n) == Merged(None, [])
  {
  }

  lemma {:induction false} NoConflictsAt(base: map<string, Tree>, ours: map<string, Tree>, theirs: map<string, Tree>,
                                         names: seq<string>, n: string)
    requires AllConflicts(base, ours, theirs, names) == [] && n in names
    ensures DocumentMerge(base, ours, theirs, n).conflicts == []
  {
    if n != names[|names| - 1] {
      NoConflictsAt(base, ours, theirs, names[..|names| - 1], n);
    }
  }
}
