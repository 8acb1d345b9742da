/** Stable-id three-way merge of program trees (src/weave_frontend/sexpr_service.py). */
module Merge {
  import opened Prelude
  import opened Trees

  // The result of one merge call: the merged node, and the conflicts it appended.
  datatype Merged = Merged(node: Option<Tree>, conflicts: seq<string>)
  datatype MergedKids = MergedKids(nodes: seq<Tree>, conflicts: seq<string>)

  /** The child a dictionary keyed by id keeps: the last one with that id. */
  function Find(ts: seq<Tree>, id: NodeId): (r: Option<Tree>)
    ensures r.Some? ==> r.value in ts && r.value.id == id
    ensures r.None? <==> forall c :: c in ts ==> c.id != id
  {
    if ts == [] then None
    else if ts[|ts| - 1].id == id then Some(ts[|ts| - 1])
    else Find(ts[..|ts| - 1], id)
  }

  /** The last base id met so far: the slot the next addition belongs to. */
  function Anchor(cs: seq<Tree>, base: set<NodeId>): Option<NodeId> {
    if cs == [] then None
    else if cs[|cs| - 1].id in base then Some(cs[|cs| - 1].id)
    else Anchor(cs[..|cs| - 1], base)
  }

  /** The additions that follow `anchor`, in order. */
  function Slot(cs: seq<Tree>, base: set<NodeId>, anchor: Option<NodeId>): seq<Tree> {
    if cs == [] then []
    else
      var init, last := cs[..|cs| - 1], cs[|cs| - 1];
      Slot(init, base, anchor) + (if last.id !in base && Anchor(init, base) == anchor then [last] else [])
  }

  /** Keeps the first node of each id. */
  function Dedup(cs: seq<Tree>): seq<Tree> {
    if cs == [] then []
    else
      var init, last := cs[..|cs| - 1], cs[|cs| - 1];
      Dedup(init) + (if last.id in Names(init) then [] else [last])
  }

  function MergeSlot(os: seq<Tree>, ts: seq<Tree>, base: set<NodeId>, anchor: Option<NodeId>): seq<Tree> {
    Dedup(Slot(os, base, anchor) + Slot(ts, base, anchor))
  }

  function Keep(ids: seq<NodeId>, wanted: set<NodeId>): seq<NodeId> {
    if ids == [] then []
    else Keep(ids[..|ids| - 1], wanted) + (if ids[|ids| - 1] in wanted then [ids[|ids| - 1]] else [])
  }

  /** A conflict when the surviving base children are not in base order. */
  function Reorder(base: seq<Tree>, cs: seq<Tree>, path: string, id: NodeId): seq<string> {
    var actual := Keep(Ids(cs), Names(base));
    var expected := Keep(Ids(base), Names(cs));
    if actual != expected then [path + ":" + id + ":reorder"] else []
  }

  // Termination measure of an optional base node.
  function Rank(b: Option<Tree>): Tree {
    if b.Some? then b.value else Leaf("", Boolean(false))
  }

  function OptSeq<T>(x: Option<T>): seq<T> {
    if x.Some? then [x.value] else []
  }

  function MergeNode(b: Option<Tree>, o: Option<Tree>, t: Option<Tree>, path: string): Merged
    decreases Rank(b), 1, 0
  {
    if o == b then Merged(t, [])
    else if t == b || o == t then Merged(o, [])
    else if b.None? then Merged(o, [path])  // both sides are present here
    else if o.None? || t.None? then Merged(if o.Some? then o else t, [path])
    else if o.value.id != b.value.id || t.value.id != b.value.id then Merged(o, [path])
    else if KindOf(o.value) != KindOf(b.value) || KindOf(t.value) != KindOf(b.value) then
      Merged(o, [path + ":" + b.value.id + ":kind"])
    else if b.value.Leaf? then Merged(o, [path + ":" + b.value.id + ":value"])
    else
      var kids := MergeChildren(b.value, o.value, t.value, path);
      Merged(Some(List(b.value.id, kids.nodes)), kids.conflicts)
  }

  function MergeChildren(b: Tree, o: Tree, t: Tree, path: string): MergedKids
    requires b.List? && o.List? && t.List?
    decreases b, 0, 0
  {
    var rest := MergeFrom(b.children, o.children, t.children, path, 0);
    MergedKids(
      MergeSlot(o.children, t.children, Names(b.children), None) + rest.nodes,
      Reorder(b.children, o.children, path, b.id) + Reorder(b.children, t.children, path, b.id) + rest.conflicts)
  }

  /** The merge of the k-th base child. */
  function MergeChild(bs: seq<Tree>, os: seq<Tree>, ts: seq<Tree>, path: string, k: nat): Merged
    requires k < |bs|
    decreases bs, 0, 0
  {
    var id := bs[k].id;
    MergeNode(Find(bs, id), Find(os, id), Find(ts, id), path + "/" + id)
  }

  function MergeFrom(bs: seq<Tree>, os: seq<Tree>, ts: seq<Tree>, path: string, k: nat): MergedKids
    requires k <= |bs|
    decreases bs, 1, |bs| - k
  {
    if k == |bs| then MergedKids([], [])
    else
      var m := MergeChild(bs, os, ts, path, k);
      var rest := MergeFrom(bs, os, ts, path, k + 1);
      MergedKids(
        OptSeq(m.node) + MergeSlot(os, ts, Names(bs), Some(bs[k].id)) + rest.nodes,
        m.conflicts + rest.conflicts)
  }
}
