/** The tree that every component shares: lists and atoms that carry stable node ids
    (src/weave_frontend/sexpr.py). */
module Trees {
  import opened Prelude

  type NodeId = string

  // A float keeps its printed lexeme; see "Left out" in README.md.
  datatype Atom =
    | Symbol(name: string)
    | Text(text: string)
    | Integer(n: int)
    | Float(lexeme: string)
    | Boolean(b: bool)

  datatype Tree =
    | List(id: NodeId, children: seq<Tree>)
    | Leaf(id: NodeId, atom: Atom)

  datatype Kind = ListKind | SymbolKind | StringKind | IntegerKind | FloatKind | BooleanKind

  function KindOf(t: Tree): Kind {
    match t
    case List(_, _) => ListKind
    case Leaf(_, Symbol(_)) => SymbolKind
    case Leaf(_, Text(_)) => StringKind
    case Leaf(_, Integer(_)) => IntegerKind
    case Leaf(_, Float(_)) => FloatKind
    case Leaf(_, Boolean(_)) => BooleanKind
  }

  /** The ids of sibling nodes, in order and as a set. */
  function Ids(ts: seq<Tree>): (r: seq<NodeId>)
    ensures |r| == |ts| && forall i :: 0 <= i < |ts| ==> r[i] == ts[i].id
  {
    seq(|ts|, i requires 0 <= i < |ts| => ts[i].id)
  }

  function Names(ts: seq<Tree>): set<NodeId> {
    set i | 0 <= i < |ts| :: ts[i].id
  }

  /** The ids of a tree, and of a sequence of sibling trees. */
  function IdSet(t: Tree): set<NodeId> {
    if t.Leaf? then {t.id} else {t.id} + IdSetOf(t.children)
  }

  function IdSetOf(ts: seq<Tree>): set<NodeId> {
    set i, x | 0 <= i < |ts| && x in IdSet(ts[i]) :: x
  }

  lemma IdSetIs(t: Tree)
    requires t.List?
    ensures IdSet(t) == {t.id} + IdSetOf(t.children)
  {
  }

  /** No node id occurs twice. */
  ghost predicate Unique(t: Tree) {
    t.List? ==> t.id !in IdSetOf(t.children) && UniqueAll(t.children)
  }

  ghost predicate UniqueAll(ts: seq<Tree>) {
    && (forall i :: 0 <= i < |ts| ==> Unique(ts[i]))
    && (forall i, j :: 0 <= i < j < |ts| ==> IdSet(ts[i]) !! IdSet(ts[j]))
  }

  /** No list has two children with one id. */
  ghost predicate SiblingUnique(t: Tree) {
    t.List? ==> DistinctIds(t.children) && forall i :: 0 <= i < |t.children| ==> SiblingUnique(t.children[i])
  }

  ghost predicate DistinctIds(ts: seq<Tree>) {
    forall i, j :: 0 <= i < j < |ts| ==> ts[i].id != ts[j].id
  }

  /** `u` is `t` or lies under it. */
  ghost predicate Subtree(u: Tree, t: Tree) {
    u == t || (t.List? && exists i :: 0 <= i < |t.children| && Subtree(u, t.children[i]))
  }

  lemma {:induction false} SubtreeIds(u: Tree, t: Tree)
    requires Subtree(u, t)
    ensures u.id in IdSet(t) && IdSet(u) <= IdSet(t)
    decreases t
  {
    if u != t {
      var i :| 0 <= i < |t.children| && Subtree(u, t.children[i]);
      SubtreeIds(u, t.children[i]);
    }
  }

  /** `p` is the root-to-node id path of some node of `t`. */
  ghost predicate Has(t: Tree, p: seq<NodeId>)
    decreases |p|, 0
  {
    && p != []
    && p[0] == t.id
    && (|p| == 1 || (t.List? && HasIn(t.children, p[1..])))
  }

  ghost predicate HasIn(ts: seq<Tree>, p: seq<NodeId>)
    decreases |p|, 1
  {
    exists c :: c in ts && Has(c, p)
  }

  ghost predicate HasOpt(t: Option<Tree>, p: seq<NodeId>) {
    t.Some? && Has(t.value, p)
  }

  function Last(p: seq<NodeId>): NodeId
    requires p != []
  {
    p[|p| - 1]
  }
}
