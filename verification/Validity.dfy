/** Structural validity of a tree and the stack loop that checks it (src/weave_frontend/sexpr.py). */
module Validity {
  import opened Prelude
  import opened Chars
  import opened Trees
  import opened Atoms

  const MAX_SOURCE_BYTES := 4 * 1024 * 1024
  const MAX_TREE_DEPTH := 512
  const MAX_TREE_NODES := 100_000
  const MAX_ATOM_VALUE_BYTES := 1024 * 1024
  const MAX_TREE_VALUE_BYTES := 8 * 1024 * 1024
  const MAX_RENDERED_SOURCE_BYTES := 16 * 1024 * 1024

  predicate IdChar(c: char) {
    'A' <= c <= 'Z' || 'a' <= c <= 'z' || '0' <= c <= '9' || c == '_' || c == '-'
  }

  predicate CleanId(id: NodeId) {
    |id| > 2 && id[0] == 'n' && id[1] == '_' && forall i :: 2 <= i < |id| ==> IdChar(id[i])
  }

  /** The id pattern. Its end anchor also accepts one final newline. */
  predicate IdOk(id: NodeId) {
    CleanId(id) || (id != "" && id[|id| - 1] == '\n' && CleanId(id[..|id| - 1]))
  }

  // The supply of new node ids: the n-th id it hands out.
  type Supply = nat -> NodeId

  /** Ids handed out by the supply are well formed and never repeat. */
  ghost predicate GoodSupply(newId: Supply) {
    && (forall n: nat :: CleanId(newId(n)))
    && (forall m: nat, n: nat :: m != n ==> newId(m) != newId(n))
  }

  /** The bytes an atom's value counts for. */
  function AtomBytes(a: Atom): nat {
    match a
    case Symbol(name) => Utf8(name)
    case Text(text) => Utf8(text)
    case Integer(n) => Utf8(IntText(n))
    case Float(lexeme) => Utf8(lexeme)
    case Boolean(b) => if b then 4 else 5
  }

  function Size(t: Tree): nat {
    if t.Leaf? then 1 else 1 + SizeOf(t.children)
  }

  function SizeOf(ts: seq<Tree>): nat {
    if ts == [] then 0 else SizeOf(ts[..|ts| - 1]) + Size(ts[|ts| - 1])
  }

  function ValueBytes(t: Tree): nat {
    if t.Leaf? then AtomBytes(t.atom) else ValueBytesOf(t.children)
  }

  function ValueBytesOf(ts: seq<Tree>): nat {
    if ts == [] then 0 else ValueBytesOf(ts[..|ts| - 1]) + ValueBytes(ts[|ts| - 1])
  }

  /** No node lies deeper than `depth` levels below the root of `t`. */
  predicate Shallow(t: Tree, depth: int) {
    depth >= 0 && (t.List? ==> forall i :: 0 <= i < |t.children| ==> Shallow(t.children[i], depth - 1))
  }

  predicate NodesOk(t: Tree) {
    && IdOk(t.id)
    && (t.Leaf? ==> AtomBytes(t.atom) <= MAX_ATOM_VALUE_BYTES)
    && (t.List? ==> forall i :: 0 <= i < |t.children| ==> NodesOk(t.children[i]))
  }

  ghost predicate ValidTree(t: Tree) {
    && Unique(t) && NodesOk(t)
    && Shallow(t, MAX_TREE_DEPTH)
    && Size(t) <= MAX_TREE_NODES
    && ValueBytes(t) <= MAX_TREE_VALUE_BYTES
  }

  // ----- the validating loop

  function TreesOf(stack: seq<(Tree, nat)>): seq<Tree> {
    seq(|stack|, i requires 0 <= i < |stack| => stack[i].0)
  }

  ghost predicate Apart(ts: seq<Tree>, seen: set<NodeId>) {
    forall i :: 0 <= i < |ts| ==> IdSet(ts[i]) !! seen
  }

  ghost predicate EachOk(stack: seq<(Tree, nat)>) {
    forall i :: 0 <= i < |stack| ==> NodesOk(stack[i].0) && Shallow(stack[i].0, MAX_TREE_DEPTH - stack[i].1)
  }

  /** What is still on the stack passes every check, on top of what was seen. */
  ghost predicate Pending(stack: seq<(Tree, nat)>, seen: set<NodeId>, count: nat, bytes: nat) {
    && UniqueAll(TreesOf(stack)) && Apart(TreesOf(stack), seen) && EachOk(stack)
    && count + SizeOf(TreesOf(stack)) <= MAX_TREE_NODES
    && bytes + ValueBytesOf(TreesOf(stack)) <= MAX_TREE_VALUE_BYTES
  }

  function Reversed(ts: seq<Tree>, depth: nat): seq<(Tree, nat)> {
    if ts == [] then [] else Reversed(ts[1..], depth) + [(ts[0], depth)]
  }

  /** The check the loop makes on one popped node. */
  predicate NodeCheck(node: Tree, depth: nat, seen: set<NodeId>, count: nat, bytes: nat) {
    && depth <= MAX_TREE_DEPTH
    && IdOk(node.id) && (node.Leaf? ==> AtomBytes(node.atom) <= MAX_ATOM_VALUE_BYTES)
    && count + 1 <= MAX_TREE_NODES
    && node.id !in seen
    && (node.Leaf? ==> bytes + AtomBytes(node.atom) <= MAX_TREE_VALUE_BYTES)
  }

  // ----- sums over sequences

  lemma {:induction false} SizeOfConcat(a: seq<Tree>, b: seq<Tree>)
    ensures SizeOf(a + b) == SizeOf(a) + SizeOf(b)
    ensures ValueBytesOf(a + b) == ValueBytesOf(a) + ValueBytesOf(b)
    decreases |b|
  {
    if b == [] {
      assert a + b == a;
    } else {
      assert (a + b)[..|a + b| - 1] == a + b[..|b| - 1];
      SizeOfConcat(a, b[..|b| - 1]);
    }
  }

  lemma {:induction false} SumPart(ts: seq<Tree>, i: nat)
    requires i < |ts|
    ensures ValueBytes(ts[i]) <= ValueBytesOf(ts) && Size(ts[i]) <= SizeOf(ts)
    decreases |ts|
  {
    if i < |ts| - 1 {
      SumPart(ts[..|ts| - 1], i);
    }
  }

  lemma {:induction false} ShallowMore(t: Tree, d: int, e: int)
    requires Shallow(t, d) && d <= e
    ensures Shallow(t, e)
    decreases t
  {
    if t.List? {
      forall i | 0 <= i < |t.children| ensures Shallow(t.children[i], e - 1) {
        ShallowMore(t.children[i], d - 1, e - 1);
      }
    }
  }

  /** A child of a valid tree is a valid tree. */
  lemma ChildValid(t: Tree, i: nat)
    requires ValidTree(t) && t.List? && i < |t.children|
    ensures ValidTree(t.children[i])
  {
    SumPart(t.children, i);
    ShallowMore(t.children[i], MAX_TREE_DEPTH - 1, MAX_TREE_DEPTH);
    assert UniqueAll(t.children);
    assert Unique(t.children[i]);
  }

  lemma {:induction false} ReversedIs(ts: seq<Tree>, depth: nat)
    ensures |Reversed(ts, depth)| == |ts|
    ensures forall i :: 0 <= i < |ts| ==> Reversed(ts, depth)[i] == (ts[|ts| - 1 - i], depth)
    ensures SizeOf(TreesOf(Reversed(ts, depth))) == SizeOf(ts)
    ensures ValueBytesOf(TreesOf(Reversed(ts, depth))) == ValueBytesOf(ts)
  {
    if ts != [] {
      ReversedIs(ts[1..], depth);
      var r := Reversed(ts[1..], depth);
      assert TreesOf(Reversed(ts, depth)) == TreesOf(r) + [ts[0]];
      SizeOfConcat(TreesOf(r), [ts[0]]);
      assert ts == [ts[0]] + ts[1..];
      SizeOfConcat([ts[0]], ts[1..]);
      assert [ts[0]][..0] == [];
    }
  }

  lemma UniqueAllConcat(a: seq<Tree>, b: seq<Tree>)
    ensures UniqueAll(a + b) <==> UniqueAll(a) && UniqueAll(b) && forall i, j :: 0 <= i < |a| && 0 <= j < |b| ==> IdSet(a[i]) !! IdSet(b[j])
  {
    var c := a + b;
    hide Unique;
    hide IdSet;
    if UniqueAll(c) {
      forall i | 0 <= i < |a| ensures Unique(a[i]) {
        assert c[i] == a[i];
      }
      forall i | 0 <= i < |b| ensures Unique(b[i]) {
        assert c[|a| + i] == b[i];
      }
      forall i, j | 0 <= i < j < |a| ensures IdSet(a[i]) !! IdSet(a[j]) {
        assert c[i] == a[i] && c[j] == a[j];
      }
      forall i, j | 0 <= i < j < |b| ensures IdSet(b[i]) !! IdSet(b[j]) {
        assert c[|a| + i] == b[i] && c[|a| + j] == b[j];
      }
      forall i, j | 0 <= i < |a| && 0 <= j < |b| ensures IdSet(a[i]) !! IdSet(b[j]) {
        assert c[i] == a[i] && c[|a| + j] == b[j];
      }
    }
  }

  lemma UniqueReversed(ts: seq<Tree>, depth: nat)
    ensures UniqueAll(TreesOf(Reversed(ts, depth))) <==> UniqueAll(ts)
  {
    ReversedIs(ts, depth);
    var r, n := TreesOf(Reversed(ts, depth)), |ts|;
    hide Unique;
    hide IdSet;
    hide Reversed;
    if UniqueAll(r) {
      forall i | 0 <= i < n ensures Unique(ts[i]) {
        assert r[n - 1 - i] == ts[i];
      }
      forall i, j | 0 <= i < j < n ensures IdSet(ts[i]) !! IdSet(ts[j]) {
        assert r[n - 1 - i] == ts[i] && r[n - 1 - j] == ts[j];
      }
    }
    if UniqueAll(ts) {
      forall i, j | 0 <= i < j < n ensures IdSet(r[i]) !! IdSet(r[j]) {
        assert r[i] == ts[n - 1 - i] && r[j] == ts[n - 1 - j];
      }
    }
  }

  // Kids of a node, none for an atom.
  function Kids(t: Tree): seq<Tree> {
    if t.List? then t.children else []
  }

  /** Popping a node and pushing its children keeps the pending trees apart exactly when its id is new. */
  lemma UniquePop(rest: seq<Tree>, node: Tree, seen: set<NodeId>)
    ensures UniqueAll(rest + [node]) && Apart(rest + [node], seen) <==>
      node.id !in seen && UniqueAll(rest + Kids(node)) && Apart(rest + Kids(node), seen + {node.id})
  {
    var kids := Kids(node);
    UniqueAllConcat(rest, [node]);
    UniqueAllConcat(rest, kids);
    ApartConcat(rest, [node], seen);
    ApartConcat(rest, kids, seen + {node.id});
    assert [node][0] == node;
    NodeParts(node, seen);
    hide Unique;
    hide UniqueAll;
    assert IdSet(node) == {node.id} + IdSetOf(kids);
    forall i | 0 <= i < |kids| ensures IdSet(kids[i]) <= IdSetOf(kids) {
    }
    if UniqueAll(rest) && Apart(rest, seen) && (forall i :: 0 <= i < |rest| ==> IdSet(rest[i]) !! IdSet(node)) {
      forall i, j | 0 <= i < |rest| && 0 <= j < |kids| ensures IdSet(rest[i]) !! IdSet(kids[j]) {
      }
    }
    if forall i, j :: 0 <= i < |rest| && 0 <= j < |kids| ==> IdSet(rest[i]) !! IdSet(kids[j]) {
      forall i | 0 <= i < |rest| && node.id !in IdSet(rest[i]) ensures IdSet(rest[i]) !! IdSet(node) {
        if x :| x in IdSet(rest[i]) && x in IdSet(node) {
          var j :| 0 <= j < |kids| && x in IdSet(kids[j]);
          assert false;
        }
      }
    }
  }

  lemma NodeParts(node: Tree, seen: set<NodeId>)
    ensures UniqueAll([node]) <==> UniqueAll(Kids(node)) && Apart(Kids(node), {node.id})
    ensures Apart([node], seen) <==> node.id !in seen && Apart(Kids(node), seen)
    ensures Apart(Kids(node), seen + {node.id}) <==> Apart(Kids(node), seen) && Apart(Kids(node), {node.id})
  {
    var kids := Kids(node);
    assert [node][0] == node;
    assert UniqueAll([node]) <==> Unique(node);
    assert IdSet(node) == {node.id} + IdSetOf(kids);
    assert Apart(kids, {node.id}) <==> node.id !in IdSetOf(kids);
    if IdSet(node) !! seen {
      forall i | 0 <= i < |kids| ensures IdSet(kids[i]) !! seen {
        assert IdSet(kids[i]) <= IdSetOf(kids);
      }
    }
  }

  lemma ApartConcat(a: seq<Tree>, b: seq<Tree>, seen: set<NodeId>)
    ensures Apart(a + b, seen) <==> Apart(a, seen) && Apart(b, seen)
  {
    if Apart(a + b, seen) {
      forall i | 0 <= i < |a| ensures IdSet(a[i]) !! seen {
        assert (a + b)[i] == a[i];
      }
      forall i | 0 <= i < |b| ensures IdSet(b[i]) !! seen {
        assert (a + b)[|a| + i] == b[i];
      }
    }
  }

  lemma EachOkConcat(a: seq<(Tree, nat)>, b: seq<(Tree, nat)>)
    ensures EachOk(a + b) <==> EachOk(a) && EachOk(b)
  {
    var c := a + b;
    if EachOk(c) {
      forall i | 0 <= i < |a| ensures NodesOk(a[i].0) && Shallow(a[i].0, MAX_TREE_DEPTH - a[i].1) {
        assert c[i] == a[i];
      }
      forall i | 0 <= i < |b| ensures NodesOk(b[i].0) && Shallow(b[i].0, MAX_TREE_DEPTH - b[i].1) {
        assert c[|a| + i] == b[i];
      }
    }
  }

  lemma EachOkNode(node: Tree, depth: nat)
    ensures EachOk([(node, depth)]) <==>
      && depth <= MAX_TREE_DEPTH && IdOk(node.id) && (node.Leaf? ==> AtomBytes(node.atom) <= MAX_ATOM_VALUE_BYTES)
      && EachOk(Reversed(Kids(node), depth + 1))
  {
    var kids, r := Kids(node), Reversed(Kids(node), depth + 1);
    ReversedIs(kids, depth + 1);
    assert [(node, depth)][0] == (node, depth);
    if EachOk(r) {
      forall i | 0 <= i < |kids| ensures NodesOk(kids[i]) && Shallow(kids[i], MAX_TREE_DEPTH - depth - 1) {
        assert r[|kids| - 1 - i] == (kids[i], depth + 1);
      }
    }
  }

  // Sums are the same when a node is replaced by its children, counting the node itself.
  lemma SumsPop(rest: seq<Tree>, node: Tree, depth: nat)
    ensures SizeOf(rest + [node]) == 1 + SizeOf(rest + TreesOf(Reversed(Kids(node), depth)))
    ensures ValueBytesOf(rest + [node]) ==
      (if node.Leaf? then AtomBytes(node.atom) else 0) + ValueBytesOf(rest + TreesOf(Reversed(Kids(node), depth)))
  {
    SizeOfConcat(rest, [node]);
    assert [node][..0] == [];
    ReversedIs(Kids(node), depth);
    SizeOfConcat(rest, TreesOf(Reversed(Kids(node), depth)));
  }

  lemma TreesOfConcat(a: seq<(Tree, nat)>, b: seq<(Tree, nat)>)
    ensures TreesOf(a + b) == TreesOf(a) + TreesOf(b)
  {
  }

  lemma ApartReversed(ts: seq<Tree>, depth: nat, seen: set<NodeId>)
    ensures Apart(TreesOf(Reversed(ts, depth)), seen) <==> Apart(ts, seen)
  {
    ReversedIs(ts, depth);
    var r, n := TreesOf(Reversed(ts, depth)), |ts|;
    if Apart(r, seen) {
      forall i | 0 <= i < n ensures IdSet(ts[i]) !! seen {
        assert r[n - 1 - i] == ts[i];
      }
    }
  }

  lemma UniqueSwap(rest: seq<Tree>, kids: seq<Tree>, depth: nat, seen: set<NodeId>)
    ensures var r := TreesOf(Reversed(kids, depth));
      UniqueAll(rest + r) && Apart(rest + r, seen) <==> UniqueAll(rest + kids) && Apart(rest + kids, seen)
  {
    var r, n := TreesOf(Reversed(kids, depth)), |kids|;
    UniqueAllConcat(rest, kids);
    UniqueAllConcat(rest, r);
    ApartConcat(rest, kids, seen);
    ApartConcat(rest, r, seen);
    UniqueReversed(kids, depth);
    ApartReversed(kids, depth, seen);
    ReversedIs(kids, depth);
    hide UniqueAll;
    hide Apart;
    hide IdSet;
    hide Reversed;
    assert forall j :: 0 <= j < n ==> r[j] == kids[n - 1 - j];
    if forall i, j :: 0 <= i < |rest| && 0 <= j < n ==> IdSet(rest[i]) !! IdSet(r[j]) {
      forall i, j | 0 <= i < |rest| && 0 <= j < n ensures IdSet(rest[i]) !! IdSet(kids[j]) {
        assert r[n - 1 - j] == kids[j];
      }
    }
  }

  /** One turn of the loop decides exactly as much as it should. */
  lemma PendingPop(rest: seq<(Tree, nat)>, node: Tree, depth: nat, seen: set<NodeId>, count: nat, bytes: nat)
    ensures Pending(rest + [(node, depth)], seen, count, bytes) <==>
      && NodeCheck(node, depth, seen, count, bytes)
      && Pending(rest + Reversed(Kids(node), depth + 1), seen + {node.id}, count + 1,
                 bytes + if node.Leaf? then AtomBytes(node.atom) else 0)
  {
    var pushed := Reversed(Kids(node), depth + 1);
    TreesOfConcat(rest, [(node, depth)]);
    TreesOfConcat(rest, pushed);
    assert TreesOf([(node, depth)]) == [node];
    EachOkConcat(rest, [(node, depth)]);
    EachOkConcat(rest, pushed);
    EachOkNode(node, depth);
    SumsPop(TreesOf(rest), node, depth + 1);
    UniquePop(TreesOf(rest), node, seen);
    UniqueSwap(TreesOf(rest), Kids(node), depth + 1, seen + {node.id});
    hide Unique;
    hide UniqueAll;
    hide Apart;
    hide EachOk;
    hide SizeOf;
    hide ValueBytesOf;
    hide Reversed;
  }

  /** The validating loop accepts exactly the valid trees. */
  method ValidateTree(root: Tree) returns (ok: bool)
    ensures ok <==> ValidTree(root)
  {
    var seen: set<NodeId> := {};
    var count: nat, bytes: nat := 0, 0;
    var stack: seq<(Tree, nat)> := [(root, 0)];
    PendingRoot(root);
    hide Pending;
    hide ValidTree;
    while stack != []
      invariant count <= MAX_TREE_NODES && bytes <= MAX_TREE_VALUE_BYTES
      invariant Pending(stack, seen, count, bytes) <==> ValidTree(root)
      decreases MAX_TREE_NODES - count
    {
      var (node, depth) := stack[|stack| - 1];
      var rest := stack[..|stack| - 1];
      assert stack == rest + [(node, depth)];
      PendingPop(rest, node, depth, seen, count, bytes);
      if !NodeCheck(node, depth, seen, count, bytes) {
        return false;
      }
      stack := rest + Reversed(Kids(node), depth + 1);
      seen := seen + {node.id};
      count := count + 1;
      bytes := bytes + if node.Leaf? then AtomBytes(node.atom) else 0;
    }
    PendingEmpty(seen, count, bytes);
    return true;
  }

  lemma PendingEmpty(seen: set<NodeId>, count: nat, bytes: nat)
    requires count <= MAX_TREE_NODES && bytes <= MAX_TREE_VALUE_BYTES
    ensures Pending([], seen, count, bytes)
  {
  }

  lemma PendingRoot(root: Tree)
    ensures Pending([(root, 0)], {}, 0, 0) <==> ValidTree(root)
  {
    assert TreesOf([(root, 0)]) == [root];
    assert [root][0] == root && [root][..0] == [];
    assert SizeOf([root]) == SizeOf([root][..0]) + Size(root);
    assert ValueBytesOf([root]) == ValueBytesOf([root][..0]) + ValueBytes(root);
    assert Apart([root], {});
    assert [(root, 0)][0] == (root, 0);
    assert UniqueAll([root]) <==> Unique(root);
    assert EachOk([(root, 0)]) <==> NodesOk(root) && Shallow(root, MAX_TREE_DEPTH);
  }
}
