/** Walking, and finding nodes and parents by id (src/weave_frontend/sexpr.py). */
module TreeWalk {
  import opened Prelude
  import opened Trees
  import opened Validity
  import opened TreeTables

  datatype WalkError = NodeMissing | WalkTooDeep | WalkTooLarge

  /** A tree that a walk visits to the end. */
  predicate Walkable(t: Tree) {
    Shallow(t, MAX_TREE_DEPTH) && Size(t) <= MAX_TREE_NODES
  }

  ghost predicate Shallows(stack: seq<(Tree, nat)>, limit: nat) {
    forall i :: 0 <= i < |stack| ==> Shallow(stack[i].0, limit - stack[i].1)
  }

  // What is still on the stack is within the limits.
  ghost predicate Within(stack: seq<(Tree, nat)>, visited: nat) {
    visited + SizeOf(TreesOf(stack)) <= MAX_TREE_NODES && Shallows(stack, MAX_TREE_DEPTH)
  }

  lemma ShallowsConcat(a: seq<(Tree, nat)>, b: seq<(Tree, nat)>, limit: nat)
    ensures Shallows(a + b, limit) <==> Shallows(a, limit) && Shallows(b, limit)
  {
    var c := a + b;
    if Shallows(c, limit) {
      forall i | 0 <= i < |a| ensures Shallow(a[i].0, limit - a[i].1) {
        assert c[i] == a[i];
      }
      forall i | 0 <= i < |b| ensures Shallow(b[i].0, limit - b[i].1) {
        assert c[|a| + i] == b[i];
      }
    }
  }

  lemma ShallowsNode(node: Tree, depth: nat, limit: nat)
    ensures Shallows([(node, depth)], limit) <==> depth <= limit && Shallows(Reversed(Kids(node), depth + 1), limit)
  {
    var kids, r := Kids(node), Reversed(Kids(node), depth + 1);
    ReversedIs(kids, depth + 1);
    hide Reversed;
    assert [(node, depth)][0] == (node, depth);
    if Shallows(r, limit) {
      forall i | 0 <= i < |kids| ensures Shallow(kids[i], limit - depth - 1) {
        assert r[|kids| - 1 - i] == (kids[i], depth + 1);
      }
    }
  }

  /** Popping a node and pushing its children. */
  lemma WithinPop(rest: seq<(Tree, nat)>, node: Tree, depth: nat, visited: nat)
    ensures Within(rest + [(node, depth)], visited) <==>
      depth <= MAX_TREE_DEPTH && Within(rest + Reversed(Kids(node), depth + 1), visited + 1)
  {
    ShallowsPop(rest, node, depth, MAX_TREE_DEPTH);
    SizesPop(rest, node, depth);
    hide Shallows;
    hide Reversed;
  }

  lemma ShallowsPop(rest: seq<(Tree, nat)>, node: Tree, depth: nat, limit: nat)
    ensures Shallows(rest + [(node, depth)], limit) <==>
      depth <= limit && Shallows(rest + Reversed(Kids(node), depth + 1), limit)
  {
    hide Shallows;
    hide Reversed;
    ShallowsConcat(rest, [(node, depth)], limit);
    ShallowsConcat(rest, Reversed(Kids(node), depth + 1), limit);
    ShallowsNode(node, depth, limit);
  }

  lemma SizesPop(rest: seq<(Tree, nat)>, node: Tree, depth: nat)
    ensures SizeOf(TreesOf(rest + [(node, depth)])) == 1 + SizeOf(TreesOf(rest + Reversed(Kids(node), depth + 1)))
  {
    hide SizeOf;
    hide Reversed;
    var pushed := Reversed(Kids(node), depth + 1);
    TreesOfConcat(rest, [(node, depth)]);
    TreesOfConcat(rest, pushed);
    assert TreesOf([(node, depth)]) == [node];
    SumsPop(TreesOf(rest), node, depth + 1);
  }

  /** The nodes of a tree, each before its children, children from left to right. */
  function Nodes(t: Tree): seq<Tree>
    decreases t, 0
  {
    [t] + if t.List? then NodesOf(t.children) else []
  }

  function NodesOf(ts: seq<Tree>): seq<Tree>
    decreases ts
  {
    if ts == [] then [] else Nodes(ts[0]) + NodesOf(ts[1..])
  }

  // What a stack still yields, from its top.
  function Yet(stack: seq<(Tree, nat)>): seq<Tree> {
    if stack == [] then [] else Nodes(stack[|stack| - 1].0) + Yet(stack[..|stack| - 1])
  }

  lemma {:induction false} YetPushed(rest: seq<(Tree, nat)>, ts: seq<Tree>, depth: nat)
    ensures Yet(rest + Reversed(ts, depth)) == NodesOf(ts) + Yet(rest)
    decreases |ts|
  {
    hide Nodes;
    hide Yet;
    if ts == [] {
      assert rest + Reversed(ts, depth) == rest;
      assert NodesOf(ts) + Yet(rest) == Yet(rest);
    } else {
      YetPushed(rest, ts[1..], depth);
      var below := rest + Reversed(ts[1..], depth);
      assert rest + Reversed(ts, depth) == below + [(ts[0], depth)];
      YetTop(below, ts[0], depth);
      assert NodesOf(ts) + Yet(rest) == Nodes(ts[0]) + (NodesOf(ts[1..]) + Yet(rest));
    }
  }

  lemma YetTop(rest: seq<(Tree, nat)>, node: Tree, depth: nat)
    ensures Yet(rest + [(node, depth)]) == Nodes(node) + Yet(rest)
  {
    hide Nodes;
    assert (rest + [(node, depth)])[..|rest|] == rest;
  }

  /** Popping a node and pushing its children moves one node from the stack to the walk. */
  lemma YetPop(nodes: seq<Tree>, rest: seq<(Tree, nat)>, node: Tree, depth: nat)
    ensures nodes + Yet(rest + [(node, depth)]) == nodes + [node] + Yet(rest + Reversed(Kids(node), depth + 1))
  {
    YetTop(rest, node, depth);
    YetPushed(rest, Kids(node), depth + 1);
    hide *;
    assert Nodes(node) == [node] + NodesOf(Kids(node)) by {
      NodesUnfold(node);
    }
    Joined(nodes, [node], NodesOf(Kids(node)), Yet(rest));
  }

  lemma NodesUnfold(node: Tree)
    ensures Nodes(node) == [node] + NodesOf(Kids(node))
  {
  }

  lemma Joined<T>(a: seq<T>, b: seq<T>, c: seq<T>, d: seq<T>)
    ensures a + (b + c + d) == a + b + (c + d)
  {
  }

  /** The nodes are the subtrees, and their ids the ids of the tree. */
  lemma {:induction false} NodesAre(t: Tree)
    ensures forall u :: u in Nodes(t) <==> Subtree(u, t)
    ensures Names(Nodes(t)) == IdSet(t)
    decreases t, 0
  {
    if t.List? {
      NodesOfAre(t.children);
      NamesOf([t], NodesOf(t.children));
      forall u ensures u in Nodes(t) <==> Subtree(u, t) {
      }
    } else {
      NamesOf([t], []);
    }
    assert Names([t]) == {t.id} by {
      assert [t][0] == t;
    }
    assert Nodes(t) == [t] + if t.List? then NodesOf(t.children) else [];
  }

  lemma {:induction false} NodesOfAre(ts: seq<Tree>)
    ensures forall u :: u in NodesOf(ts) <==> exists i :: 0 <= i < |ts| && Subtree(u, ts[i])
    ensures Names(NodesOf(ts)) == IdSetOf(ts)
    decreases ts
  {
    if ts != [] {
      NodesAre(ts[0]);
      NodesOfAre(ts[1..]);
      NamesOf(Nodes(ts[0]), NodesOf(ts[1..]));
      assert ts == [ts[0]] + ts[1..];
      IdSetOfConcat([ts[0]], ts[1..]);
      PairIds(ts[0], ts[0]);
      forall u ensures u in NodesOf(ts) <==> exists i :: 0 <= i < |ts| && Subtree(u, ts[i]) {
        if i :| 0 <= i < |ts| && Subtree(u, ts[i]) {
          assert i > 0 ==> ts[1..][i - 1] == ts[i];
        }
        if u in NodesOf(ts[1..]) {
          var i :| 0 <= i < |ts[1..]| && Subtree(u, ts[1..][i]);
          assert ts[i + 1] == ts[1..][i];
        }
      }
    } else {
      assert IdSetOf(ts) == {};
    }
  }

  lemma NamesOf(a: seq<Tree>, b: seq<Tree>)
    ensures Names(a + b) == Names(a) + Names(b)
  {
    var c := a + b;
    forall x | x in Names(a) + Names(b) ensures x in Names(c) {
      if x in Names(a) {
        var i :| 0 <= i < |a| && a[i].id == x;
        assert c[i].id == x;
      } else {
        var i :| 0 <= i < |b| && b[i].id == x;
        assert c[|a| + i].id == x;
      }
    }
  }

  /** The nodes a walk yields, and the error that stops it, if any: all of the tree's nodes in order exactly
      within the limits, and the first of them otherwise. */
  method WalkNodes(t: Tree) returns (nodes: seq<Tree>, error: Option<WalkError>)
    ensures nodes <= Nodes(t) && error != Some(NodeMissing)
    ensures error.None? <==> Walkable(t)
    ensures error.None? ==> nodes == Nodes(t)
  {
    hide *;
    nodes := [];
    var stack: seq<(Tree, nat)> := [(t, 0)];
    WalkStart(t);
    while stack != []
      invariant |nodes| <= MAX_TREE_NODES && nodes + Yet(stack) == Nodes(t)
      invariant Within(stack, |nodes|) <==> Walkable(t)
      decreases MAX_TREE_NODES - |nodes|
    {
      var (node, depth) := stack[|stack| - 1];
      var rest := stack[..|stack| - 1];
      assert stack == rest + [(node, depth)];
      WithinPop(rest, node, depth, |nodes|);
      YetPop(nodes, rest, node, depth);
      if depth > MAX_TREE_DEPTH {
        return nodes, Some(WalkTooDeep);
      }
      if |nodes| + 1 > MAX_TREE_NODES {
        OverLimit(rest + Reversed(Kids(node), depth + 1), |nodes| + 1);
        return nodes, Some(WalkTooLarge);
      }
      nodes := nodes + [node];
      stack := rest + Reversed(Kids(node), depth + 1);
    }
    WalkEnd(nodes);
    return nodes, None;
  }

  lemma WalkStart(t: Tree)
    ensures [] + Yet([(t, 0)]) == Nodes(t) && (Within([(t, 0)], 0) <==> Walkable(t)) && 0 <= MAX_TREE_NODES
  {
    assert TreesOf([(t, 0)]) == [t] && [(t, 0)][0] == (t, 0);
    PairIds(t, t);
    YetTop([], t, 0);
    assert [] + [(t, 0)] == [(t, 0)] && Yet([]) == [];
    assert [t][0] == t;
  }

  lemma OverLimit(stack: seq<(Tree, nat)>, visited: nat)
    requires visited > MAX_TREE_NODES
    ensures !Within(stack, visited)
  {
  }

  lemma WalkEnd(nodes: seq<Tree>)
    requires |nodes| <= MAX_TREE_NODES
    ensures Within([], |nodes|) && nodes + Yet([]) == nodes
  {
  }

  /** The first node with the id, in the order of the walk. */
  ghost predicate FirstNode(t: Tree, id: NodeId, u: Tree) {
    exists k :: 0 <= k < |Nodes(t)| && Nodes(t)[k] == u && u.id == id && forall j :: 0 <= j < k ==> Nodes(t)[j].id != id
  }

  /** The first list with a child of that id, and the first such child in it. */
  ghost predicate FirstParent(t: Tree, id: NodeId, p: Tree, i: nat) {
    && p.List? && i < |p.children| && p.children[i].id == id && (forall j :: 0 <= j < i ==> p.children[j].id != id)
    && exists k :: 0 <= k < |Nodes(t)| && Nodes(t)[k] == p && forall j :: 0 <= j < k ==> !HoldsId(Nodes(t)[j], id)
  }

  /** Finds the first node with an id. Within the limits it fails exactly when there is none. */
  method FindNode(t: Tree, id: NodeId) returns (r: Result<Tree, WalkError>)
    ensures r.Ok? ==> FirstNode(t, id, r.value) && Subtree(r.value, t) && r.value.id == id && id in IdSet(t)
    ensures r == Err(NodeMissing) ==> id !in IdSet(t)
    ensures Walkable(t) ==> r == Err(NodeMissing) || r.Ok?
  {
    hide Nodes;
    var nodes, error := WalkNodes(t);
    NodesAre(t);
    for i := 0 to |nodes|
      invariant forall j :: 0 <= j < i ==> nodes[j].id != id
    {
      if nodes[i].id == id {
        assert Nodes(t)[i] == nodes[i];
        SubtreeIds(nodes[i], t);
        return Ok(nodes[i]);
      }
    }
    assert id !in Names(nodes);
    return Err(if error.Some? then error.value else NodeMissing);
  }

  /** Finds the first list that holds a node with an id, and its place there. Within the limits it fails
      exactly when no list holds one, that is for the root of a tree with unique ids and for unknown ids. */
  method FindParent(t: Tree, id: NodeId) returns (r: Result<(Tree, nat), WalkError>)
    ensures r.Ok? ==> FirstParent(t, id, r.value.0, r.value.1) && Subtree(r.value.0, t) && id in IdSet(t)
    ensures r == Err(NodeMissing) ==> (forall p :: Subtree(p, t) ==> !HoldsId(p, id)) && (id !in IdSet(t) || id == t.id)
    ensures Walkable(t) ==> r == Err(NodeMissing) || r.Ok?
  {
    hide Nodes;
    var nodes, error := WalkNodes(t);
    NodesAre(t);
    for i := 0 to |nodes|
      invariant forall j :: 0 <= j < i ==> !HoldsId(nodes[j], id)
    {
      if nodes[i].List? {
        var kids := nodes[i].children;
        for k := 0 to |kids|
          invariant forall j :: 0 <= j < k ==> kids[j].id != id
        {
          if kids[k].id == id {
            assert Nodes(t)[i] == nodes[i];
            assert Subtree(kids[k], nodes[i]);
            SubtreeTrans(kids[k], nodes[i], t);
            SubtreeIds(kids[k], t);
            return Ok((nodes[i], k));
          }
        }
      }
    }
    if error.None? {
      forall p | Subtree(p, t) ensures !HoldsId(p, id) {
        assert p in nodes;
      }
      if id in IdSet(t) && id != t.id {
        ghost var p := HasParent(t, id);
        assert false;
      }
    }
    return Err(if error.Some? then error.value else NodeMissing);
  }

  ghost predicate HoldsId(p: Tree, id: NodeId) {
    p.List? && exists k :: 0 <= k < |p.children| && p.children[k].id == id
  }

  lemma {:induction false} HasParent(t: Tree, id: NodeId) returns (p: Tree)
    requires id in IdSet(t) && id != t.id
    ensures Subtree(p, t) && HoldsId(p, id)
    decreases t
  {
    var i :| 0 <= i < |t.children| && id in IdSet(t.children[i]);
    if t.children[i].id == id {
      p := t;
    } else {
      p := HasParent(t.children[i], id);
    }
  }
}
