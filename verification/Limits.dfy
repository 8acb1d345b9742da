/** What validity comes to, in numbers and characters (src/weave_frontend/sexpr.py, revision_limits.py). */
module Limits {
  import opened Chars
  import opened Trees
  import opened TreePaths
  import opened Atoms
  import opened Validity

  predicate Letter(c: char) {
    'a' <= c <= 'z' || 'A' <= c <= 'Z'
  }

  predicate Plain(body: string) {
    body != "" && forall i :: 0 <= i < |body| ==> Letter(body[i]) || '0' <= body[i] <= '9' || body[i] == '_' || body[i] == '-'
  }

  predicate Named(id: NodeId, body: string, end: string) {
    id == "n_" + body + end && Plain(body) && (end == "" || end == "\n")
  }

  lemma CleanExactly(id: NodeId, body: string)
    requires id == "n_" + body
    ensures CleanId(id) <==> Plain(body)
  {
    if CleanId(id) {
      forall i | 0 <= i < |body| ensures IdChar(body[i]) {
        assert body[i] == id[i + 2];
      }
    }
    if Plain(body) {
      forall i | 2 <= i < |id| ensures IdChar(id[i]) {
        assert id[i] == body[i - 2];
      }
    }
  }

  /** An id is accepted exactly when it is `n_` and letters, digits, underscores and hyphens, with one newline behind
      at most. */
  lemma IdExactly(id: NodeId)
    ensures IdOk(id) <==> exists body, end :: Named(id, body, end)
  {
    if CleanId(id) {
      assert id == "n_" + id[2..];
      CleanExactly(id, id[2..]);
      assert Named(id, id[2..], "");
    } else if IdOk(id) {
      var clean := id[..|id| - 1];
      assert clean == "n_" + clean[2..] && id == clean + "\n";
      CleanExactly(clean, clean[2..]);
      assert Named(id, clean[2..], "\n");
    }
    forall body, end | Named(id, body, end) ensures IdOk(id) {
      CleanExactly("n_" + body, body);
      assert id[..|id| - |end|] == "n_" + body;
    }
  }

  /** A tree is shallow exactly when no path from its root is longer. */
  lemma {:induction false} DepthExactly(t: Tree, depth: nat)
    ensures Shallow(t, depth) <==> forall p :: Has(t, p) ==> |p| <= depth + 1
    decreases t
  {
    if t.List? {
      if Shallow(t, depth) {
        forall p | Has(t, p) ensures |p| <= depth + 1 {
          PathDepth(t, depth, p);
        }
      } else {
        var p := LongPath(t, depth);
      }
    } else {
      forall p | Has(t, p) ensures |p| <= depth + 1 {
      }
    }
  }

  lemma {:induction false} PathDepth(t: Tree, depth: nat, p: seq<NodeId>)
    requires Shallow(t, depth) && Has(t, p)
    ensures |p| <= depth + 1
    decreases |p|
  {
    if |p| > 1 {
      var c :| c in t.children && Has(c, p[1..]);
      var i :| 0 <= i < |t.children| && t.children[i] == c;
      assert Shallow(t.children[i], depth - 1);
      PathDepth(c, depth - 1, p[1..]);
    }
  }

  lemma {:induction false} LongPath(t: Tree, depth: int) returns (p: seq<NodeId>)
    requires !Shallow(t, depth)
    ensures Has(t, p) && |p| > depth + 1
    decreases t
  {
    if depth < 0 {
      p := [t.id];
    } else {
      var i :| 0 <= i < |t.children| && !Shallow(t.children[i], depth - 1);
      var q := LongPath(t.children[i], depth - 1);
      Below(t, i, q);
      p := [t.id] + q;
    }
  }

  lemma {:induction false} NodesExactly(t: Tree)
    ensures NodesOk(t) <==> forall u :: Subtree(u, t) ==> IdOk(u.id) && (u.Leaf? ==> AtomBytes(u.atom) <= 1_048_576)
    decreases t
  {
    hide IdOk;
    if t.List? {
      forall i | 0 <= i < |t.children|
        ensures NodesOk(t.children[i]) <==>
                forall u :: Subtree(u, t.children[i]) ==> IdOk(u.id) && (u.Leaf? ==> AtomBytes(u.atom) <= 1_048_576)
      {
        NodesExactly(t.children[i]);
      }
      if forall u :: Subtree(u, t) ==> IdOk(u.id) && (u.Leaf? ==> AtomBytes(u.atom) <= 1_048_576) {
        forall i | 0 <= i < |t.children| ensures NodesOk(t.children[i]) {
          forall u | Subtree(u, t.children[i]) ensures Subtree(u, t) {
          }
        }
        assert Subtree(t, t);
      }
    } else {
      assert Subtree(t, t);
    }
  }

  /** A tree is valid exactly when no id repeats, every id is well formed, no value is over a mebibyte, no path is
      over 513 nodes, there are at most 100 000 nodes, and the values are eight mebibytes together at most. */
  lemma ValidExactly(t: Tree)
    ensures ValidTree(t) <==>
      && Unique(t)
      && (forall u :: Subtree(u, t) ==> IdOk(u.id) && (u.Leaf? ==> AtomBytes(u.atom) <= 1_048_576))
      && (forall p :: Has(t, p) ==> |p| <= 513)
      && Size(t) <= 100_000 && ValueBytes(t) <= 8_388_608
  {
    NodesExactly(t);
    DepthExactly(t, 512);
  }
}
