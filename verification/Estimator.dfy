/** The bound on the size of a grammar example's text (src/weave_frontend/grammar_help.py). */
module Estimator {
  import opened Chars
  import opened Trees
  import opened Atoms
  import opened Validity
  import opened Printer
  import opened SourceMap
  import opened TreeWalk

  const MAX_EXAMPLE_NODES := 256
  const MAX_EXAMPLE_DEPTH := 32
  const MAX_EXAMPLE_BYTES := 64 * 1024

  /** What the estimate charges an atom: a string twice, for its escapes. */
  function AtomCost(a: Trees.Atom): nat {
    match a
    case Text(text) => 2 + 2 * Utf8(text)
    case Boolean(_) => 5
    case Float(lexeme) => Utf8(lexeme)
    case Symbol(name) => Utf8(name)
    case Integer(n) => Utf8(IntText(n))
  }

  /** A list pays for its parentheses and, between children, for a line break and the padding at its depth. */
  function NodeCost(t: Tree, depth: nat): nat {
    if t.Leaf? then AtomCost(t.atom)
    else 2 + if t.children == [] then 0 else (|t.children| - 1) * (2 * depth + 3)
  }

  function Cost(t: Tree, depth: nat): nat
    decreases t, 1
  {
    NodeCost(t, depth) + if t.List? then CostOf(t.children, depth + 1) else 0
  }

  function CostOf(ts: seq<Tree>, depth: nat): nat
    decreases ts, 0
  {
    if ts == [] then 0 else CostOf(ts[..|ts| - 1], depth) + Cost(ts[|ts| - 1], depth)
  }

  // ----- the estimate bounds the text

  lemma {:induction false} EscapesBytes(value: string)
    ensures Utf8(Escapes(value)) <= 2 * Utf8(value)
  {
    if value != "" {
      EscapesBytes(value[1..]);
      Utf8Concat(EscapeChar(value[0]), Escapes(value[1..]));
      Utf8Concat([value[0]], value[1..]);
      assert value == [value[0]] + value[1..];
      EscapeCharBytes(value[0]);
    }
  }

  lemma EscapeCharBytes(c: char)
    ensures Utf8(EscapeChar(c)) <= 2 * Utf8([c])
  {
    assert [c][..0] == "";
    var e := EscapeChar(c);
    if |e| == 2 {
      assert e[..1][..0] == "";
      assert Utf8(e) == Utf8(e[..1]) + Utf8Char(e[1]) && Utf8(e[..1]) == Utf8Char(e[0]);
    }
  }

  lemma AtomBound(a: Trees.Atom)
    ensures Utf8(AtomText(a)) <= AtomCost(a)
  {
    match a
    case Text(text) =>
      EscapeIs(text);
      EscapesBytes(text);
      Utf8Concat("\"", Escapes(text));
      Utf8Concat("\"" + Escapes(text), "\"");
      assert "\""[..0] == "";
    case Boolean(b) =>
      BooleanBytes();
    case _ =>
  }

  lemma BooleanBytes()
    ensures Utf8("true") == 4 && Utf8("false") == 5
  {
    assert "true"[..3] == "tru" && "tru"[..2] == "tr" && "tr"[..1] == "t" && "t"[..0] == "";
    assert "false"[..4] == "fals" && "fals"[..3] == "fal" && "fal"[..2] == "fa" && "fa"[..1] == "f" && "f"[..0] == "";
  }

  lemma SeparatorBytes(t: Tree, depth: nat)
    ensures Utf8(Separator(t, 2 * depth)) <= 2 * depth + 3
  {
    Utf8Concat("\n", Spaces(2 * depth + 2));
    Utf8Spaces(2 * depth + 2);
    assert "\n"[..0] == "" && " "[..0] == "";
  }

  /** Whichever layout is chosen at each level, the text is no longer than the estimate. */
  lemma {:induction false} CostBoundsText(t: Tree, depth: nat)
    ensures Utf8(Canonical(t, 2 * depth)) <= Cost(t, depth)
    decreases t, 1
  {
    hide Utf8;
    hide Separator;
    hide Body;
    if t.Leaf? {
      AtomBound(t.atom);
    } else if t.children == [] {
      EmptyBytes();
    } else {
      var sep := Separator(t, 2 * depth);
      var body := Body(t.children, 2 * depth + 2, sep);
      CanonicalBody(t, 2 * depth);
      SeparatorBytes(t, depth);
      CostBoundsBody(t.children, depth + 1, sep);
      BracketBytes(body);
    }
  }

  lemma EmptyBytes()
    ensures Utf8("()") == 2
  {
    assert "()"[..1] == "(" && "("[..0] == "";
  }

  lemma BracketBytes(body: string)
    ensures Utf8("(" + body + ")") == 2 + Utf8(body)
  {
    Utf8Concat("(", body);
    Utf8Concat("(" + body, ")");
    assert "("[..0] == "" && ")"[..0] == "";
  }

  lemma {:induction false} CostBoundsBody(ts: seq<Tree>, depth: nat, sep: string)
    requires ts != [] && Utf8(sep) <= 2 * depth + 1
    ensures Utf8(Body(ts, 2 * depth, sep)) <= CostOf(ts, depth) + (|ts| - 1) * (2 * depth + 1)
    decreases ts, 0
  {
    hide Utf8;
    hide Canonical;
    hide Cost;
    var init, last := ts[..|ts| - 1], ts[|ts| - 1];
    CostBoundsText(last, depth);
    if |ts| > 1 {
      CostBoundsBody(init, depth, sep);
      Utf8Concat(Body(init, 2 * depth, sep), sep);
      Utf8Concat(Body(init, 2 * depth, sep) + sep, Canonical(last, 2 * depth));
      OneMore(|init|, 2 * depth + 1);
    } else {
      assert init == [];
      assert CostOf(init, depth) == 0;
    }
  }

  lemma OneMore(n: nat, gap: nat)
    ensures n * gap == (n - 1) * gap + gap
  {
  }

  // ----- the estimate is met

  predicate HasEscape(c: char) {
    c == '\\' || c == '"' || c == '\n' || c == '\r' || c == '\t'
  }

  /** Nothing in the tree is cheaper than it is charged: every character of a string is escaped, every boolean is
      false, and every list of two children or more is broken over lines. */
  predicate Widest(t: Tree, depth: nat) {
    match t
    case Leaf(_, Text(text)) => forall i :: 0 <= i < |text| ==> HasEscape(text[i])
    case Leaf(_, Boolean(b)) => !b
    case Leaf(_, _) => true
    case List(_, children) =>
      && (|children| >= 2 ==> 2 * depth + |Flat(t)| > 88)
      && forall i :: 0 <= i < |children| ==> Widest(children[i], depth + 1)
  }

  lemma {:induction false} EscapesAll(value: string)
    requires forall i :: 0 <= i < |value| ==> HasEscape(value[i])
    ensures Utf8(Escapes(value)) == 2 * Utf8(value)
  {
    hide HasEscape;
    hide EscapeChar;
    hide Utf8;
    if value == "" {
      assert Escapes(value) == "" == value;
      NoBytes();
    } else {
      EscapesAll(value[1..]);
      Utf8Concat(EscapeChar(value[0]), Escapes(value[1..]));
      Utf8Concat([value[0]], value[1..]);
      assert value == [value[0]] + value[1..];
      EscapeMet(value[0]);
    }
  }

  lemma NoBytes()
    ensures Utf8("") == 0
  {
  }

  lemma EscapeMet(c: char)
    requires HasEscape(c)
    ensures Utf8(EscapeChar(c)) == 2 && Utf8([c]) == 1
  {
    var e := EscapeChar(c);
    assert [c][..0] == "" && |e| == 2 && e[..1] == ['\\'] && e[..1][..0] == "";
    assert Utf8(e) == Utf8(e[..1]) + Utf8Char(e[1]) && Utf8(e[..1]) == Utf8Char(e[0]);
  }

  lemma AtomMet(t: Tree, depth: nat)
    requires t.Leaf? && Widest(t, depth)
    ensures Utf8(AtomText(t.atom)) == AtomCost(t.atom)
  {
    match t.atom
    case Text(text) =>
      EscapeIs(text);
      EscapesAll(text);
      Utf8Concat("\"", Escapes(text));
      Utf8Concat("\"" + Escapes(text), "\"");
      assert "\""[..0] == "";
    case Boolean(b) =>
      BooleanBytes();
    case _ =>
  }

  /** On such a tree the estimate is the size of the text to the byte. */
  lemma {:induction false} CostMet(t: Tree, depth: nat)
    requires Widest(t, depth)
    ensures Utf8(Canonical(t, 2 * depth)) == Cost(t, depth)
    decreases t, 1
  {
    hide Utf8;
    hide Separator;
    hide Body;
    if t.Leaf? {
      AtomMet(t, depth);
    } else if t.children == [] {
      EmptyBytes();
    } else {
      var sep := Separator(t, 2 * depth);
      CanonicalBody(t, 2 * depth);
      BreakBytes(t, depth);
      CostMetBody(t.children, depth + 1, sep);
      BracketBytes(Body(t.children, 2 * depth + 2, sep));
    }
  }

  lemma BreakBytes(t: Tree, depth: nat)
    requires t.List?
    ensures 2 * depth + |Flat(t)| > 88 ==> Utf8(Separator(t, 2 * depth)) == 2 * depth + 3
  {
    Utf8Concat("\n", Spaces(2 * depth + 2));
    Utf8Spaces(2 * depth + 2);
    assert "\n"[..0] == "";
    assert |Flat(t)| > 0;
  }

  lemma {:induction false} CostMetBody(ts: seq<Tree>, depth: nat, sep: string)
    requires ts != [] && (|ts| >= 2 ==> Utf8(sep) == 2 * depth + 1) && forall i :: 0 <= i < |ts| ==> Widest(ts[i], depth)
    ensures Utf8(Body(ts, 2 * depth, sep)) == CostOf(ts, depth) + (|ts| - 1) * (2 * depth + 1)
    decreases ts, 0
  {
    hide Utf8;
    hide Canonical;
    hide Cost;
    hide Widest;
    var init, last := ts[..|ts| - 1], ts[|ts| - 1];
    CostMet(last, depth);
    if |ts| > 1 {
      CostMetBody(init, depth, sep);
      Utf8Concat(Body(init, 2 * depth, sep), sep);
      Utf8Concat(Body(init, 2 * depth, sep) + sep, Canonical(last, 2 * depth));
      OneMore(|init|, 2 * depth + 1);
    } else {
      assert init == [];
      assert CostOf(init, depth) == 0;
    }
  }

  // ----- the loop

  function StackCost(stack: seq<(Tree, nat)>): nat {
    if stack == [] then 0 else StackCost(stack[..|stack| - 1]) + Cost(stack[|stack| - 1].0, stack[|stack| - 1].1)
  }

  lemma {:induction false} StackCostConcat(a: seq<(Tree, nat)>, b: seq<(Tree, nat)>)
    ensures StackCost(a + b) == StackCost(a) + StackCost(b)
    decreases |b|
  {
    if b == [] {
      assert a + b == a;
    } else {
      assert (a + b)[..|a + b| - 1] == a + b[..|b| - 1];
      StackCostConcat(a, b[..|b| - 1]);
    }
  }

  lemma {:induction false} ReversedCost(ts: seq<Tree>, depth: nat)
    ensures StackCost(Reversed(ts, depth)) == CostOf(ts, depth)
    decreases |ts|
  {
    if ts != [] {
      ReversedCost(ts[1..], depth);
      StackCostConcat(Reversed(ts[1..], depth), [(ts[0], depth)]);
      assert [(ts[0], depth)][..0] == [];
      CostFront(ts, depth);
    }
  }

  lemma {:induction false} CostFront(ts: seq<Tree>, depth: nat)
    requires ts != []
    ensures CostOf(ts, depth) == Cost(ts[0], depth) + CostOf(ts[1..], depth)
    decreases |ts|
  {
    if |ts| > 1 {
      CostFront(ts[..|ts| - 1], depth);
      assert ts[..|ts| - 1][1..] == ts[1..][..|ts| - 2];
    } else {
      assert ts[..0] == [];
    }
  }

  /** What is still on the stack fits, on top of what was counted. */
  ghost predicate Fitting(stack: seq<(Tree, nat)>, count: nat, bytes: nat) {
    && count + SizeOf(TreesOf(stack)) <= MAX_EXAMPLE_NODES
    && Shallows(stack, MAX_EXAMPLE_DEPTH)
    && bytes + StackCost(stack) <= MAX_EXAMPLE_BYTES
  }

  lemma FittingPop(rest: seq<(Tree, nat)>, node: Tree, depth: nat, count: nat, bytes: nat)
    ensures Fitting(rest + [(node, depth)], count, bytes) <==>
      depth <= MAX_EXAMPLE_DEPTH && Fitting(rest + Reversed(Kids(node), depth + 1), count + 1, bytes + NodeCost(node, depth))
  {
    hide Shallows;
    hide Reversed;
    hide NodeCost;
    hide SizeOf;
    ShallowsPop(rest, node, depth, MAX_EXAMPLE_DEPTH);
    SizesPop(rest, node, depth);
    StackCostConcat(rest, [(node, depth)]);
    StackCostConcat(rest, Reversed(Kids(node), depth + 1));
    ReversedCost(Kids(node), depth + 1);
    assert [(node, depth)][..0] == [];
  }

  /** Accepts exactly the trees within the node, depth and cost limits; the text of an accepted tree is
      within the byte limit. */
  method RenderWithinLimits(root: Tree) returns (ok: bool)
    ensures ok <==> Size(root) <= MAX_EXAMPLE_NODES && Shallow(root, MAX_EXAMPLE_DEPTH) && Cost(root, 0) <= MAX_EXAMPLE_BYTES
    ensures ok ==> Utf8(Canonical(root, 0)) <= MAX_EXAMPLE_BYTES
  {
    var count: nat, bytes: nat := 0, 0;
    var stack: seq<(Tree, nat)> := [(root, 0)];
    FittingRoot(root);
    CostBoundsText(root, 0);
    hide Fitting;
    while stack != []
      invariant count <= MAX_EXAMPLE_NODES && bytes <= MAX_EXAMPLE_BYTES
      invariant Fitting(stack, count, bytes) <==>
        Size(root) <= MAX_EXAMPLE_NODES && Shallow(root, MAX_EXAMPLE_DEPTH) && Cost(root, 0) <= MAX_EXAMPLE_BYTES
      decreases MAX_EXAMPLE_NODES - count
    {
      var (node, depth) := stack[|stack| - 1];
      var rest := stack[..|stack| - 1];
      assert stack == rest + [(node, depth)];
      FittingPop(rest, node, depth, count, bytes);
      NotFitting(rest + Reversed(Kids(node), depth + 1), count + 1, bytes + NodeCost(node, depth));
      if count + 1 > MAX_EXAMPLE_NODES || depth > MAX_EXAMPLE_DEPTH {
        return false;
      }
      count, bytes := count + 1, bytes + NodeCost(node, depth);
      stack := rest + Reversed(Kids(node), depth + 1);
      if bytes > MAX_EXAMPLE_BYTES {
        return false;
      }
    }
    NothingLeft(count, bytes);
    return true;
  }

  lemma NotFitting(stack: seq<(Tree, nat)>, count: nat, bytes: nat)
    ensures count > MAX_EXAMPLE_NODES || bytes > MAX_EXAMPLE_BYTES ==> !Fitting(stack, count, bytes)
  {
  }

  lemma NothingLeft(count: nat, bytes: nat)
    ensures count <= MAX_EXAMPLE_NODES && bytes <= MAX_EXAMPLE_BYTES ==> Fitting([], count, bytes)
  {
  }

  lemma FittingRoot(root: Tree)
    ensures Fitting([(root, 0)], 0, 0) <==>
      Size(root) <= MAX_EXAMPLE_NODES && Shallow(root, MAX_EXAMPLE_DEPTH) && Cost(root, 0) <= MAX_EXAMPLE_BYTES
  {
    assert TreesOf([(root, 0)]) == [root] && [(root, 0)][0] == (root, 0) && [(root, 0)][..0] == [];
    assert [root][..0] == [] && SizeOf([root]) == SizeOf([root][..0]) + Size(root);
    assert StackCost([(root, 0)]) == Cost(root, 0);
  }
}
