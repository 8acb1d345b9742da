/** Which valid trees fully annotated text gives back: the reader's limits count the wrappers too
    (src/weave_frontend/sexpr.py). */
module AnnotatedLimits {
  import opened Prelude
  import opened Chars
  import opened Lexer
  import opened Trees
  import opened Atoms
  import opened Validity
  import opened Parser
  import opened Printer
  import opened Layout
  import opened RoundTrip
  import opened AnnotatedTrip

  // ----- what a reader that succeeds has counted

  /** The tokens that begin a node. */
  function Nodes(toks: seq<Token>): nat {
    if toks == [] then 0 else (if toks[0].RParen? then 0 else 1) + Nodes(toks[1..])
  }

  /** A token that begins a node is within the limits at its depth. */
  predicate Fits(token: Token, depth: int) {
    match token
    case LParen => depth <= MAX_TREE_DEPTH
    case Atom(text) => depth <= MAX_TREE_DEPTH && AtomBytes(ParseAtom(text)) <= MAX_ATOM_VALUE_BYTES
    case _ => true
  }

  function Below(token: Token, depth: int): int {
    if token.LParen? then depth + 1 else if token.RParen? then depth - 1 else depth
  }

  predicate AllFit(toks: seq<Token>, depth: int) {
    toks != [] ==> Fits(toks[0], depth) && AllFit(toks[1..], Below(toks[0], depth))
  }

  lemma {:induction false} OneCounted(toks: seq<Token>, depth: nat, count: nat, newId: Supply)
    requires ParseOne(toks, depth, count, newId).Ok?
    ensures var p := ParseOne(toks, depth, count, newId).value;
      p.count + Nodes(p.rest) == count + Nodes(toks) && p.count <= MAX_TREE_NODES && (AllFit(p.rest, depth) ==> AllFit(toks, depth))
    decreases |toks|, 0
  {
    if toks[0].LParen? {
      KidsCounted(toks[1..], depth + 1, count, newId);
    }
  }

  lemma {:induction false} KidsCounted(toks: seq<Token>, depth: nat, count: nat, newId: Supply)
    requires ParseKids(toks, depth, count, newId).Ok?
    ensures var p := ParseKids(toks, depth, count, newId).value;
      p.count + Nodes(p.rest) == count + Nodes(toks) && (AllFit(p.rest, depth - 1) ==> AllFit(toks, depth))
    decreases |toks|, 1
  {
    if !toks[0].RParen? {
      var first := ParseOne(toks, depth, count, newId).value;
      OneCounted(toks, depth, count, newId);
      KidsCounted(first.rest, depth, first.count, newId);
    }
  }

  // ----- what wrapped tokens count

  lemma {:induction false} NodesAdd(a: seq<Token>, b: seq<Token>)
    ensures Nodes(a + b) == Nodes(a) + Nodes(b)
    decreases |a|
  {
    if a == [] {
      assert a + b == b;
    } else {
      NodesAdd(a[1..], b);
      assert (a + b)[1..] == a[1..] + b;
    }
  }

  lemma {:induction false} WrapCounts(t: Tree)
    ensures Nodes(Wrap(t.id, Core(t))) == 3 * Size(t)
    decreases t, 1
  {
    var core := Core(t);
    WrapNodes(t.id, core);
    if t.List? {
      WrapAllCounts(t.children);
      WrapNodes("", []);
      ListNodes(WrapAll(t.children));
    }
  }

  lemma WrapNodes(id: NodeId, core: seq<Token>)
    ensures Nodes(Wrap(id, core)) == 2 + Nodes(core)
  {
    NodesAdd([LParen, Lexer.Atom("@" + id)], core);
    NodesAdd([LParen, Lexer.Atom("@" + id)] + core, [RParen]);
  }

  lemma ListNodes(kids: seq<Token>)
    ensures Nodes([LParen] + kids + [RParen]) == 1 + Nodes(kids)
  {
    NodesAdd([LParen], kids);
    NodesAdd([LParen] + kids, [RParen]);
  }

  lemma {:induction false} WrapAllCounts(ts: seq<Tree>)
    ensures Nodes(WrapAll(ts)) == 3 * SizeOf(ts)
    decreases ts, 0
  {
    if ts != [] {
      var init, last := ts[..|ts| - 1], ts[|ts| - 1];
      WrapAllCounts(init);
      WrapCounts(last);
      NodesAdd(WrapAll(init), Wrap(last.id, Core(last)));
    }
  }

  lemma WrapperFit(id: NodeId, core: seq<Token>, rest: seq<Token>, depth: nat)
    requires CleanId(id) && AllFit(Wrap(id, core) + rest, depth)
    ensures depth + 1 <= MAX_TREE_DEPTH && Utf8("@" + id) <= MAX_ATOM_VALUE_BYTES
    ensures AllFit(core + ([RParen] + rest), depth + 1)
  {
    hide CleanId;
    hide ParseAtom;
    hide Utf8;
    var toks, inner := Wrap(id, core) + rest, [Lexer.Atom("@" + id)] + (core + ([RParen] + rest));
    WrapSplit(id, core, rest);
    CleanIdWord(id);
    assert toks[1..] == inner && inner[1..] == core + ([RParen] + rest);
    assert AllFit(inner, depth + 1);
  }

  lemma ClosedFit(rest: seq<Token>, depth: int)
    requires AllFit([RParen] + rest, depth + 1)
    ensures AllFit(rest, depth)
  {
    assert ([RParen] + rest)[1..] == rest;
  }

  lemma {:induction false} WrapFit(t: Tree, rest: seq<Token>, depth: nat)
    requires CleanIds(t) && AllFit(Wrap(t.id, Core(t)) + rest, depth)
    ensures WrapFits(t, depth) && AllFit(rest, depth)
    decreases t, 1
  {
    hide CleanId;
    hide Wrap;
    hide Core;
    hide AllFit;
    var tail := [RParen] + rest;
    WrapperFit(t.id, Core(t), rest, depth);
    if t.List? {
      CoreFit(t, tail, depth + 1);
      WrapAllFit(t.children, [RParen] + tail, depth + 2);
      ClosedFit(tail, depth + 1);
    } else {
      CoreFit(t, tail, depth + 1);
    }
    ClosedFit(rest, depth);
  }

  lemma CoreFit(t: Tree, tail: seq<Token>, depth: nat)
    requires AllFit(Core(t) + tail, depth)
    ensures if t.Leaf? then AllFit(tail, depth) else AllFit(WrapAll(t.children) + ([RParen] + tail), depth + 1)
  {
    if t.List? {
      CoreTokens(t, tail);
    } else {
      assert (Core(t) + tail)[1..] == tail;
    }
  }

  lemma {:induction false} WrapAllFit(ts: seq<Tree>, rest: seq<Token>, depth: nat)
    requires (forall i :: 0 <= i < |ts| ==> CleanIds(ts[i])) && AllFit(WrapAll(ts) + rest, depth)
    ensures (forall i :: 0 <= i < |ts| ==> WrapFits(ts[i], depth)) && AllFit(rest, depth)
    decreases ts, 0
  {
    if ts == [] {
      assert WrapAll(ts) + rest == rest;
    } else {
      WrapFront(ts);
      Assoc(Wrap(ts[0].id, Core(ts[0])), WrapAll(ts[1..]), rest);
      WrapFit(ts[0], WrapAll(ts[1..]) + rest, depth);
      WrapAllFit(ts[1..], rest, depth);
    }
  }

  // ----- the theorem

  /** The reader's limits for the annotated text of a tree. */
  predicate AnnotatedFits(t: Tree) {
    WrapFits(t, 0) && 3 * Size(t) <= MAX_TREE_NODES && Utf8(Annotated(t, 0, true)) <= MAX_SOURCE_BYTES
  }

  lemma ReadFits(t: Tree, newId: Supply)
    requires Printable(t) && CleanIds(t) && ParseSource(Annotated(t, 0, true), newId).Ok?
    ensures AnnotatedFits(t)
  {
    hide Annotated;
    hide Core;
    hide Wrap;
    hide ParseOne;
    var source, toks := Annotated(t, 0, true), Wrap(t.id, Core(t));
    ReadsAnnotated(t, 0);
    LexReads(source, toks, "");
    assert source + "" == source && toks + Lex("") == toks && toks + [] == toks;
    OneCounted(toks, 0, 0, newId);
    WrapCounts(t);
    WrapFit(t, [], 0);
  }

  /** Fully annotated text gives a valid tree back exactly when the tree is printable, its wrapped text is
      within the reader's limits, and no id ends in a newline, which the id pattern also accepts. */
  lemma AnnotatedExactly(t: Tree, newId: Supply)
    requires ValidTree(t) && GoodSupply(newId)
    ensures ParseSource(Annotated(t, 0, true), newId) == Ok(t) <==> Printable(t) && CleanIds(t) && AnnotatedFits(t)
  {
    var source := Annotated(t, 0, true);
    if ParseSource(source, newId) == Ok(t) {
      ReadIsPrintable(source, newId);
      SourceWords(source);
      ReadClean(Lex(source), 0, 0, newId);
      OneLineClean(t);
      ReadFits(t, newId);
    }
    if Printable(t) && CleanIds(t) && AnnotatedFits(t) {
      AnnotateThenRead(t, newId);
    }
  }

  /** A valid, printable tree whose id ends in a newline: its annotated text reads as another tree. */
  lemma NewlineIdLost(newId: Supply)
    returns (t: Tree)
    requires GoodSupply(newId)
    ensures ValidTree(t) && Printable(t) && AnnotatedFits(t) && t.id == "n_a\n"
    ensures ParseSource(Annotated(t, 0, true), newId) != Ok(t)
  {
    t := Leaf("n_a\n", Boolean(true));
    assert t.id[..3] == "n_a" && CleanId("n_a");
    assert "@" + t.id == "@n_a\n";
    TextBytes("@" + t.id);
    TextBytes(Annotated(t, 0, true));
    AnnotatedExactly(t, newId);
  }

  // ----- a valid tree that is too deep for its annotated text

  function Id(n: nat): NodeId {
    "n_" + seq(n + 1, i => 'a')
  }

  function Chain(n: nat): Tree {
    if n == 0 then Leaf(Id(0), Boolean(true)) else List(Id(n), [Chain(n - 1)])
  }

  lemma {:induction false} ChainIds(n: nat)
    ensures Unique(Chain(n)) && forall x :: x in IdSet(Chain(n)) ==> |x| <= n + 3
  {
    if n > 0 {
      var kids := [Chain(n - 1)];
      ChainIds(n - 1);
      assert kids[0] == Chain(n - 1) && IdSetOf(kids) == IdSet(kids[0]);
    }
  }

  lemma {:induction false} ChainSizes(n: nat)
    ensures NodesOk(Chain(n)) && Shallow(Chain(n), n) && Size(Chain(n)) == n + 1 && ValueBytes(Chain(n)) == 4
    ensures Printable(Chain(n))
  {
    assert CleanId(Id(n));
    if n > 0 {
      var kids := [Chain(n - 1)];
      ChainSizes(n - 1);
      assert kids[0] == Chain(n - 1) && kids[..0] == [];
      assert SizeOf(kids) == SizeOf(kids[..0]) + Size(kids[0]);
      assert ValueBytesOf(kids) == ValueBytesOf(kids[..0]) + ValueBytes(kids[0]);
    }
  }

  lemma {:induction false} ChainDepth(n: nat, depth: nat)
    requires WrapFits(Chain(n), depth)
    ensures depth + 2 * n + 1 <= MAX_TREE_DEPTH
    decreases n
  {
    if n > 0 {
      assert Chain(n).children[0] == Chain(n - 1);
      ChainDepth(n - 1, depth + 2);
    }
  }

  /** A valid, printable tree of 301 nested nodes: its annotated text is too deep to be read. */
  lemma DeepTreeLost(newId: Supply)
    returns (t: Tree)
    requires GoodSupply(newId)
    ensures t == Chain(300) && ValidTree(t) && Printable(t)
    ensures ParseSource(Annotated(t, 0, true), newId) != Ok(t)
  {
    t := Chain(300);
    ChainIds(300);
    ChainSizes(300);
    hide Chain;
    ShallowMore(t, 300, MAX_TREE_DEPTH);
    if AnnotatedFits(t) {
      ChainDepth(300, 0);
    }
    AnnotatedExactly(t, newId);
  }
}
