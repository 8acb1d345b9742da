/** Text that annotates every node reads back as exactly the same tree, ids included. */
module AnnotatedTrip {
  import opened Prelude
  import opened Chars
  import opened Lexer
  import opened Trees
  import opened Atoms
  import opened Validity
  import opened Parser
  import opened Printer
  import opened Layout
  import opened RoundTrip

  // The wrapper tokens around a node, and the node's own tokens inside them.
  function Wrap(id: NodeId, core: seq<Token>): seq<Token> {
    [LParen, Lexer.Atom("@" + id)] + core + [RParen]
  }

  function Core(t: Tree): seq<Token>
    decreases t, 1
  {
    match t
    case Leaf(_, atom) => [TokenOf(atom)]
    case List(_, children) => [LParen] + WrapAll(children) + [RParen]
  }

  function WrapAll(ts: seq<Tree>): seq<Token>
    decreases ts, 0
  {
    if ts == [] then [] else WrapAll(ts[..|ts| - 1]) + Wrap(ts[|ts| - 1].id, Core(ts[|ts| - 1]))
  }

  predicate CleanIds(t: Tree) {
    CleanId(t.id) && (t.List? ==> forall i :: 0 <= i < |t.children| ==> CleanIds(t.children[i]))
  }

  // ----- annotated text lays out the wrapper tokens

  lemma CleanIdWord(id: NodeId)
    requires CleanId(id)
    ensures IsWord("@" + id) && "@n_" <= "@" + id && !IsInteger("@" + id) && !IsFloat("@" + id)
    ensures AtomPrintable(Symbol("@" + id)) && ParseAtom("@" + id) == Symbol("@" + id)
  {
    var w := "@" + id;
    forall i | 0 <= i < |w| ensures !EndsAtom(w[i]) {
      if i > 0 {
        assert w[i] == id[i - 1];
      }
    }
    assert w[0] == '@' && StripSign(w) == w && DigitLen(w) == 0;
    assert w != "true" && w != "false" by {
      assert "true"[0] != '@' && "false"[0] != '@';
    }
    assert w[0] == "@n_"[0] && w[1] == "@n_"[1] && w[2] == "@n_"[2];
  }

  lemma ReadsWrapped(id: NodeId, text: string, core: seq<Token>)
    requires CleanId(id) && Reads(text, core)
    ensures Reads("(@" + id + " " + text + ")", Wrap(id, core))
  {
    var head := "@" + id;
    hide Reads;
    CleanIdWord(id);
    ReadsWord(Lexer.Atom(head), head);
    LineBreakSpaces(0);
    assert IsSpace(' ');
    ReadsJoin(head, [Lexer.Atom(head)], " ", text, core);
    ReadsParens(head + " " + text, [Lexer.Atom(head)] + core);
    WrapParts(id, text, core);
  }

  lemma WrapParts(id: NodeId, text: string, core: seq<Token>)
    ensures "(" + ("@" + id + " " + text) + ")" == "(@" + id + " " + text + ")"
    ensures [LParen] + ([Lexer.Atom("@" + id)] + core) + [RParen] == Wrap(id, core)
  {
  }

  function Flatten(tokss: seq<seq<Token>>): seq<Token> {
    if tokss == [] then [] else Flatten(tokss[..|tokss| - 1]) + tokss[|tokss| - 1]
  }

  ghost predicate ReadsEach(texts: seq<string>, tokss: seq<seq<Token>>) {
    |texts| == |tokss| && forall i :: 0 <= i < |texts| ==> Reads(texts[i], tokss[i])
  }

  lemma {:induction false} ReadsJoined(texts: seq<string>, tokss: seq<seq<Token>>)
    requires ReadsEach(texts, tokss) && texts != []
    ensures Reads(Join(texts, " "), Flatten(tokss))
    decreases |texts|
  {
    var n := |texts| - 1;
    if n == 0 {
      assert tokss[..0] == [] && Flatten(tokss[..0]) + tokss[0] == tokss[0];
    } else {
      assert ReadsEach(texts[..n], tokss[..n]);
      ReadsJoined(texts[..n], tokss[..n]);
      ReadsJoin(Join(texts[..n], " "), Flatten(tokss[..n]), " ", texts[n], tokss[n]);
    }
  }

  // The head on the first line, every other child re-indented on its own line.
  lemma {:induction false} ReadsAligned(texts: seq<string>, tokss: seq<seq<Token>>, pad: nat)
    requires ReadsEach(texts, tokss) && |texts| > 1
    ensures Reads(Spread(texts, pad), Flatten(tokss))
    decreases |texts|
  {
    var n := |texts| - 1;
    if n > 1 {
      assert ReadsEach(texts[..n], tokss[..n]);
      ReadsAligned(texts[..n], tokss[..n], pad);
    } else {
      assert tokss[..1][..0] == [] && tokss[..1][0] == tokss[0];
      assert Flatten(tokss[..1]) == Flatten(tokss[..1][..0]) + tokss[0] == tokss[0];
    }
    ReadsReindent(texts[n], tokss[n], Spaces(pad)) by {
      LineBreakSpaces(pad);
    }
    hide Reads;
    SpreadMore(texts, pad);
    LineBreakSpaces(pad);
    var before := if n > 1 then Spread(texts[..n], pad) else texts[0];
    ReadsJoin(before, Flatten(tokss[..n]), "\n" + Spaces(pad), Reindent(texts[n], Spaces(pad)), tokss[n]);
  }

  function Spread(texts: seq<string>, pad: nat): string
    requires texts != []
  {
    texts[0] + "\n" + Join(Aligned(texts[1..], Spaces(pad)), "\n")
  }

  lemma SpreadMore(texts: seq<string>, pad: nat)
    requires |texts| > 1
    ensures var n := |texts| - 1;
      Spread(texts, pad) ==
      (if n > 1 then Spread(texts[..n], pad) else texts[0]) + ("\n" + Spaces(pad)) + Reindent(texts[n], Spaces(pad))
  {
    var n := |texts| - 1;
    var last := Reindent(texts[n], Spaces(pad));
    if n == 1 {
      AlignedOne(texts[1..], pad);
      assert texts[0] + "\n" + (Spaces(pad) + last) == texts[0] + ("\n" + Spaces(pad)) + last;
    } else {
      AlignedMore(texts[1..], pad);
      assert texts[1..][..n - 1] == texts[..n][1..];
      Breaks(texts[0], Join(Aligned(texts[..n][1..], Spaces(pad)), "\n"), Spaces(pad), last);
    }
  }

  lemma Breaks(head: string, before: string, pad: string, last: string)
    ensures head + "\n" + (before + "\n" + (pad + last)) == head + "\n" + before + ("\n" + pad) + last
  {
  }

  lemma AlignedOne(texts: seq<string>, pad: nat)
    requires |texts| == 1
    ensures Join(Aligned(texts, Spaces(pad)), "\n") == Spaces(pad) + Reindent(texts[0], Spaces(pad))
  {
    assert texts[..0] == [];
    assert Aligned(texts, Spaces(pad)) == [Spaces(pad) + Reindent(texts[0], Spaces(pad))];
  }

  lemma {:induction false} AlignedLength(texts: seq<string>, pad: string)
    ensures |Aligned(texts, pad)| == |texts|
  {
    if texts != [] {
      AlignedLength(texts[..|texts| - 1], pad);
    }
  }

  lemma AlignedMore(texts: seq<string>, pad: nat)
    requires |texts| > 1
    ensures var n := |texts| - 1;
      Join(Aligned(texts, Spaces(pad)), "\n") ==
      Join(Aligned(texts[..n], Spaces(pad)), "\n") + "\n" + (Spaces(pad) + Reindent(texts[n], Spaces(pad)))
  {
    AlignedLength(texts, Spaces(pad));
    var all := Aligned(texts, Spaces(pad));
    assert all[..|all| - 1] == Aligned(texts[..|texts| - 1], Spaces(pad));
  }

  lemma ReadsCore(texts: seq<string>, tokss: seq<seq<Token>>, indent: nat)
    requires ReadsEach(texts, tokss)
    ensures Reads(AnnotatedCore(texts, indent), [LParen] + Flatten(tokss) + [RParen])
  {
    hide Reads;
    if texts == [] {
      ReadsEmpty();
      assert [LParen] + Flatten(tokss) + [RParen] == [LParen, RParen];
    } else {
      ReadsJoined(texts, tokss);
      ReadsParens(Join(texts, " "), Flatten(tokss));
      if |texts| > 1 {
        ReadsSpread(texts, tokss, indent + 2);
      }
      hide Flatten;
      hide Aligned;
      hide ReadsEach;
      hide Spaces;
    }
  }

  lemma ReadsSpread(texts: seq<string>, tokss: seq<seq<Token>>, pad: nat)
    requires ReadsEach(texts, tokss) && |texts| > 1
    ensures Reads("(" + texts[0] + "\n" + Join(Aligned(texts[1..], Spaces(pad)), "\n") + ")", [LParen] + Flatten(tokss) + [RParen])
  {
    hide Reads;
    var body := Join(Aligned(texts[1..], Spaces(pad)), "\n");
    ReadsAligned(texts, tokss, pad);
    ReadsParens(Spread(texts, pad), Flatten(tokss));
    assert Spread(texts, pad) == texts[0] + "\n" + body;
    hide *;
    assert "(" + (texts[0] + "\n" + body) + ")" == "(" + texts[0] + "\n" + body + ")";
  }

  function KidTokens(ts: seq<Tree>): (r: seq<seq<Token>>)
    ensures |r| == |ts|
  {
    if ts == [] then [] else KidTokens(ts[..|ts| - 1]) + [Wrap(ts[|ts| - 1].id, Core(ts[|ts| - 1]))]
  }

  lemma {:induction false} KidTokensFlatten(ts: seq<Tree>)
    ensures Flatten(KidTokens(ts)) == WrapAll(ts)
  {
    if ts != [] {
      KidTokensFlatten(ts[..|ts| - 1]);
      assert KidTokens(ts)[..|ts| - 1] == KidTokens(ts[..|ts| - 1]);
    }
  }

  /** The annotated text reads as the wrapped tokens, whatever its layout. */
  lemma {:induction false} ReadsAnnotated(t: Tree, indent: nat)
    requires Printable(t) && CleanIds(t)
    ensures Reads(Annotated(t, indent, true), Wrap(t.id, Core(t)))
    decreases t, 1
  {
    if t.Leaf? {
      ReadsAtom(t.atom);
      ReadsWrapped(t.id, AtomText(t.atom), Core(t));
    } else {
      var texts := AnnotatedKids(t.children, indent + 2, true);
      var core := AnnotatedCore(texts, indent);
      ReadsKids(t.children, indent + 2);
      ReadsCore(texts, KidTokens(t.children), indent);
      KidTokensFlatten(t.children);
      LineBreakSpaces(indent + 2);
      ReadsReindent(core, Core(t), Spaces(indent + 2));
      ReadsWrapped(t.id, Reindent(core, Spaces(indent + 2)), Core(t));
    }
  }

  lemma {:induction false} ReadsKids(ts: seq<Tree>, indent: nat)
    requires forall i :: 0 <= i < |ts| ==> Printable(ts[i]) && CleanIds(ts[i])
    ensures ReadsEach(AnnotatedKids(ts, indent, true), KidTokens(ts))
    decreases ts, 0
  {
    if ts != [] {
      ReadsKids(ts[..|ts| - 1], indent);
      ReadsAnnotated(ts[|ts| - 1], indent);
    }
  }

  // ----- reading wrapped tokens

  /** The annotated text of a tree stays within the reader's limits: three parsed nodes and two levels
      for each node, and ids short enough to be symbols. */
  predicate WrapFits(t: Tree, depth: nat) {
    && depth + 1 <= MAX_TREE_DEPTH
    && Utf8("@" + t.id) <= MAX_ATOM_VALUE_BYTES
    && (t.List? ==> forall i :: 0 <= i < |t.children| ==> WrapFits(t.children[i], depth + 2))
  }

  // What reading a wrapped tree needs of the tree and the counters.
  ghost predicate Rewrappable(t: Tree, depth: nat, count: nat) {
    && Printable(t) && CleanIds(t) && ValidTree(t) && WrapFits(t, depth) && count + 3 * Size(t) <= MAX_TREE_NODES
  }

  lemma ParseId(id: NodeId, rest: seq<Token>, depth: nat, count: nat, newId: Supply)
    requires CleanId(id) && Utf8("@" + id) <= MAX_ATOM_VALUE_BYTES && depth <= MAX_TREE_DEPTH && count < MAX_TREE_NODES
    ensures ParseOne([Lexer.Atom("@" + id)] + rest, depth, count, newId) ==
      Ok(Parsed(Leaf(newId(count), Symbol("@" + id)), rest, count + 1))
  {
    hide ParseOne;
    hide CleanId;
    hide IsWord;
    CleanIdWord(id);
    ParseAtomToken(Symbol("@" + id), rest, depth, count, newId);
  }

  // Reading one wrapper around tokens that read as a node of the right shape.
  lemma ParseWrapper(t: Tree, node: Tree, core: seq<Token>, rest: seq<Token>, depth: nat, count: nat, next: nat, newId: Supply)
    requires CleanId(t.id) && ValidTree(t) && WithId(node, t.id) == t
    requires depth + 1 <= MAX_TREE_DEPTH && Utf8("@" + t.id) <= MAX_ATOM_VALUE_BYTES
    requires count < MAX_TREE_NODES && next < MAX_TREE_NODES
    requires core != [] && !core[0].RParen? && !core[0].Bad?
    requires ParseOne(core + ([RParen] + rest), depth + 1, count + 1, newId) == Ok(Parsed(node, [RParen] + rest, next))
    ensures ParseOne(Wrap(t.id, core) + rest, depth, count, newId) == Ok(Parsed(t, rest, next + 1))
  {
    var id := Lexer.Atom("@" + t.id);
    var symbol := Leaf(newId(count), Symbol("@" + t.id));
    var tail := [RParen] + rest;
    var inner := core + tail;
    ParseId(t.id, inner, depth + 1, count, newId);
    var toks := Wrap(t.id, core) + rest;
    WrapSplit(t.id, core, rest);
    hide ParseOne;
    hide ParseKids;
    hide ValidTree;
    hide Wrap;
    assert CloseList(ParsedKids([symbol, node], rest, next), depth, newId) == Ok(Parsed(t, rest, next + 1)) by {
      CloseWrapper(t, node, symbol, rest, depth, next, newId);
    }
    hide CloseList;
    assert inner[0] == core[0];
    KidsTwo([id] + inner, depth + 1, count, newId, symbol, inner, node, tail, next);
    ParseList(toks, depth, count, newId, ParsedKids([symbol, node], rest, next));
  }

  lemma WrapSplit(id: NodeId, core: seq<Token>, rest: seq<Token>)
    ensures var toks, tail := Wrap(id, core) + rest, [RParen] + rest;
      toks[0] == LParen && toks[1..] == [Lexer.Atom("@" + id)] + (core + tail) && tail[1..] == rest
  {
  }

  lemma CloseWrapper(t: Tree, node: Tree, symbol: Tree, rest: seq<Token>, depth: nat, next: nat, newId: Supply)
    requires CleanId(t.id) && ValidTree(t) && WithId(node, t.id) == t && depth <= MAX_TREE_DEPTH && next < MAX_TREE_NODES
    requires symbol.Leaf? && symbol.atom == Symbol("@" + t.id)
    ensures CloseList(ParsedKids([symbol, node], rest, next), depth, newId) == Ok(Parsed(t, rest, next + 1))
  {
    hide ValidTree;
    hide CleanId;
    hide IsWord;
    hide AtomPrintable;
    hide ParseAtom;
    hide IsInteger;
    hide IsFloat;
    CleanIdWord(t.id);
    assert ("@" + t.id)[1..] == t.id;
  }

  lemma KidsTwo(toks: seq<Token>, depth: nat, count: nat, newId: Supply, a: Tree, afterA: seq<Token>, b: Tree, afterB: seq<Token>, next: nat)
    requires toks != [] && !toks[0].RParen? && !toks[0].Bad?
    requires afterA != [] && !afterA[0].RParen? && !afterA[0].Bad?
    requires afterB != [] && afterB[0].RParen?
    requires ParseOne(toks, depth, count, newId) == Ok(Parsed(a, afterA, count + 1))
    requires ParseOne(afterA, depth, count + 1, newId) == Ok(Parsed(b, afterB, next))
    ensures ParseKids(toks, depth, count, newId) == Ok(ParsedKids([a, b], afterB[1..], next))
  {
    hide ParseOne;
    assert ParseKids(afterB, depth, next, newId) == Ok(ParsedKids([], afterB[1..], next));
    hide ParseKids;
    KidsStep(afterA, depth, count + 1, newId, b, afterB, next, ParsedKids([], afterB[1..], next));
    assert [b] + [] == [b] && [a] + [b] == [a, b];
    KidsStep(toks, depth, count, newId, a, afterA, count + 1, ParsedKids([b], afterB[1..], next));
  }

  lemma {:induction false} WrapFront(ts: seq<Tree>)
    requires ts != []
    ensures WrapAll(ts) == Wrap(ts[0].id, Core(ts[0])) + WrapAll(ts[1..])
    decreases |ts|
  {
    if |ts| == 1 {
      assert ts[..0] == [];
      assert WrapAll(ts[..0]) + Wrap(ts[0].id, Core(ts[0])) == Wrap(ts[0].id, Core(ts[0])) + WrapAll(ts[1..]);
    } else {
      var init, last := ts[..|ts| - 1], ts[|ts| - 1];
      WrapFront(init);
      assert init[1..] == ts[1..][..|ts| - 2];
      Assoc(Wrap(ts[0].id, Core(ts[0])), WrapAll(init[1..]), Wrap(last.id, Core(last)));
    }
  }

  /** Reading the wrapped tokens gives exactly the tree. */
  lemma {:induction false} ParseWrapped(t: Tree, rest: seq<Token>, depth: nat, count: nat, newId: Supply)
    requires Rewrappable(t, depth, count)
    ensures ParseOne(Wrap(t.id, Core(t)) + rest, depth, count, newId) == Ok(Parsed(t, rest, count + 3 * Size(t)))
    decreases t, 1
  {
    hide ParseOne;
    hide ParseKids;
    hide ValidTree;
    hide Wrap;
    hide Core;
    hide Rewrappable;
    hide Printable;
    hide CleanIds;
    hide WrapFits;
    hide Collapses;
    if t.Leaf? {
      LeafSize(t);
      ParseWrappedLeaf(t, rest, depth, count, newId);
    } else {
      var tail := [RParen] + rest;
      var next := count + 1 + 3 * SizeOf(t.children);
      RewrappableList(t, depth, count);
      ParseWrappedKids(t.children, tail, depth + 2, count + 1, newId);
      ParseListCore(t, tail, depth + 1, count + 1, next, newId);
      CoreHead(t);
      ParseWrapper(t, List(newId(next), t.children), Core(t), rest, depth, count, next + 1, newId);
    }
  }

  // What a list that can be read back asks of itself and its children.
  lemma RewrappableList(t: Tree, depth: nat, count: nat)
    requires Rewrappable(t, depth, count) && t.List?
    ensures forall i :: 0 <= i < |t.children| ==>
      Printable(t.children[i]) && CleanIds(t.children[i]) && ValidTree(t.children[i]) && WrapFits(t.children[i], depth + 2)
    ensures ValidTree(t) && CleanId(t.id) && !Collapses(t.children) && depth + 1 <= MAX_TREE_DEPTH
    ensures Utf8("@" + t.id) <= MAX_ATOM_VALUE_BYTES && Size(t) == 1 + SizeOf(t.children) && count + 3 * Size(t) <= MAX_TREE_NODES
  {
    hide ValidTree;
    forall i | 0 <= i < |t.children| ensures ValidTree(t.children[i]) {
      ChildValid(t, i);
    }
  }

  lemma CoreHead(t: Tree)
    requires t.List?
    ensures Core(t) != [] && Core(t)[0] == LParen
  {
  }

  lemma LeafSize(t: Tree)
    requires t.Leaf?
    ensures Size(t) == 1
  {
  }

  lemma ParseWrappedLeaf(t: Tree, rest: seq<Token>, depth: nat, count: nat, newId: Supply)
    requires Rewrappable(t, depth, count) && t.Leaf?
    ensures ParseOne(Wrap(t.id, Core(t)) + rest, depth, count, newId) == Ok(Parsed(t, rest, count + 3))
  {
    hide ParseOne;
    hide ParseKids;
    hide Unique;
    ParseAtomToken(t.atom, [RParen] + rest, depth + 1, count + 1, newId);
    ParseWrapper(t, Leaf(newId(count + 1), t.atom), Core(t), rest, depth, count, count + 2, newId);
  }

  // The list inside a wrapper, its children read.
  lemma ParseListCore(t: Tree, tail: seq<Token>, depth: nat, count: nat, next: nat, newId: Supply)
    requires t.List? && !Collapses(t.children) && depth <= MAX_TREE_DEPTH && next < MAX_TREE_NODES
    requires ParseKids(WrapAll(t.children) + ([RParen] + tail), depth + 1, count, newId) == Ok(ParsedKids(t.children, tail, next))
    ensures ParseOne(Core(t) + tail, depth, count, newId) == Ok(Parsed(List(newId(next), t.children), tail, next + 1))
  {
    hide ParseOne;
    hide ParseKids;
    hide WrapAll;
    hide Core;
    CoreTokens(t, tail);
    ParseList(Core(t) + tail, depth, count, newId, ParsedKids(t.children, tail, next));
  }

  lemma CoreTokens(t: Tree, tail: seq<Token>)
    requires t.List?
    ensures Core(t) + tail != [] && (Core(t) + tail)[0] == LParen && (Core(t) + tail)[1..] == WrapAll(t.children) + ([RParen] + tail)
  {
  }

  lemma {:induction false} ParseWrappedKids(ts: seq<Tree>, rest: seq<Token>, depth: nat, count: nat, newId: Supply)
    requires count + 3 * SizeOf(ts) <= MAX_TREE_NODES
    requires forall i :: 0 <= i < |ts| ==> Printable(ts[i]) && CleanIds(ts[i]) && ValidTree(ts[i]) && WrapFits(ts[i], depth)
    ensures ParseKids(WrapAll(ts) + ([RParen] + rest), depth, count, newId) ==
      Ok(ParsedKids(ts, rest, count + 3 * SizeOf(ts)))
    decreases ts, 0
  {
    hide ParseKids;
    hide ParseOne;
    hide ValidTree;
    hide Printable;
    hide CleanIds;
    hide WrapFits;
    hide Core;
    hide Wrap;
    if ts == [] {
      KidsEmpty(rest, depth, count, newId);
      return;
    }
    var first := Wrap(ts[0].id, Core(ts[0]));
    WrapFront(ts);
    SizeFront(ts);
    ParseWrapped(ts[0], WrapAll(ts[1..]) + ([RParen] + rest), depth, count, newId);
    ParseWrappedKids(ts[1..], rest, depth, count + 3 * Size(ts[0]), newId);
    WrapHead(ts[0].id, Core(ts[0]));
    KidsFront(first, WrapAll(ts[1..]), [RParen] + rest, depth, count, newId, ts[0],
              count + 3 * Size(ts[0]), ParsedKids(ts[1..], rest, count + 3 * SizeOf(ts)));
    assert [ts[0]] + ts[1..] == ts;
  }

  lemma WrapHead(id: NodeId, core: seq<Token>)
    ensures Wrap(id, core) != [] && Wrap(id, core)[0] == LParen
  {
  }

  // ----- ids in whatever is read

  lemma {:induction false} ReadClean(toks: seq<Token>, depth: nat, count: nat, newId: Supply)
    requires Words(toks) && GoodSupply(newId) && ParseOne(toks, depth, count, newId).Ok?
    ensures OneLineIds(ParseOne(toks, depth, count, newId).value.node) && Words(ParseOne(toks, depth, count, newId).value.rest)
    ensures SymbolsOneLine(ParseOne(toks, depth, count, newId).value.node)
    decreases |toks|, 0
  {
    match toks[0]
    case LParen =>
      assert Words(toks[1..]);
      ReadKidsClean(toks[1..], depth + 1, count, newId);
      var kids := ParseKids(toks[1..], depth + 1, count, newId).value;
      CloseListClean(kids, depth, newId);
      hide ParseKids;
    case Atom(text) =>
      assert '\n' !in text by {
        assert EndsAtom('\n');
      }
      SupplyOneLine(newId, count);
    case _ =>
      SupplyOneLine(newId, count);
  }

  /** No id holds a newline. */
  predicate OneLineIds(t: Tree) {
    '\n' !in t.id && (t.List? ==> forall i :: 0 <= i < |t.children| ==> OneLineIds(t.children[i]))
  }

  predicate SymbolsOneLine(t: Tree) {
    t.Leaf? && t.atom.Symbol? ==> '\n' !in t.atom.name
  }

  lemma SupplyOneLine(newId: Supply, n: nat)
    requires GoodSupply(newId)
    ensures '\n' !in newId(n)
  {
    var id := newId(n);
    assert CleanId(id);
    forall i | 0 <= i < |id| ensures id[i] != '\n' {
      if i >= 2 {
        assert IdChar(id[i]);
      }
    }
  }

  lemma CloseListClean(kids: ParsedKids, depth: nat, newId: Supply)
    requires (forall i :: 0 <= i < |kids.nodes| ==> OneLineIds(kids.nodes[i]) && SymbolsOneLine(kids.nodes[i]))
    requires GoodSupply(newId) && CloseList(kids, depth, newId).Ok?
    ensures OneLineIds(CloseList(kids, depth, newId).value.node) && SymbolsOneLine(CloseList(kids, depth, newId).value.node)
    ensures CloseList(kids, depth, newId).value.rest == kids.rest
  {
    SupplyOneLine(newId, kids.count);
    hide ValidTree;
  }

  lemma {:induction false} ReadKidsClean(toks: seq<Token>, depth: nat, count: nat, newId: Supply)
    requires Words(toks) && GoodSupply(newId) && ParseKids(toks, depth, count, newId).Ok?
    ensures var kids := ParseKids(toks, depth, count, newId).value;
      Words(kids.rest) && forall i :: 0 <= i < |kids.nodes| ==> OneLineIds(kids.nodes[i]) && SymbolsOneLine(kids.nodes[i])
    decreases |toks|, 1
  {
    if !toks[0].RParen? {
      var first := ParseOne(toks, depth, count, newId).value;
      ReadClean(toks, depth, count, newId);
      hide ParseOne;
      ReadKidsClean(first.rest, depth, first.count, newId);
    }
  }

  lemma {:induction false} OneLineClean(t: Tree)
    requires NodesOk(t) && OneLineIds(t)
    ensures CleanIds(t)
    decreases t
  {
    assert t.id != "" ==> t.id[|t.id| - 1] in t.id;
    if t.List? {
      forall i | 0 <= i < |t.children| ensures CleanIds(t.children[i]) {
        OneLineClean(t.children[i]);
      }
    }
  }

  // ----- the theorems

  /** Reading fully annotated text gives exactly the tree, every id included. */
  lemma AnnotateThenRead(t: Tree, newId: Supply)
    requires ValidTree(t) && Printable(t) && CleanIds(t)
    requires WrapFits(t, 0) && 3 * Size(t) <= MAX_TREE_NODES && Utf8(Annotated(t, 0, true)) <= MAX_SOURCE_BYTES
    ensures ParseSource(Annotated(t, 0, true), newId) == Ok(t)
  {
    var source, toks := Annotated(t, 0, true), Wrap(t.id, Core(t));
    ReadsAnnotated(t, 0);
    LexReads(source, toks, "");
    ParseWrapped(t, [], 0, 0, newId);
    hide Annotated;
    hide ParseOne;
    hide Core;
    hide Wrap;
    assert source + "" == source && toks + Lex("") == toks && toks + [] == toks;
  }
}
