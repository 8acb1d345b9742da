/** Printing and reading are inverse: exactly for printable trees, and with every id when each node is
    annotated. */
module RoundTrip {
  import opened Prelude
  import opened Chars
  import opened Lexer
  import opened Trees
  import opened Atoms
  import opened Validity
  import opened Parser
  import opened Printer
  import opened Layout

  /** Every atom reads back as itself and no list is mistaken for a wrapper. */
  predicate Printable(t: Tree) {
    match t
    case Leaf(_, atom) => AtomPrintable(atom)
    case List(_, children) => !Collapses(children) && forall i :: 0 <= i < |children| ==> Printable(children[i])
  }

  predicate PrintableAll(ts: seq<Tree>) {
    forall i :: 0 <= i < |ts| ==> Printable(ts[i])
  }

  /** The tree without its ids. */
  function Erase(t: Tree): Tree {
    match t
    case Leaf(_, atom) => Leaf("", atom)
    case List(_, children) => List("", EraseAll(children))
  }

  function EraseAll(ts: seq<Tree>): (r: seq<Tree>)
    ensures |r| == |ts| && forall i :: 0 <= i < |ts| ==> r[i] == Erase(ts[i])
  {
    if ts == [] then [] else EraseAll(ts[..|ts| - 1]) + [Erase(ts[|ts| - 1])]
  }

  function TokenOf(a: Trees.Atom): Token {
    if a.Text? then Str(a.text) else Lexer.Atom(AtomText(a))
  }

  function Tokens(t: Tree): seq<Token> {
    match t
    case Leaf(_, atom) => [TokenOf(atom)]
    case List(_, children) => [LParen] + TokensOf(children) + [RParen]
  }

  function TokensOf(ts: seq<Tree>): seq<Token> {
    if ts == [] then [] else TokensOf(ts[..|ts| - 1]) + Tokens(ts[|ts| - 1])
  }

  // ----- printing lays out the tokens

  lemma ReadsAtom(a: Trees.Atom)
    requires AtomPrintable(a)
    ensures Reads(AtomText(a), [TokenOf(a)])
  {
    if !a.Text? {
      AtomReads(a);
    }
    ReadsWord(TokenOf(a), AtomText(a));
  }

  lemma TokensOne(ts: seq<Tree>)
    requires |ts| == 1
    ensures TokensOf(ts) == Tokens(ts[0])
  {
    assert ts[..0] == [];
  }

  lemma {:induction false} ReadsFlat(t: Tree)
    requires Printable(t)
    ensures Reads(Flat(t), Tokens(t))
    decreases t, 1
  {
    if t.Leaf? {
      ReadsAtom(t.atom);
    } else if t.children == [] {
      ReadsEmpty();
      assert FlatKids([]) == "" && TokensOf([]) == [];
      assert Flat(t) == "()" && Tokens(t) == [LParen, RParen];
    } else {
      ReadsFlatKids(t.children);
      ReadsParens(FlatKids(t.children), TokensOf(t.children));
    }
  }

  lemma {:induction false} ReadsFlatKids(ts: seq<Tree>)
    requires PrintableAll(ts) && ts != []
    ensures Reads(FlatKids(ts), TokensOf(ts))
    decreases ts, 0
  {
    var init, last := ts[..|ts| - 1], ts[|ts| - 1];
    ReadsFlat(last);
    if |ts| == 1 {
      TokensOne(ts);
    } else {
      ReadsFlatKids(init);
      hide Reads;
      ReadsJoin(FlatKids(init), TokensOf(init), " ", Flat(last), Tokens(last));
    }
  }

  lemma LineBreakSpaces(n: nat)
    ensures "\n" + Spaces(n) != "" && AllSpaces("\n" + Spaces(n)) && AllSpaces(Spaces(n))
  {
  }

  /** Whichever layout is chosen, the canonical text reads as the tree's tokens. */
  lemma {:induction false} ReadsCanonical(t: Tree, indent: nat)
    requires Printable(t)
    ensures Reads(Canonical(t, indent), Tokens(t))
    decreases t, 1
  {
    ReadsFlat(t);
    if t.List? && t.children != [] && |Flat(t)| > LineRoom(indent) {
      ReadsLines(t.children, indent + 2);
      ReadsParens(Lines(t.children, indent + 2), TokensOf(t.children));
    } else if t.List? && t.children == [] {
      assert FlatKids([]) == "" && Flat(t) == "()";
    }
  }

  lemma {:induction false} ReadsLines(ts: seq<Tree>, indent: nat)
    requires PrintableAll(ts) && ts != []
    ensures Reads(Lines(ts, indent), TokensOf(ts))
    decreases ts, 0
  {
    var init, last := ts[..|ts| - 1], ts[|ts| - 1];
    ReadsCanonical(last, indent);
    if |ts| == 1 {
      TokensOne(ts);
    } else {
      ReadsLines(init, indent);
      LineBreakSpaces(indent);
      hide Reads;
      hide Canonical;
      ReadsJoin(Lines(init, indent), TokensOf(init), "\n" + Spaces(indent), Canonical(last, indent), Tokens(last));
    }
  }

  // ----- reading the tokens back

  /** The tree with the ids the reader hands out: children first, from left to right. */
  function Numbered(t: Tree, newId: Supply, c: nat): Tree {
    match t
    case Leaf(_, atom) => Leaf(newId(c), atom)
    case List(_, children) => List(newId(c + SizeOf(children)), NumberedAll(children, newId, c))
  }

  function NumberedAll(ts: seq<Tree>, newId: Supply, c: nat): (r: seq<Tree>)
    ensures |r| == |ts|
  {
    if ts == [] then []
    else NumberedAll(ts[..|ts| - 1], newId, c) + [Numbered(ts[|ts| - 1], newId, c + SizeOf(ts[..|ts| - 1]))]
  }

  /** Atom values are within the reader's limit. */
  predicate SmallAtoms(t: Tree) {
    match t
    case Leaf(_, atom) => AtomBytes(atom) <= MAX_ATOM_VALUE_BYTES
    case List(_, children) => forall i :: 0 <= i < |children| ==> SmallAtoms(children[i])
  }

  lemma ParseAtomToken(a: Trees.Atom, rest: seq<Token>, depth: nat, count: nat, newId: Supply)
    requires AtomPrintable(a) && AtomBytes(a) <= MAX_ATOM_VALUE_BYTES && depth <= MAX_TREE_DEPTH && count < MAX_TREE_NODES
    ensures ParseOne([TokenOf(a)] + rest, depth, count, newId) == Ok(Parsed(Leaf(newId(count), a), rest, count + 1))
  {
    if !a.Text? {
      AtomReads(a);
    }
    assert ([TokenOf(a)] + rest)[1..] == rest;
  }

  // Every list of nodes within the limits, at one depth.
  predicate Readable(ts: seq<Tree>, depth: nat, count: nat) {
    && count + SizeOf(ts) <= MAX_TREE_NODES
    && forall i :: 0 <= i < |ts| ==> Printable(ts[i]) && SmallAtoms(ts[i]) && Shallow(ts[i], MAX_TREE_DEPTH - depth)
  }

  lemma SizeFront(ts: seq<Tree>)
    requires ts != []
    ensures SizeOf(ts) == Size(ts[0]) + SizeOf(ts[1..])
  {
    assert ts == [ts[0]] + ts[1..];
    SizeOfConcat([ts[0]], ts[1..]);
    assert [ts[0]][..0] == [];
  }

  lemma {:induction false} TokensFront(ts: seq<Tree>)
    requires ts != []
    ensures TokensOf(ts) == Tokens(ts[0]) + TokensOf(ts[1..])
    decreases |ts|
  {
    if |ts| == 1 {
      TokensOne(ts);
      assert Tokens(ts[0]) + TokensOf(ts[1..]) == Tokens(ts[0]);
    } else {
      var init, last := ts[..|ts| - 1], ts[|ts| - 1];
      TokensFront(init);
      assert init[1..] == ts[1..][..|ts| - 2];
      Assoc(Tokens(ts[0]), TokensOf(init[1..]), Tokens(last));
    }
  }

  lemma {:induction false} NumberedFront(ts: seq<Tree>, newId: Supply, c: nat)
    requires ts != []
    ensures NumberedAll(ts, newId, c) == [Numbered(ts[0], newId, c)] + NumberedAll(ts[1..], newId, c + Size(ts[0]))
    decreases |ts|
  {
    var init, last := ts[..|ts| - 1], ts[|ts| - 1];
    if |ts| == 1 {
      assert init == [] && SizeOf(init) == 0;
      assert NumberedAll(init, newId, c) == [] && NumberedAll(ts[1..], newId, c + Size(ts[0])) == [];
    } else {
      NumberedFront(init, newId, c);
      SizeFront(init);
      assert init[1..] == ts[1..][..|ts| - 2];
      Assoc([Numbered(ts[0], newId, c)], NumberedAll(init[1..], newId, c + Size(ts[0])), [Numbered(last, newId, c + SizeOf(init))]);
    }
  }

  lemma {:induction false} NumberedAt(ts: seq<Tree>, newId: Supply, c: nat, i: nat)
    requires i < |ts|
    ensures NumberedAll(ts, newId, c)[i] == Numbered(ts[i], newId, c + SizeOf(ts[..i]))
    decreases |ts|
  {
    if i < |ts| - 1 {
      NumberedAt(ts[..|ts| - 1], newId, c, i);
      assert ts[..|ts| - 1][..i] == ts[..i];
    }
  }

  lemma NumberedCollapses(ts: seq<Tree>, newId: Supply, c: nat)
    ensures Collapses(NumberedAll(ts, newId, c)) <==> Collapses(ts)
  {
    if ts != [] {
      NumberedAt(ts, newId, c, 0);
    }
  }

  lemma ParseList(toks: seq<Token>, depth: nat, count: nat, newId: Supply, kids: ParsedKids)
    requires toks != [] && toks[0] == LParen && depth <= MAX_TREE_DEPTH
    requires ParseKids(toks[1..], depth + 1, count, newId) == Ok(kids)
    ensures ParseOne(toks, depth, count, newId) == CloseList(kids, depth, newId)
  {
  }

  /** Reading a tree's tokens gives the tree under new ids, whatever follows. */
  lemma {:induction false} ParseTokens(t: Tree, rest: seq<Token>, depth: nat, count: nat, newId: Supply)
    requires Printable(t) && SmallAtoms(t) && Shallow(t, MAX_TREE_DEPTH - depth) && count + Size(t) <= MAX_TREE_NODES
    ensures ParseOne(Tokens(t) + rest, depth, count, newId) == Ok(Parsed(Numbered(t, newId, count), rest, count + Size(t)))
    decreases t, 1
  {
    hide ParseOne;
    hide ParseKids;
    hide Collapses;
    hide TokensOf;
    if t.Leaf? {
      ParseAtomToken(t.atom, rest, depth, count, newId);
    } else {
      ListTokens(t, rest);
      ParseKidTokens(t.children, rest, depth + 1, count, newId);
      NumberedCollapses(t.children, newId, count);
      ParseList(Tokens(t) + rest, depth, count, newId,
                ParsedKids(NumberedAll(t.children, newId, count), rest, count + SizeOf(t.children)));
    }
  }

  lemma ListTokens(t: Tree, rest: seq<Token>)
    requires t.List?
    ensures (Tokens(t) + rest)[0] == LParen && (Tokens(t) + rest)[1..] == TokensOf(t.children) + ([RParen] + rest)
  {
  }

  lemma TokensHead(t: Tree)
    ensures Tokens(t) != [] && !Tokens(t)[0].RParen? && !Tokens(t)[0].Bad?
  {
  }

  lemma {:induction false} ParseKidTokens(ts: seq<Tree>, rest: seq<Token>, depth: nat, count: nat, newId: Supply)
    requires Readable(ts, depth, count)
    ensures ParseKids(TokensOf(ts) + ([RParen] + rest), depth, count, newId) ==
      Ok(ParsedKids(NumberedAll(ts, newId, count), rest, count + SizeOf(ts)))
    decreases ts, 0
  {
    hide ParseOne;
    hide ParseKids;
    hide Printable;
    hide SmallAtoms;
    hide Shallow;
    hide Readable;
    hide Tokens;
    hide TokensOf;
    hide Numbered;
    hide NumberedAll;
    hide Size;
    hide SizeOf;
    if ts == [] {
      NoTrees(newId, count);
      KidsEmpty(rest, depth, count, newId);
      return;
    }
    ReadableFront(ts, depth, count);
    TokensFront(ts);
    SizeFront(ts);
    NumberedFront(ts, newId, count);
    ParseTokens(ts[0], TokensOf(ts[1..]) + ([RParen] + rest), depth, count, newId);
    ParseKidTokens(ts[1..], rest, depth, count + Size(ts[0]), newId);
    TokensHead(ts[0]);
    KidsFront(Tokens(ts[0]), TokensOf(ts[1..]), [RParen] + rest, depth, count, newId, Numbered(ts[0], newId, count),
              count + Size(ts[0]), ParsedKids(NumberedAll(ts[1..], newId, count + Size(ts[0])), rest, count + SizeOf(ts)));
  }

  lemma NoTrees(newId: Supply, count: nat)
    ensures TokensOf([]) == [] && NumberedAll([], newId, count) == [] && SizeOf([]) == 0
  {
  }

  lemma ReadableFront(ts: seq<Tree>, depth: nat, count: nat)
    requires Readable(ts, depth, count) && ts != []
    ensures Printable(ts[0]) && SmallAtoms(ts[0]) && Shallow(ts[0], MAX_TREE_DEPTH - depth)
    ensures count + Size(ts[0]) <= MAX_TREE_NODES && Readable(ts[1..], depth, count + Size(ts[0]))
  {
    hide Printable;
    hide SmallAtoms;
    hide Shallow;
    SizeFront(ts);
  }

  // A list closed at once.
  lemma KidsEmpty(rest: seq<Token>, depth: nat, count: nat, newId: Supply)
    ensures ParseKids([] + ([RParen] + rest), depth, count, newId) == Ok(ParsedKids([], rest, count))
  {
    assert ([] + ([RParen] + rest))[1..] == rest;
  }

  // The tokens of one child, then those of the others.
  lemma KidsFront(front: seq<Token>, more: seq<Token>, tail: seq<Token>, depth: nat, count: nat, newId: Supply, first: Tree, next: nat, kids: ParsedKids)
    requires front != [] && !front[0].RParen? && !front[0].Bad?
    requires ParseOne(front + (more + tail), depth, count, newId) == Ok(Parsed(first, more + tail, next))
    requires ParseKids(more + tail, depth, next, newId) == Ok(kids)
    ensures ParseKids(front + more + tail, depth, count, newId) == Ok(kids.(nodes := [first] + kids.nodes))
  {
    hide ParseOne;
    hide ParseKids;
    Assoc(front, more, tail);
    KidsStep(front + (more + tail), depth, count, newId, first, more + tail, next, kids);
  }

  // One child read, then the others.
  lemma KidsStep(toks: seq<Token>, depth: nat, count: nat, newId: Supply, first: Tree, others: seq<Token>, next: nat, kids: ParsedKids)
    requires toks != [] && !toks[0].RParen? && !toks[0].Bad?
    requires ParseOne(toks, depth, count, newId) == Ok(Parsed(first, others, next))
    requires ParseKids(others, depth, next, newId) == Ok(kids)
    ensures ParseKids(toks, depth, count, newId) == Ok(kids.(nodes := [first] + kids.nodes))
  {
  }

  // ----- the plain round trip

  lemma {:induction false} NumberedIds(t: Tree, newId: Supply, c: nat, x: NodeId) returns (n: nat)
    requires x in IdSet(Numbered(t, newId, c))
    ensures c <= n < c + Size(t) && x == newId(n)
    decreases t
  {
    if t.Leaf? {
      n := c;
    } else if x == newId(c + SizeOf(t.children)) {
      n := c + SizeOf(t.children);
    } else {
      var kids := NumberedAll(t.children, newId, c);
      var i :| 0 <= i < |kids| && x in IdSet(kids[i]);
      NumberedAt(t.children, newId, c, i);
      SizeUpTo(t.children, i);
      n := NumberedIds(t.children[i], newId, c + SizeOf(t.children[..i]), x);
    }
  }

  lemma SizeUpTo(ts: seq<Tree>, i: nat)
    requires i < |ts|
    ensures SizeOf(ts[..i]) + Size(ts[i]) <= SizeOf(ts)
    ensures forall j :: i < j < |ts| ==> SizeOf(ts[..i]) + Size(ts[i]) <= SizeOf(ts[..j])
  {
    forall j | i < j <= |ts| ensures SizeOf(ts[..i]) + Size(ts[i]) <= SizeOf(ts[..j]) {
      assert ts[..j] == ts[..i] + ([ts[i]] + ts[i + 1..j]);
      SizeOfConcat(ts[..i], [ts[i]] + ts[i + 1..j]);
      SizeOfConcat([ts[i]], ts[i + 1..j]);
      assert [ts[i]][..0] == [];
    }
    assert ts[..|ts|] == ts;
  }

  lemma NumberedApart(ts: seq<Tree>, newId: Supply, c: nat, i: nat, j: nat)
    requires GoodSupply(newId) && i < j < |ts|
    ensures var kids := NumberedAll(ts, newId, c);
      IdSet(kids[i]) !! IdSet(kids[j]) && newId(c + SizeOf(ts)) !in IdSet(kids[i])
  {
    hide NumberedAll;
    hide Numbered;
    hide IdSet;
    hide SizeOf;
    hide Size;
    hide CleanId;
    var kids := NumberedAll(ts, newId, c);
    SizeUpTo(ts, i);
    forall x | x in IdSet(kids[i]) ensures x !in IdSet(kids[j]) && x != newId(c + SizeOf(ts)) {
      var m := NumberedKidIds(ts, newId, c, i, x);
      if x in IdSet(kids[j]) {
        var n := NumberedKidIds(ts, newId, c, j, x);
      }
    }
  }

  // The ids of the i-th child come from its own stretch of the supply.
  lemma NumberedKidIds(ts: seq<Tree>, newId: Supply, c: nat, i: nat, x: NodeId) returns (n: nat)
    requires i < |ts| && x in IdSet(NumberedAll(ts, newId, c)[i])
    ensures c + SizeOf(ts[..i]) <= n < c + SizeOf(ts[..i]) + Size(ts[i]) && x == newId(n)
  {
    NumberedAt(ts, newId, c, i);
    n := NumberedIds(ts[i], newId, c + SizeOf(ts[..i]), x);
  }

  lemma NumberedRoot(ts: seq<Tree>, newId: Supply, c: nat, i: nat)
    requires GoodSupply(newId) && i < |ts|
    ensures newId(c + SizeOf(ts)) !in IdSet(NumberedAll(ts, newId, c)[i])
  {
    NumberedAt(ts, newId, c, i);
    SizeUpTo(ts, i);
    if newId(c + SizeOf(ts)) in IdSet(NumberedAll(ts, newId, c)[i]) {
      var n := NumberedIds(ts[i], newId, c + SizeOf(ts[..i]), newId(c + SizeOf(ts)));
    }
  }

  lemma {:induction false} NumberedUnique(t: Tree, newId: Supply, c: nat)
    requires GoodSupply(newId)
    ensures Unique(Numbered(t, newId, c))
    decreases t
  {
    if t.List? {
      var kids := NumberedAll(t.children, newId, c);
      forall i | 0 <= i < |kids| ensures Unique(kids[i]) && newId(c + SizeOf(t.children)) !in IdSet(kids[i]) {
        NumberedAt(t.children, newId, c, i);
        NumberedUnique(t.children[i], newId, c + SizeOf(t.children[..i]));
        NumberedRoot(t.children, newId, c, i);
      }
      forall i, j | 0 <= i < j < |kids| ensures IdSet(kids[i]) !! IdSet(kids[j]) {
        NumberedApart(t.children, newId, c, i, j);
      }
    }
  }

  lemma {:induction false} SameSums(ts: seq<Tree>, us: seq<Tree>)
    requires |ts| == |us|
    requires forall i :: 0 <= i < |ts| ==> Size(ts[i]) == Size(us[i]) && ValueBytes(ts[i]) == ValueBytes(us[i]) && Erase(ts[i]) == Erase(us[i])
    ensures SizeOf(ts) == SizeOf(us) && ValueBytesOf(ts) == ValueBytesOf(us) && EraseAll(ts) == EraseAll(us)
    decreases |ts|
  {
    if ts != [] {
      SameSums(ts[..|ts| - 1], us[..|us| - 1]);
      assert Erase(ts[|ts| - 1]) == Erase(us[|us| - 1]);
    }
  }

  // Everything but the ids survives renumbering.
  lemma {:induction false} NumberedShape(t: Tree, newId: Supply, c: nat)
    ensures Erase(Numbered(t, newId, c)) == Erase(t)
    ensures Size(Numbered(t, newId, c)) == Size(t) && ValueBytes(Numbered(t, newId, c)) == ValueBytes(t)
    decreases t
  {
    if t.List? {
      var kids := NumberedAll(t.children, newId, c);
      forall i | 0 <= i < |kids|
        ensures Erase(kids[i]) == Erase(t.children[i]) && Size(kids[i]) == Size(t.children[i])
        ensures ValueBytes(kids[i]) == ValueBytes(t.children[i])
      {
        NumberedAt(t.children, newId, c, i);
        NumberedShape(t.children[i], newId, c + SizeOf(t.children[..i]));
      }
      SameSums(t.children, kids);
    }
  }

  lemma {:induction false} NumberedOk(t: Tree, newId: Supply, c: nat, depth: int)
    requires (forall n: nat :: CleanId(newId(n))) && Shallow(t, depth) && SmallAtoms(t)
    ensures Shallow(Numbered(t, newId, c), depth) && NodesOk(Numbered(t, newId, c))
    decreases t
  {
    if t.List? {
      var kids := NumberedAll(t.children, newId, c);
      forall i | 0 <= i < |kids| ensures Shallow(kids[i], depth - 1) && NodesOk(kids[i]) {
        NumberedAt(t.children, newId, c, i);
        NumberedOk(t.children[i], newId, c + SizeOf(t.children[..i]), depth - 1);
      }
    }
  }

  lemma {:induction false} NodesOkSmall(t: Tree)
    requires NodesOk(t)
    ensures SmallAtoms(t)
    decreases t
  {
    if t.List? {
      forall i | 0 <= i < |t.children| ensures SmallAtoms(t.children[i]) {
        NodesOkSmall(t.children[i]);
      }
    }
  }

  /** Reading the canonical text of a printable tree gives the tree back under new ids. */
  lemma PrintThenRead(t: Tree, newId: Supply)
    requires ValidTree(t) && Printable(t) && GoodSupply(newId)
    requires Utf8(Canonical(t, 0)) <= MAX_SOURCE_BYTES
    ensures ParseSource(Canonical(t, 0), newId) == Ok(Numbered(t, newId, 0))
    ensures Erase(Numbered(t, newId, 0)) == Erase(t)
  {
    hide Canonical;
    hide ParseOne;
    hide Numbered;
    hide Tokens;
    hide Lex;
    hide ValidTree;
    PrintedTokens(t);
    ParseWhole(t, newId);
    NumberedValid(t, newId);
  }

  lemma ParseWhole(t: Tree, newId: Supply)
    requires ValidTree(t) && Printable(t)
    ensures ParseOne(Tokens(t), 0, 0, newId) == Ok(Parsed(Numbered(t, newId, 0), [], Size(t)))
  {
    hide ParseOne;
    hide Numbered;
    hide Tokens;
    hide Unique;
    hide NodesOk;
    hide SmallAtoms;
    hide Printable;
    hide Shallow;
    hide Size;
    NodesOkSmall(t);
    ParseTokens(t, [], 0, 0, newId);
    assert Tokens(t) + [] == Tokens(t);
  }

  lemma PrintedTokens(t: Tree)
    requires Printable(t)
    ensures Lex(Canonical(t, 0)) == Tokens(t)
  {
    ReadsCanonical(t, 0);
    LexReads(Canonical(t, 0), Tokens(t), "");
    hide Canonical;
    hide Tokens;
    assert Canonical(t, 0) + "" == Canonical(t, 0) && Tokens(t) + Lex("") == Tokens(t);
  }

  lemma NumberedValid(t: Tree, newId: Supply)
    requires ValidTree(t) && GoodSupply(newId)
    ensures ValidTree(Numbered(t, newId, 0)) && Erase(Numbered(t, newId, 0)) == Erase(t)
  {
    NodesOkSmall(t);
    NumberedUnique(t, newId, 0);
    NumberedShape(t, newId, 0);
    NumberedOk(t, newId, 0, MAX_TREE_DEPTH);
  }

  // ----- whatever is read is printable

  ghost predicate Words(toks: seq<Token>) {
    forall i :: 0 <= i < |toks| && toks[i].Atom? ==> IsWord(toks[i].text)
  }

  lemma {:induction false} ReadPrintable(toks: seq<Token>, depth: nat, count: nat, newId: Supply)
    requires Words(toks) && ParseOne(toks, depth, count, newId).Ok?
    ensures Printable(ParseOne(toks, depth, count, newId).value.node) && Words(ParseOne(toks, depth, count, newId).value.rest)
    decreases |toks|, 0
  {
    match toks[0]
    case LParen =>
      assert Words(toks[1..]);
      ReadKidsPrintable(toks[1..], depth + 1, count, newId);
      var kids := ParseKids(toks[1..], depth + 1, count, newId).value;
      CloseListPrintable(kids, depth, newId);
      hide ParseKids;
    case Atom(text) =>
      ParsedPrintable(text);
    case _ =>
  }

  lemma CloseListPrintable(kids: ParsedKids, depth: nat, newId: Supply)
    requires PrintableAll(kids.nodes) && CloseList(kids, depth, newId).Ok?
    ensures Printable(CloseList(kids, depth, newId).value.node) && CloseList(kids, depth, newId).value.rest == kids.rest
  {
  }

  lemma {:induction false} ReadKidsPrintable(toks: seq<Token>, depth: nat, count: nat, newId: Supply)
    requires Words(toks) && ParseKids(toks, depth, count, newId).Ok?
    ensures PrintableAll(ParseKids(toks, depth, count, newId).value.nodes) && Words(ParseKids(toks, depth, count, newId).value.rest)
    decreases |toks|, 1
  {
    if !toks[0].RParen? {
      var first := ParseOne(toks, depth, count, newId).value;
      ReadPrintable(toks, depth, count, newId);
      hide ParseOne;
      ReadKidsPrintable(first.rest, depth, first.count, newId);
    }
  }

  lemma SourceWords(source: string)
    ensures Words(Lex(source))
  {
    forall i | 0 <= i < |Lex(source)| && Lex(source)[i].Atom? ensures IsWord(Lex(source)[i].text) {
      LexWords(source, i);
    }
  }

  /** Whatever a source reads as is a printable tree. */
  lemma ReadIsPrintable(source: string, newId: Supply)
    requires ParseSource(source, newId).Ok?
    ensures Printable(ParseSource(source, newId).value) && ValidTree(ParseSource(source, newId).value)
  {
    SourceWords(source);
    ReadPrintable(Lex(source), 0, 0, newId);
    hide ParseOne;
  }

  lemma {:induction false} ErasePrintable(t: Tree, u: Tree)
    requires Erase(t) == Erase(u) && Printable(t)
    ensures Printable(u)
    decreases t
  {
    if t.List? {
      var n := |t.children|;
      assert |u.children| == n by {
        assert |EraseAll(t.children)| == |EraseAll(u.children)|;
      }
      forall i | 0 <= i < n ensures Erase(t.children[i]) == Erase(u.children[i]) && Printable(u.children[i]) {
        assert EraseAll(t.children)[i] == EraseAll(u.children)[i];
        ErasePrintable(t.children[i], u.children[i]);
      }
    }
  }

  /** Reading undoes printing, up to ids, exactly for printable trees. */
  lemma RoundTripExactly(t: Tree, newId: Supply)
    requires ValidTree(t) && GoodSupply(newId) && Utf8(Canonical(t, 0)) <= MAX_SOURCE_BYTES
    ensures var r := ParseSource(Canonical(t, 0), newId);
      (r.Ok? && Erase(r.value) == Erase(t)) <==> Printable(t)
  {
    var r := ParseSource(Canonical(t, 0), newId);
    if Printable(t) {
      PrintThenRead(t, newId);
    }
    if r.Ok? && Erase(r.value) == Erase(t) {
      ReadIsPrintable(Canonical(t, 0), newId);
      ErasePrintable(r.value, t);
    }
  }

  /** A source that reads, printed and read again, reads as the same tree, whatever its layout was. */
  lemma ReprintStable(source: string, newId: Supply, newId': Supply)
    requires ParseSource(source, newId).Ok? && GoodSupply(newId')
    requires Utf8(Canonical(ParseSource(source, newId).value, 0)) <= MAX_SOURCE_BYTES
    ensures var t := ParseSource(source, newId).value;
      var again := ParseSource(Canonical(t, 0), newId');
      again.Ok? && Erase(again.value) == Erase(t)
  {
    ReadIsPrintable(source, newId);
    PrintThenRead(ParseSource(source, newId).value, newId');
  }

  // ----- trees that do not come back

  /** A symbol that spells a number reads back as the number. */
  lemma NumericSymbol(newId: Supply)
    returns (t: Tree)
    requires GoodSupply(newId)
    ensures ValidTree(t) && t == Leaf("n_a", Symbol("1")) && !Printable(t)
    ensures ParseSource(Canonical(t, 0), newId) == Ok(Leaf(newId(0), Integer(1)))
  {
    t := Leaf("n_a", Symbol("1"));
    var read := Leaf("n_a", Integer(1));
    DigitOne();
    assert Canonical(read, 0) == "1" == Canonical(t, 0);
    PrintThenRead(read, newId);
    assert Numbered(read, newId, 0) == Leaf(newId(0), Integer(1));
  }

  lemma DigitOne()
    ensures IntText(1) == "1" && Utf8("1") == 1 && IsInteger("1")
  {
    assert "1"[..0] == "";
    assert NatText(1) == [DigitChar(1)] == "1";
  }

  /** A list that looks like an id wrapper reads back as what it holds. */
  lemma WrapperLikeList(newId: Supply)
    returns (t: Tree)
    requires GoodSupply(newId)
    ensures ValidTree(t) && t == List("n_a", [Leaf("n_b", Symbol("@n_c")), Leaf("n_d", Boolean(true))]) && !Printable(t)
    ensures Utf8(Canonical(t, 0)) <= MAX_SOURCE_BYTES
    ensures var r := ParseSource(Canonical(t, 0), newId); !(r.Ok? && Erase(r.value) == Erase(t))
  {
    var a, b := Leaf("n_b", Symbol("@n_c")), Leaf("n_d", Boolean(true));
    t := List("n_a", [a, b]);
    WrapperLikeValid(a, b);
    RoundTripExactly(t, newId);
  }

  lemma WrapperLikeValid(a: Tree, b: Tree)
    requires a == Leaf("n_b", Symbol("@n_c")) && b == Leaf("n_d", Boolean(true))
    ensures ValidTree(List("n_a", [a, b])) && !Printable(List("n_a", [a, b]))
    ensures Utf8(Canonical(List("n_a", [a, b]), 0)) <= MAX_SOURCE_BYTES
  {
    hide Canonical;
    hide Unique;
    hide Size;
    hide SizeOf;
    hide ValueBytes;
    hide ValueBytesOf;
    var kids := [a, b];
    TextBytes("@n_c");
    WrapperLikeIds(a, b, kids);
    WrapperLikeSizes(a, b, kids);
    WrapperLikeText(a, b, kids);
    assert kids[0] == a && kids[1] == b;
    assert CleanId("n_a") && CleanId("n_b") && CleanId("n_d");
    assert "@n_c"[0] == "@n_"[0] && "@n_c"[1] == "@n_"[1] && "@n_c"[2] == "@n_"[2];
    assert NodesOk(a) && NodesOk(b);
    assert NodesOk(List("n_a", kids));
    assert Shallow(a, MAX_TREE_DEPTH - 1) && Shallow(b, MAX_TREE_DEPTH - 1);
    assert Shallow(List("n_a", kids), MAX_TREE_DEPTH);
    assert ValidTree(List("n_a", kids));
  }

  lemma WrapperLikeIds(a: Tree, b: Tree, kids: seq<Tree>)
    requires a.Leaf? && b.Leaf? && a.id == "n_b" && b.id == "n_d" && kids == [a, b]
    ensures Unique(List("n_a", kids))
  {
    assert "n_a"[2] != "n_b"[2] && "n_a"[2] != "n_d"[2] && "n_b"[2] != "n_d"[2];
    assert kids[0] == a && kids[1] == b;
    assert IdSet(a) == {a.id} && IdSet(b) == {b.id};
    forall x | x in IdSetOf(kids) ensures x == a.id || x == b.id {
      var i :| 0 <= i < |kids| && x in IdSet(kids[i]);
    }
    assert UniqueAll(kids);
  }

  lemma WrapperLikeSizes(a: Tree, b: Tree, kids: seq<Tree>)
    requires a.Leaf? && b.Leaf? && kids == [a, b]
    ensures Size(List("n_a", kids)) == 3 && ValueBytes(List("n_a", kids)) == AtomBytes(a.atom) + AtomBytes(b.atom)
  {
    assert kids[..1] == [a] && [a][..0] == [];
    assert SizeOf([a]) == SizeOf([a][..0]) + Size(a) == 1;
    assert ValueBytesOf([a]) == ValueBytesOf([a][..0]) + ValueBytes(a);
    assert SizeOf(kids) == 2 && ValueBytesOf(kids) == AtomBytes(a.atom) + AtomBytes(b.atom);
  }

  lemma WrapperLikeText(a: Tree, b: Tree, kids: seq<Tree>)
    requires a == Leaf("n_b", Symbol("@n_c")) && b == Leaf("n_d", Boolean(true)) && kids == [a, b]
    ensures Utf8(Canonical(List("n_a", kids), 0)) <= MAX_SOURCE_BYTES
  {
    var t := List("n_a", kids);
    assert kids[..1] == [a];
    assert FlatKids(kids) == FlatKids([a]) + " " + Flat(b) == "@n_c" + " " + "true";
    assert |Flat(t)| == 11 && Canonical(t, 0) == Flat(t);
    TextBytes(Flat(t));
  }

  lemma {:induction false} TextBytes(s: string)
    ensures Utf8(s) <= 4 * |s|
  {
    if s != "" {
      TextBytes(s[..|s| - 1]);
    }
  }
}
