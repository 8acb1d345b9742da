/** The texts the reader accepts and what it makes of them: one nested form, read from its parts
    (src/weave_frontend/sexpr.py). */
module Forms {
  import opened Prelude
  import opened Chars
  import opened Lexer
  import opened Trees
  import opened Atoms
  import opened Validity
  import opened Parser
  import opened RoundTrip

  /** A word or a string literal, or forms between parentheses. */
  datatype Form = Word(token: Token) | Group(forms: seq<Form>)

  function Written(f: Form): seq<Token>
    decreases f, 1
  {
    if f.Word? then [f.token] else [LParen] + WrittenAll(f.forms) + [RParen]
  }

  function WrittenAll(fs: seq<Form>): seq<Token>
    decreases fs, 0
  {
    if fs == [] then [] else Written(fs[0]) + WrittenAll(fs[1..])
  }

  /** Words and groups alike. */
  function Count(f: Form): nat
    decreases f, 1
  {
    if f.Word? then 1 else 1 + CountAll(f.forms)
  }

  function CountAll(fs: seq<Form>): nat
    decreases fs, 0
  {
    if fs == [] then 0 else Count(fs[0]) + CountAll(fs[1..])
  }

  function AtomOf(token: Token): Trees.Atom
    requires token.Str? || token.Atom?
  {
    if token.Str? then Text(token.value) else ParseAtom(token.text)
  }

  predicate Literals(f: Form) {
    match f
    case Word(token) => token.Str? || token.Atom?
    case Group(forms) => forall i :: 0 <= i < |forms| ==> Literals(forms[i])
  }

  /** Two parts, the first of which means a symbol that begins like an id behind an `@`. */
  predicate IsWrapper(kids: seq<Tree>) {
    && |kids| == 2 && kids[0].Leaf? && kids[0].atom.Symbol?
    && var name := kids[0].atom.name;
       |name| >= 3 && name[0] == '@' && name[1] == 'n' && name[2] == '_'
  }

  lemma WrapperIs(kids: seq<Tree>)
    ensures IsWrapper(kids) <==> Collapses(kids)
  {
  }

  /** A word is an atom, and a group a list or, when it wraps one form under an id, that form with the id. New ids
      are drawn in the order in which the parts end. */
  function Meaning(f: Form, newId: Supply, c: nat): Tree
    requires Literals(f)
    decreases f, 1
  {
    match f
    case Word(token) => Leaf(newId(c), AtomOf(token))
    case Group(forms) =>
      var kids := Meanings(forms, newId, c);
      if IsWrapper(kids) then WithId(kids[1], kids[0].atom.name[1..]) else List(newId(c + CountAll(forms)), kids)
  }

  function Meanings(fs: seq<Form>, newId: Supply, c: nat): (r: seq<Tree>)
    requires forall i :: 0 <= i < |fs| ==> Literals(fs[i])
    ensures |r| == |fs|
    decreases fs, 0
  {
    if fs == [] then [] else [Meaning(fs[0], newId, c)] + Meanings(fs[1..], newId, c + Count(fs[0]))
  }

  /** No form lies too deep, no atom is too long, and what is wrapped under an id is a valid tree. */
  ghost predicate Accepted(f: Form, newId: Supply, depth: nat, c: nat)
    decreases f, 1
  {
    && Literals(f) && depth <= 512
    && match f
       case Word(token) => AtomBytes(AtomOf(token)) <= 1_048_576
       case Group(forms) =>
         && AllAccepted(forms, newId, depth + 1, c)
         && (IsWrapper(Meanings(forms, newId, c)) ==> ValidTree(Meaning(f, newId, c)))
  }

  ghost predicate AllAccepted(fs: seq<Form>, newId: Supply, depth: nat, c: nat)
    decreases fs, 0
  {
    fs != [] ==> Accepted(fs[0], newId, depth, c) && AllAccepted(fs[1..], newId, depth, c + Count(fs[0]))
  }

  // ----- an accepted form is read as it means

  lemma {:induction false} FormReads(f: Form, rest: seq<Token>, depth: nat, c: nat, newId: Supply)
    requires Accepted(f, newId, depth, c) && c + Count(f) <= MAX_TREE_NODES
    ensures ParseOne(Written(f) + rest, depth, c, newId) == Ok(Parsed(Meaning(f, newId, c), rest, c + Count(f)))
    decreases f, 1
  {
    hide ParseOne;
    hide ParseKids;
    hide ValidTree;
    hide Collapses;
    hide IsWrapper;
    if f.Word? {
      WordReads(f, rest, depth, c, newId);
    } else {
      FormsRead(f.forms, rest, depth + 1, c, newId);
      var toks := Written(f) + rest;
      GroupTokens(f.forms, rest);
      WrapperIs(Meanings(f.forms, newId, c));
      ParseList(toks, depth, c, newId, ParsedKids(Meanings(f.forms, newId, c), rest, c + CountAll(f.forms)));
    }
  }

  lemma WordReads(f: Form, rest: seq<Token>, depth: nat, c: nat, newId: Supply)
    requires f.Word? && Accepted(f, newId, depth, c) && c < MAX_TREE_NODES
    ensures ParseOne(Written(f) + rest, depth, c, newId) == Ok(Parsed(Meaning(f, newId, c), rest, c + 1))
  {
    assert ([f.token] + rest)[1..] == rest;
  }

  lemma GroupTokens(fs: seq<Form>, rest: seq<Token>)
    ensures ([LParen] + WrittenAll(fs) + [RParen] + rest)[1..] == WrittenAll(fs) + ([RParen] + rest)
  {
  }

  lemma WrittenHead(f: Form)
    requires Literals(f)
    ensures Written(f) != [] && !Written(f)[0].RParen? && !Written(f)[0].Bad?
  {
  }

  lemma {:induction false} FormsRead(fs: seq<Form>, rest: seq<Token>, depth: nat, c: nat, newId: Supply)
    requires (forall i :: 0 <= i < |fs| ==> Literals(fs[i])) && AllAccepted(fs, newId, depth, c) && c + CountAll(fs) <= MAX_TREE_NODES
    ensures ParseKids(WrittenAll(fs) + ([RParen] + rest), depth, c, newId) ==
            Ok(ParsedKids(Meanings(fs, newId, c), rest, c + CountAll(fs)))
    decreases fs, 0
  {
    hide ParseOne;
    hide ParseKids;
    hide Accepted;
    hide Written;
    hide Meaning;
    hide Literals;
    hide Count;
    if fs == [] {
      KidsEmpty(rest, depth, c, newId);
    } else {
      var more := WrittenAll(fs[1..]);
      var first, next := Meaning(fs[0], newId, c), c + Count(fs[0]);
      FormReads(fs[0], more + ([RParen] + rest), depth, c, newId);
      FormsRead(fs[1..], rest, depth, next, newId);
      WrittenHead(fs[0]);
      KidsFront(Written(fs[0]), more, [RParen] + rest, depth, c, newId, first, next,
                ParsedKids(Meanings(fs[1..], newId, next), rest, c + CountAll(fs)));
    }
  }

  // ----- nothing else is read

  lemma {:induction false} OneForm(toks: seq<Token>, depth: nat, c: nat, newId: Supply) returns (f: Form)
    requires ParseOne(toks, depth, c, newId).Ok? && c <= MAX_TREE_NODES
    ensures Accepted(f, newId, depth, c) && c + Count(f) <= MAX_TREE_NODES
    ensures toks == Written(f) + ParseOne(toks, depth, c, newId).value.rest
    decreases |toks|, 0
  {
    if toks[0].LParen? {
      var forms := SomeForms(toks[1..], depth + 1, c, newId);
      f := Group(forms);
      GroupFound(toks, forms, depth, c, newId);
    } else {
      f := Word(toks[0]);
      assert toks == [toks[0]] + toks[1..];
    }
  }

  lemma GroupFound(toks: seq<Token>, forms: seq<Form>, depth: nat, c: nat, newId: Supply)
    requires ParseOne(toks, depth, c, newId).Ok? && toks[0].LParen? && ParseKids(toks[1..], depth + 1, c, newId).Ok?
    requires forall i :: 0 <= i < |forms| ==> Literals(forms[i])
    requires AllAccepted(forms, newId, depth + 1, c) && c + CountAll(forms) <= MAX_TREE_NODES
    requires toks[1..] == WrittenAll(forms) + ([RParen] + ParseKids(toks[1..], depth + 1, c, newId).value.rest)
    ensures Accepted(Group(forms), newId, depth, c) && c + Count(Group(forms)) <= MAX_TREE_NODES
    ensures toks == Written(Group(forms)) + ParseOne(toks, depth, c, newId).value.rest
  {
    hide ParseOne;
    hide ParseKids;
    hide CloseList;
    hide ValidTree;
    hide AllAccepted;
    hide Collapses;
    hide IsWrapper;
    hide WrittenAll;
    hide Meanings;
    var kids := ParseKids(toks[1..], depth + 1, c, newId).value;
    FormsRead(forms, kids.rest, depth + 1, c, newId);
    ListOpened(toks, depth, c, newId);
    ListClosed(kids, depth, newId);
    WrapperIs(kids.nodes);
    GroupWhole(toks, WrittenAll(forms), kids.rest);
  }

  lemma GroupWhole(toks: seq<Token>, inside: seq<Token>, rest: seq<Token>)
    requires toks != [] && toks[0].LParen? && toks[1..] == inside + ([RParen] + rest)
    ensures toks == [LParen] + inside + [RParen] + rest
  {
    assert toks == [LParen] + toks[1..];
  }

  lemma ListOpened(toks: seq<Token>, depth: nat, c: nat, newId: Supply)
    requires ParseOne(toks, depth, c, newId).Ok? && toks[0].LParen?
    ensures depth <= MAX_TREE_DEPTH && ParseKids(toks[1..], depth + 1, c, newId).Ok?
    ensures ParseOne(toks, depth, c, newId) == CloseList(ParseKids(toks[1..], depth + 1, c, newId).value, depth, newId)
  {
  }

  lemma ListClosed(kids: ParsedKids, depth: nat, newId: Supply)
    requires CloseList(kids, depth, newId).Ok?
    ensures kids.count < MAX_TREE_NODES && CloseList(kids, depth, newId).value.rest == kids.rest
    ensures Collapses(kids.nodes) ==> ValidTree(WithId(kids.nodes[1], kids.nodes[0].atom.name[1..]))
  {
    hide ValidTree;
  }

  lemma KidsOpened(toks: seq<Token>, depth: nat, c: nat, newId: Supply)
    requires ParseKids(toks, depth, c, newId).Ok? && !toks[0].RParen?
    ensures ParseOne(toks, depth, c, newId).Ok?
    ensures var p := ParseOne(toks, depth, c, newId).value;
      var others := ParseKids(p.rest, depth, p.count, newId);
      others.Ok? && others.value.rest == ParseKids(toks, depth, c, newId).value.rest
  {
    hide ParseOne;
  }

  lemma KidsClosed(toks: seq<Token>, depth: nat, c: nat, newId: Supply)
    requires ParseKids(toks, depth, c, newId).Ok?
    ensures toks != [] && (toks[0].RParen? ==> toks == [RParen] + ParseKids(toks, depth, c, newId).value.rest)
  {
    hide ParseOne;
  }

  lemma {:induction false} SomeForms(toks: seq<Token>, depth: nat, c: nat, newId: Supply) returns (fs: seq<Form>)
    requires ParseKids(toks, depth, c, newId).Ok? && c <= MAX_TREE_NODES
    ensures (forall i :: 0 <= i < |fs| ==> Literals(fs[i])) && AllAccepted(fs, newId, depth, c)
    ensures c + CountAll(fs) <= MAX_TREE_NODES
    ensures toks == WrittenAll(fs) + ([RParen] + ParseKids(toks, depth, c, newId).value.rest)
    decreases |toks|, 1
  {
    hide Accepted;
    hide ParseOne;
    hide ParseKids;
    KidsClosed(toks, depth, c, newId);
    if toks[0].RParen? {
      fs := [];
    } else {
      KidsOpened(toks, depth, c, newId);
      var p := ParseOne(toks, depth, c, newId).value;
      var f := OneForm(toks, depth, c, newId);
      FormReads(f, p.rest, depth, c, newId);
      var others := SomeForms(p.rest, depth, p.count, newId);
      fs := [f] + others;
      FormFirst(f, others, newId, depth, c);
    }
  }

  lemma FormFirst(f: Form, others: seq<Form>, newId: Supply, depth: nat, c: nat)
    requires Literals(f) && forall i :: 0 <= i < |others| ==> Literals(others[i])
    requires Accepted(f, newId, depth, c) && AllAccepted(others, newId, depth, c + Count(f))
    ensures var fs := [f] + others;
      && (forall i :: 0 <= i < |fs| ==> Literals(fs[i])) && AllAccepted(fs, newId, depth, c)
      && CountAll(fs) == Count(f) + CountAll(others) && WrittenAll(fs) == Written(f) + WrittenAll(others)
  {
    var fs := [f] + others;
    assert fs[1..] == others;
    hide Accepted;
    hide Written;
    hide Count;
  }

  // ----- the theorem

  /** The text is one form, within the limits. */
  ghost predicate Spells(source: string, f: Form, newId: Supply) {
    && Utf8(source) <= 4_194_304 && Lex(source) == Written(f)
    && Accepted(f, newId, 0, 0) && Count(f) <= 100_000
  }

  lemma SpellsLiterals(source: string, f: Form, newId: Supply)
    requires Spells(source, f, newId)
    ensures Literals(f)
  {
  }

  /** A source is read exactly when its tokens are those of one form within the limits whose meaning is a valid
      tree, and then as that tree: nothing may stand before, behind or between. */
  lemma ReadsExactly(source: string, newId: Supply, u: Tree)
    ensures ParseSource(source, newId) == Ok(u) <==>
            exists f :: Spells(source, f, newId) && u == Meaning(f, newId, 0) && ValidTree(u)
  {
    hide ParseOne;
    hide ValidTree;
    hide Lex;
    hide Utf8;
    hide Written;
    hide Accepted;
    hide Meaning;
    hide Count;
    forall f | Spells(source, f, newId)
      ensures Literals(f) && ParseOne(Lex(source), 0, 0, newId) == Ok(Parsed(Meaning(f, newId, 0), [], Count(f))) {
      SpellsLiterals(source, f, newId);
      FormReads(f, [], 0, 0, newId);
      assert Written(f) + [] == Written(f);
    }
    if ParseSource(source, newId) == Ok(u) {
      var f := OneForm(Lex(source), 0, 0, newId);
      assert Written(f) + [] == Written(f);
      assert Spells(source, f, newId);
    }
  }
}
