/** Text as a layout of tokens: whitespace may be added or re-indented between tokens without changing
    what the text lexes to. */
module Layout {
  import opened Prelude
  import opened Chars
  import opened Lexer
  import opened Atoms

  datatype Piece = Gap(ws: string) | Open | Close | Word(token: Token, text: string)

  predicate AllSpaces(s: string) {
    forall i :: 0 <= i < |s| ==> IsSpace(s[i])
  }

  function PieceText(p: Piece): string {
    match p
    case Gap(ws) => ws
    case Open => "("
    case Close => ")"
    case Word(_, text) => text
  }

  function PieceTokens(p: Piece): seq<Token> {
    match p
    case Gap(_) => []
    case Open => [LParen]
    case Close => [RParen]
    case Word(token, _) => [token]
  }

  predicate PieceOk(p: Piece) {
    match p
    case Gap(ws) => AllSpaces(ws)
    case Word(Str(value), text) => text == "\"" + Escape(value) + "\""
    case Word(Atom(word), text) => text == word && IsWord(word)
    case Word(_, _) => false
    case _ => true
  }

  // What may follow a word.
  predicate Separates(p: Piece) {
    p.Open? || p.Close? || (p.Gap? && p.ws != "")
  }

  function DocText(doc: seq<Piece>): string {
    if doc == [] then "" else PieceText(doc[0]) + DocText(doc[1..])
  }

  function DocTokens(doc: seq<Piece>): seq<Token> {
    if doc == [] then [] else PieceTokens(doc[0]) + DocTokens(doc[1..])
  }

  predicate DocOk(doc: seq<Piece>) {
    && (forall i :: 0 <= i < |doc| ==> PieceOk(doc[i]))
    && (forall i :: 0 <= i < |doc| - 1 && doc[i].Word? ==> Separates(doc[i + 1]))
  }

  ghost predicate Lays(doc: seq<Piece>, text: string, tokens: seq<Token>) {
    doc != [] && DocOk(doc) && DocText(doc) == text && DocTokens(doc) == tokens
  }

  /** `text` is the tokens in order, with whitespace between them. */
  ghost predicate Reads(text: string, tokens: seq<Token>) {
    exists doc :: Lays(doc, text, tokens)
  }

  lemma Assoc<T>(a: seq<T>, b: seq<T>, c: seq<T>)
    ensures a + b + c == a + (b + c)
  {
  }

  lemma DocCons(doc: seq<Piece>)
    requires doc != []
    ensures DocText(doc) == PieceText(doc[0]) + DocText(doc[1..])
    ensures DocTokens(doc) == PieceTokens(doc[0]) + DocTokens(doc[1..])
  {
  }

  // ----- a layout lexes to its tokens

  lemma DocBoundary(doc: seq<Piece>, k: string)
    requires DocOk(doc) && Boundary(k)
    requires doc != [] ==> Separates(doc[0])
    ensures Boundary(DocText(doc) + k)
  {
  }

  lemma LexParen(c: char, k: string)
    requires c == '(' || c == ')'
    ensures Lex([c] + k) == [if c == '(' then LParen else RParen] + Lex(k)
  {
    assert ([c] + k)[1..] == k;
  }

  lemma LexQuoted(value: string, k: string)
    ensures Lex("\"" + Escape(value) + "\"" + k) == [Str(value)] + Lex(k)
  {
    var s := "\"" + Escape(value) + "\"" + k;
    EscapeIs(value);
    LexEscapes(value, k);
    assert s[1..] == Escapes(value) + "\"" + k;
    assert s[0] == '"';
  }

  lemma LexPiece(p: Piece, k: string)
    requires PieceOk(p) && (p.Word? ==> Boundary(k))
    ensures Lex(PieceText(p) + k) == PieceTokens(p) + Lex(k)
  {
    hide Lex;
    match p
    case Gap(ws) =>
      LexSpaces(ws, k);
      assert [] + Lex(k) == Lex(k);
    case Open => LexParen('(', k);
    case Close => LexParen(')', k);
    case Word(Atom(word), _) => LexWord(word, k);
    case Word(Str(value), text) => LexQuoted(value, k);
  }

  lemma {:induction false} LexDoc(doc: seq<Piece>, k: string)
    requires DocOk(doc) && Boundary(k)
    ensures Lex(DocText(doc) + k) == DocTokens(doc) + Lex(k)
    decreases |doc|
  {
    hide Lex;
    hide PieceOk;
    if doc == [] {
      assert DocText(doc) + k == k && DocTokens(doc) + Lex(k) == Lex(k);
    } else {
      var rest := doc[1..];
      assert DocOk(rest);
      LexDoc(rest, k);
      DocCons(doc);
      if doc[0].Word? {
        DocBoundary(rest, k);
      }
      hide DocOk;
      hide DocText;
      hide DocTokens;
      LexPiece(doc[0], DocText(rest) + k);
      Assoc(PieceText(doc[0]), DocText(rest), k);
      Assoc(PieceTokens(doc[0]), DocTokens(rest), Lex(k));
    }
  }

  /** Lexing a layout gives its tokens, whatever bounded text follows. */
  lemma LexReads(text: string, tokens: seq<Token>, k: string)
    requires Reads(text, tokens) && Boundary(k)
    ensures Lex(text + k) == tokens + Lex(k)
  {
    var doc: seq<Piece> :| Lays(doc, text, tokens);
    LexDoc(doc, k);
  }

  // ----- building layouts

  lemma {:induction false} DocConcat(a: seq<Piece>, b: seq<Piece>)
    ensures DocText(a + b) == DocText(a) + DocText(b)
    ensures DocTokens(a + b) == DocTokens(a) + DocTokens(b)
    decreases |a|
  {
    if a == [] {
      assert a + b == b;
      assert DocText([]) + DocText(b) == DocText(b) && DocTokens([]) + DocTokens(b) == DocTokens(b);
    } else {
      var rest := a[1..];
      DocConcat(rest, b);
      DocCons(a);
      DocCons(a + b);
      hide DocText;
      hide DocTokens;
      assert (a + b)[1..] == rest + b;
      Assoc(PieceText(a[0]), DocText(rest), DocText(b));
      Assoc(PieceTokens(a[0]), DocTokens(rest), DocTokens(b));
    }
  }

  lemma DocOkConcat(a: seq<Piece>, b: seq<Piece>)
    requires DocOk(a) && DocOk(b) && (b == [] || Separates(b[0]) || a == [] || !a[|a| - 1].Word?)
    ensures DocOk(a + b)
  {
    var c := a + b;
    forall i | 0 <= i < |c| - 1 && c[i].Word? ensures Separates(c[i + 1]) {
      if i < |a| - 1 {
        assert c[i] == a[i] && c[i + 1] == a[i + 1];
      } else if i >= |a| {
        assert c[i] == b[i - |a|] && c[i + 1] == b[i + 1 - |a|];
      }
    }
  }

  lemma DocOne(p: Piece)
    ensures DocText([p]) == PieceText(p) && DocTokens([p]) == PieceTokens(p)
  {
    assert [p][1..] == [];
  }

  lemma ReadsWord(token: Token, text: string)
    requires PieceOk(Word(token, text))
    ensures Reads(text, [token])
  {
    DocOne(Word(token, text));
    assert Lays([Word(token, text)], text, [token]);
  }

  lemma ReadsEmpty()
    ensures Reads("()", [LParen, RParen])
  {
    DocConcat([Open], [Close]);
    DocOne(Open);
    DocOne(Close);
    assert Lays([Open] + [Close], "()", [LParen, RParen]);
  }

  lemma ReadsParens(text: string, tokens: seq<Token>)
    requires Reads(text, tokens)
    ensures Reads("(" + text + ")", [LParen] + tokens + [RParen])
  {
    var doc: seq<Piece> :| Lays(doc, text, tokens);
    DocOne(Open);
    DocOne(Close);
    DocConcat([Open], doc);
    DocConcat([Open] + doc, [Close]);
    DocOkConcat([Open], doc);
    DocOkConcat([Open] + doc, [Close]);
    assert Lays([Open] + doc + [Close], "(" + text + ")", [LParen] + tokens + [RParen]);
  }

  lemma ReadsJoin(x: string, xs: seq<Token>, ws: string, y: string, ys: seq<Token>)
    requires Reads(x, xs) && Reads(y, ys) && ws != "" && AllSpaces(ws)
    ensures Reads(x + ws + y, xs + ys)
  {
    hide DocOk;
    hide DocText;
    hide DocTokens;
    var a: seq<Piece> :| Lays(a, x, xs);
    var b: seq<Piece> :| Lays(b, y, ys);
    JoinDocs(a, ws, b);
    assert Lays(a + [Gap(ws)] + b, x + ws + y, xs + ys);
  }

  lemma JoinDocs(a: seq<Piece>, ws: string, b: seq<Piece>)
    requires DocOk(a) && DocOk(b) && ws != "" && AllSpaces(ws)
    ensures DocOk(a + [Gap(ws)] + b)
    ensures DocText(a + [Gap(ws)] + b) == DocText(a) + ws + DocText(b)
    ensures DocTokens(a + [Gap(ws)] + b) == DocTokens(a) + DocTokens(b)
  {
    hide DocText;
    hide DocTokens;
    DocOne(Gap(ws));
    DocConcat(a, [Gap(ws)]);
    DocConcat(a + [Gap(ws)], b);
    DocOkConcat(a, [Gap(ws)]);
    DocOkConcat(a + [Gap(ws)], b);
    assert DocTokens(a) + [] == DocTokens(a);
  }

  // ----- re-indentation

  function ReindentDoc(doc: seq<Piece>, pad: string): seq<Piece> {
    seq(|doc|, i requires 0 <= i < |doc| => if doc[i].Gap? then Gap(Replace(doc[i].ws, '\n', "\n" + pad)) else doc[i])
  }

  lemma {:induction false} ReplaceSpaces(ws: string, pad: string)
    requires AllSpaces(ws) && AllSpaces(pad)
    ensures AllSpaces(Replace(ws, '\n', "\n" + pad))
    ensures ws != "" ==> Replace(ws, '\n', "\n" + pad) != ""
  {
    if ws != "" {
      ReplaceSpaces(ws[1..], pad);
    }
  }

  /** Words hold no raw newline: strings escape it, and it ends every other atom. */
  lemma WordsOneLine(p: Piece)
    requires PieceOk(p) && !p.Gap?
    ensures '\n' !in PieceText(p)
  {
    match p
    case Word(Str(value), text) =>
      EscapeIs(value);
      EscapesClean(value);
    case Word(Atom(word), _) =>
      assert EndsAtom('\n');
    case _ =>
  }

  lemma {:induction false} ReindentDocText(doc: seq<Piece>, pad: string)
    requires forall i :: 0 <= i < |doc| ==> PieceOk(doc[i])
    ensures DocText(ReindentDoc(doc, pad)) == Replace(DocText(doc), '\n', "\n" + pad)
    ensures DocTokens(ReindentDoc(doc, pad)) == DocTokens(doc)
    decreases |doc|
  {
    if doc != [] {
      var rest := doc[1..];
      ReindentDocText(rest, pad);
      assert ReindentDoc(doc, pad)[1..] == ReindentDoc(rest, pad);
      ReplaceConcat(PieceText(doc[0]), DocText(rest), '\n', "\n" + pad);
      if !doc[0].Gap? {
        WordsOneLine(doc[0]);
        ReplaceAbsent(PieceText(doc[0]), '\n', "\n" + pad);
      }
    }
  }

  /** Re-indenting a layout leaves its tokens alone. */
  lemma ReadsReindent(text: string, tokens: seq<Token>, pad: string)
    requires Reads(text, tokens) && AllSpaces(pad)
    ensures Reads(Replace(text, '\n', "\n" + pad), tokens)
  {
    var doc: seq<Piece> :| Lays(doc, text, tokens);
    var r := ReindentDoc(doc, pad);
    ReindentDocText(doc, pad);
    forall i | 0 <= i < |r| ensures PieceOk(r[i]) && (Separates(doc[i]) ==> Separates(r[i])) {
      assert PieceOk(doc[i]);
      if doc[i].Gap? {
        ReplaceSpaces(doc[i].ws, pad);
      }
    }
    assert DocOk(r);
    assert Lays(r, Replace(text, '\n', "\n" + pad), tokens);
  }
}
