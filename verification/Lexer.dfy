/** Tokens of S-expression source (src/weave_frontend/sexpr.py). */
module Lexer {
  import opened Chars

  // A stream ends after a Bad token, which raises when the parser reaches it.
  datatype Token = LParen | RParen | Str(value: string) | Atom(text: string) | Bad(message: string)

  /** The characters that end an atom. */
  predicate EndsAtom(c: char) {
    IsSpace(c) || c == '(' || c == ')' || c == ';'
  }

  function Unescape(c: char): string {
    match c
    case 'n' => "\n"
    case 'r' => "\r"
    case 't' => "\t"
    case '"' => "\""
    case '\\' => "\\"
    case _ => "\\" + [c]
  }

  // The rest of a string literal: its value and what follows the closing quote, or why it has none.
  datatype Literal = Closed(value: string, rest: string) | Unclosed(message: string)

  function Prepend(head: string, l: Literal): Literal {
    if l.Closed? then Closed(head + l.value, l.rest) else l
  }

  function LexString(s: string): (l: Literal)
    ensures l.Closed? ==> |l.rest| < |s|
  {
    if s == "" then Unclosed("unterminated string literal")
    else if s[0] == '"' then Closed("", s[1..])
    else if s[0] == '\\' then
      if |s| == 1 then Unclosed("unterminated string escape")
      else Prepend(Unescape(s[1]), LexString(s[2..]))
    else Prepend([s[0]], LexString(s[1..]))
  }

  function CommentLen(s: string): (n: nat)
    ensures n <= |s|
  {
    if s == "" || s[0] == '\r' || s[0] == '\n' then 0 else 1 + CommentLen(s[1..])
  }

  function AtomLen(s: string): (n: nat)
    ensures n <= |s|
  {
    if s == "" || EndsAtom(s[0]) then 0 else 1 + AtomLen(s[1..])
  }

  function Lex(s: string): seq<Token>
    decreases |s|
  {
    if s == "" then []
    else if IsSpace(s[0]) then Lex(s[1..])
    else if s[0] == ';' then Lex(s[CommentLen(s)..])
    else if s[0] == '(' then [LParen] + Lex(s[1..])
    else if s[0] == ')' then [RParen] + Lex(s[1..])
    else if s[0] == '"' then
      var l := LexString(s[1..]);
      if l.Closed? then [Str(l.value)] + Lex(l.rest) else [Bad(l.message)]
    else [Atom(s[..AtomLen(s)])] + Lex(s[AtomLen(s)..])
  }

  // ----- the scanner as the source runs it

  method ScanString(source: string, start: nat) returns (index: nat, value: string, error: string)
    requires start <= |source|
    ensures index <= |source|
    ensures error == "" ==> start < index && LexString(source[start..]) == Closed(value, source[index..])
    ensures error != "" ==> LexString(source[start..]) == Unclosed(error)
  {
    hide LexString;
    index, value, error := start, "", "";
    ghost var whole := LexString(source[start..]);
    PrependNothing(whole);
    while index < |source|
      invariant start <= index <= |source|
      invariant whole == Prepend(value, LexString(source[index..]))
    {
      var c := source[index];
      LexStringAt(source, index);
      if c == '"' {
        index := index + 1;
        return;
      }
      if c == '\\' {
        index := index + 1;
        if index >= |source| {
          error := "unterminated string escape";
          return;
        }
        PrependTwice(value, Unescape(source[index]), LexString(source[index + 1..]));
        value := value + Unescape(source[index]);
        index := index + 1;
      } else {
        PrependTwice(value, [c], LexString(source[index + 1..]));
        value := value + [c];
        index := index + 1;
      }
    }
    LexStringAt(source, index);
    error := "unterminated string literal";
  }

  lemma PrependNothing(l: Literal)
    ensures Prepend("", l) == l
  {
  }

  // The literal from an index on, by its first character.
  lemma LexStringAt(source: string, index: nat)
    requires index <= |source|
    ensures var l := LexString(source[index..]);
      if index == |source| then l == Unclosed("unterminated string literal")
      else if source[index] == '"' then l == Closed("", source[index + 1..])
      else if source[index] != '\\' then l == Prepend([source[index]], LexString(source[index + 1..]))
      else if index + 1 >= |source| then l == Unclosed("unterminated string escape")
      else l == Prepend(Unescape(source[index + 1]), LexString(source[index + 2..]))
  {
    if index < |source| {
      assert source[index..][1..] == source[index + 1..];
      if index + 1 < |source| {
        assert source[index..][2..] == source[index + 2..];
      }
    }
  }

  lemma PrependTwice(a: string, b: string, l: Literal)
    ensures Prepend(a, Prepend(b, l)) == Prepend(a + b, l)
  {
    if l.Closed? {
      assert a + (b + l.value) == (a + b) + l.value;
    }
  }

  // One turn of the scanner: at most one token, and where to go on.
  method ScanOne(source: string, index: nat) returns (token: seq<Token>, next: nat, stop: bool)
    requires index < |source|
    ensures index < next <= |source|
    ensures Lex(source[index..]) == token + (if stop then [] else Lex(source[next..]))
  {
    var c := source[index];
    ghost var s := source[index..];
    assert s[1..] == source[index + 1..];
    token, next, stop := [], index + 1, false;
    if IsSpace(c) {
      return;
    }
    if c == ';' {
      next := SkipComment(source, index);
      return;
    }
    if c == '(' || c == ')' {
      token := [if c == '(' then LParen else RParen];
      return;
    }
    if c == '"' {
      var end, value, error := ScanString(source, index + 1);
      if error != "" {
        return [Bad(error)], index + 1, true;
      }
      return [Str(value)], end, false;
    }
    next := SkipAtom(source, index);
    assert source[index..next] == s[..AtomLen(s)];
    token := [Atom(source[index..next])];
  }

  /** The scanner produces exactly the token stream of the source. */
  method Tokenize(source: string) returns (tokens: seq<Token>)
    ensures tokens == Lex(source)
  {
    tokens := [];
    var index := 0;
    assert source[0..] == source;
    while index < |source|
      invariant index <= |source|
      invariant tokens + Lex(source[index..]) == Lex(source)
    {
      var token, next, stop := ScanOne(source, index);
      hide Lex;
      ghost var rest := if stop then [] else Lex(source[next..]);
      assert tokens + (token + rest) == (tokens + token) + rest;
      tokens := tokens + token;
      if stop {
        return;
      }
      index := next;
    }
  }

  method SkipComment(source: string, start: nat) returns (index: nat)
    requires start < |source| && source[start] == ';'
    ensures start < index <= |source|
    ensures source[index..] == source[start..][CommentLen(source[start..])..]
  {
    index := start;
    while index < |source| && source[index] != '\r' && source[index] != '\n'
      invariant start <= index <= |source|
      invariant CommentLen(source[start..]) == index - start + CommentLen(source[index..])
    {
      assert source[index..][1..] == source[index + 1..];
      index := index + 1;
    }
    assert CommentLen(source[index..]) == 0;
  }

  method SkipAtom(source: string, start: nat) returns (index: nat)
    requires start < |source| && !EndsAtom(source[start])
    ensures start < index <= |source| && index - start == AtomLen(source[start..])
    ensures source[index..] == source[start..][AtomLen(source[start..])..]
  {
    index := start;
    while index < |source| && !EndsAtom(source[index])
      invariant start <= index <= |source|
      invariant AtomLen(source[start..]) == index - start + AtomLen(source[index..])
    {
      assert source[index..][1..] == source[index + 1..];
      index := index + 1;
    }
    assert AtomLen(source[index..]) == 0;
  }

  // ----- words

  /** Text that lexes as one atom: no character in it ends an atom, and it opens no string. */
  predicate IsWord(s: string) {
    s != "" && s[0] != '"' && forall i :: 0 <= i < |s| ==> !EndsAtom(s[i])
  }

  /** What may follow a token without joining it. */
  predicate Boundary(k: string) {
    k == "" || IsSpace(k[0]) || k[0] == '(' || k[0] == ')'
  }

  lemma {:induction false} AtomLenWord(w: string, k: string)
    requires (forall i :: 0 <= i < |w| ==> !EndsAtom(w[i])) && Boundary(k)
    ensures AtomLen(w + k) == |w|
  {
    if w == "" {
      assert w + k == k;
    } else {
      assert (w + k)[1..] == w[1..] + k;
      AtomLenWord(w[1..], k);
    }
  }

  lemma LexWord(w: string, k: string)
    requires IsWord(w) && Boundary(k)
    ensures Lex(w + k) == [Atom(w)] + Lex(k)
  {
    AtomLenWord(w, k);
    assert (w + k)[..|w|] == w && (w + k)[|w|..] == k;
  }

  lemma {:induction false} LexSpaces(ws: string, k: string)
    requires forall i :: 0 <= i < |ws| ==> IsSpace(ws[i])
    ensures Lex(ws + k) == Lex(k)
  {
    if ws == "" {
      assert ws + k == k;
    } else {
      assert (ws + k)[1..] == ws[1..] + k;
      LexSpaces(ws[1..], k);
    }
  }

  /** Every atom token is a word. */
  lemma {:induction false} LexWords(s: string, i: nat)
    requires i < |Lex(s)| && Lex(s)[i].Atom?
    ensures IsWord(Lex(s)[i].text)
    decreases |s|
  {
    if IsSpace(s[0]) {
      LexWords(s[1..], i);
    } else if s[0] == ';' {
      LexWords(s[CommentLen(s)..], i);
    } else if s[0] == '(' || s[0] == ')' {
      LexWords(s[1..], i - 1);
    } else if s[0] == '"' {
      LexWords(LexString(s[1..]).rest, i - 1);
    } else if i == 0 {
      AtomChars(s);
    } else {
      LexWords(s[AtomLen(s)..], i - 1);
    }
  }

  lemma {:induction false} AtomChars(s: string)
    ensures forall i :: 0 <= i < AtomLen(s) ==> !EndsAtom(s[i])
  {
    if s != "" && !EndsAtom(s[0]) {
      AtomChars(s[1..]);
      forall i | 0 <= i < AtomLen(s) ensures !EndsAtom(s[i]) {
        if i > 0 {
          assert s[i] == s[1..][i - 1];
        }
      }
    }
  }
}
