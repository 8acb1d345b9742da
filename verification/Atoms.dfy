/** Printing and reading one atom (src/weave_frontend/sexpr.py). */
module Atoms {
  import opened Chars
  import Lexer
  import opened Trees

  /** str.replace of one character. */
  function Replace(s: string, c: char, r: string): string {
    if s == "" then "" else (if s[0] == c then r else [s[0]]) + Replace(s[1..], c, r)
  }

  // The five replacements, in the order the printer makes them.
  function Escape(value: string): string {
    Replace(Replace(Replace(Replace(Replace(value, '\\', "\\\\"), '"', "\\\""), '\n', "\\n"), '\r', "\\r"), '\t', "\\t")
  }

  function AtomText(a: Atom): string {
    match a
    case Symbol(name) => name
    case Text(text) => "\"" + Escape(text) + "\""
    case Integer(n) => IntText(n)
    case Float(lexeme) => lexeme
    case Boolean(b) => if b then "true" else "false"
  }

  function DigitLen(s: string): (n: nat)
    ensures n <= |s|
    ensures forall i :: 0 <= i < n ==> IsDigit(s[i])
  {
    if s == "" || !IsDigit(s[0]) then 0 else 1 + DigitLen(s[1..])
  }

  predicate IsInteger(s: string) {
    AllDigits(StripSign(s))
  }

  predicate IsExponent(s: string) {
    |s| > 1 && (s[0] == 'e' || s[0] == 'E') && AllDigits(StripSign(s[1..]))
  }

  /** The float pattern: digits around a point with an optional exponent, or digits with one. */
  predicate IsFloat(s: string) {
    var u := StripSign(s);
    var n := DigitLen(u);
    if n < |u| && u[n] == '.' then
      var v := u[n + 1..];
      var m := DigitLen(v);
      (n > 0 || m > 0) && (m == |v| || IsExponent(v[m..]))
    else n > 0 && n < |u| && IsExponent(u[n..])
  }

  function ParseAtom(value: string): Atom {
    if value == "true" then Boolean(true)
    else if value == "false" then Boolean(false)
    else if IsInteger(value) then Integer(IntValue(value))
    else if IsFloat(value) then Float(value)
    else Symbol(value)
  }

  /** An atom that reads back as itself: a symbol that is one word and no other literal, a float whose
      lexeme is one. */
  predicate AtomPrintable(a: Atom) {
    match a
    case Symbol(name) => Lexer.IsWord(name) && ParseAtom(name) == a
    case Float(lexeme) => IsFloat(lexeme)
    case _ => true
  }

  // ----- escapes

  function EscapeChar(c: char): string {
    match c
    case '\\' => "\\\\"
    case '"' => "\\\""
    case '\n' => "\\n"
    case '\r' => "\\r"
    case '\t' => "\\t"
    case _ => [c]
  }

  function Escapes(value: string): string {
    if value == "" then "" else EscapeChar(value[0]) + Escapes(value[1..])
  }

  lemma {:induction false} ReplaceConcat(a: string, b: string, c: char, r: string)
    ensures Replace(a + b, c, r) == Replace(a, c, r) + Replace(b, c, r)
  {
    if a == "" {
      assert a + b == b;
    } else {
      assert (a + b)[1..] == a[1..] + b;
      ReplaceConcat(a[1..], b, c, r);
    }
  }

  lemma {:induction false} ReplaceAbsent(s: string, c: char, r: string)
    requires c !in s
    ensures Replace(s, c, r) == s
  {
    if s != "" {
      ReplaceAbsent(s[1..], c, r);
    }
  }

  lemma ReplaceOne(c: char, r: string)
    ensures Replace([c], c, r) == r
  {
    assert [c][1..] == "" && Replace("", c, r) == "";
    assert r + "" == r;
  }

  lemma EscapeOne(c: char)
    ensures Escape([c]) == EscapeChar(c)
  {
    var s1 := if c == '\\' then "\\\\" else [c];
    var s2 := if c == '"' then "\\\"" else s1;
    var s3 := if c == '\n' then "\\n" else s2;
    var s4 := if c == '\r' then "\\r" else s3;
    Step([c], c, '\\', "\\\\");
    Step(s1, c, '"', "\\\"");
    Step(s2, c, '\n', "\\n");
    Step(s3, c, '\r', "\\r");
    Step(s4, c, '\t', "\\t");
    hide Replace;
  }

  // One replacement either hits the single character, or leaves the text alone.
  lemma Step(s: string, c: char, d: char, r: string)
    requires c == d ==> s == [c]
    requires c != d ==> d !in s
    ensures Replace(s, d, r) == if c == d then r else s
  {
    if c == d {
      ReplaceOne(c, r);
    } else {
      ReplaceAbsent(s, d, r);
    }
  }

  lemma EscapeConcat(a: string, b: string)
    ensures Escape(a + b) == Escape(a) + Escape(b)
  {
    var a1, b1 := Replace(a, '\\', "\\\\"), Replace(b, '\\', "\\\\");
    ReplaceConcat(a, b, '\\', "\\\\");
    var a2, b2 := Replace(a1, '"', "\\\""), Replace(b1, '"', "\\\"");
    ReplaceConcat(a1, b1, '"', "\\\"");
    var a3, b3 := Replace(a2, '\n', "\\n"), Replace(b2, '\n', "\\n");
    ReplaceConcat(a2, b2, '\n', "\\n");
    var a4, b4 := Replace(a3, '\r', "\\r"), Replace(b3, '\r', "\\r");
    ReplaceConcat(a3, b3, '\r', "\\r");
    ReplaceConcat(a4, b4, '\t', "\\t");
  }

  /** The five successive replacements escape every character once. */
  lemma {:induction false} EscapeIs(value: string)
    ensures Escape(value) == Escapes(value)
  {
    if value != "" {
      assert value == [value[0]] + value[1..];
      EscapeConcat([value[0]], value[1..]);
      EscapeOne(value[0]);
      EscapeIs(value[1..]);
    }
  }

  lemma {:induction false} EscapesClean(value: string)
    ensures '\n' !in Escapes(value)
  {
    if value != "" {
      EscapesClean(value[1..]);
    }
  }

  lemma LexEscapedChar(c: char, rest: string, value: string, k: string)
    requires Lexer.LexString(rest) == Lexer.Closed(value, k)
    ensures Lexer.LexString(EscapeChar(c) + rest) == Lexer.Closed([c] + value, k)
  {
    var e := EscapeChar(c);
    var s := e + rest;
    if |e| == 1 {
      assert s[1..] == rest && s[0] == c;
    } else {
      assert s[2..] == rest && s[0] == '\\' && s[1] == e[1] && Lexer.Unescape(e[1]) == [c];
    }
  }

  /** Reading an escaped string gives the value back. */
  lemma {:induction false} LexEscapes(value: string, k: string)
    ensures Lexer.LexString(Escapes(value) + "\"" + k) == Lexer.Closed(value, k)
  {
    var s := Escapes(value) + "\"" + k;
    if value == "" {
      assert s[1..] == k;
    } else {
      var rest := Escapes(value[1..]) + "\"" + k;
      LexEscapes(value[1..], k);
      LexEscapedChar(value[0], rest, value[1..], k);
      assert s == EscapeChar(value[0]) + rest;
      assert [value[0]] + value[1..] == value;
    }
  }

  // ----- floats and integers are words

  predicate IsNumeric(c: char) {
    IsDigit(c) || c == '+' || c == '-' || c == '.' || c == 'e' || c == 'E'
  }

  lemma SignNumeric(s: string)
    requires forall i :: 0 <= i < |StripSign(s)| ==> IsNumeric(StripSign(s)[i])
    ensures forall i :: 0 <= i < |s| ==> IsNumeric(s[i])
  {
    forall i | 0 <= i < |s| ensures IsNumeric(s[i]) {
      if StripSign(s) != s && i > 0 {
        assert s[i] == StripSign(s)[i - 1];
      }
    }
  }

  lemma ExponentNumeric(s: string)
    requires IsExponent(s)
    ensures forall i :: 0 <= i < |s| ==> IsNumeric(s[i])
  {
    SignNumeric(s[1..]);
    forall i | 0 <= i < |s| ensures IsNumeric(s[i]) {
      if i > 0 {
        assert s[i] == s[1..][i - 1];
      }
    }
  }

  lemma FloatNumeric(s: string)
    requires IsFloat(s)
    ensures s != "" && !IsInteger(s) && forall i :: 0 <= i < |s| ==> IsNumeric(s[i])
  {
    var u := StripSign(s);
    var n := DigitLen(u);
    assert !IsDigit(u[n]);
    if u[n] == '.' {
      var v := u[n + 1..];
      var m := DigitLen(v);
      if m < |v| {
        ExponentNumeric(v[m..]);
      }
      forall i | 0 <= i < |u| ensures IsNumeric(u[i]) {
        if i > n + m {
          assert u[i] == v[m..][i - n - 1 - m];
        } else if i > n {
          assert u[i] == v[i - n - 1];
        }
      }
    } else {
      ExponentNumeric(u[n..]);
      forall i | 0 <= i < |u| ensures IsNumeric(u[i]) {
        if i >= n {
          assert u[i] == u[n..][i - n];
        }
      }
    }
    SignNumeric(s);
  }

  lemma NumericWord(s: string)
    requires s != "" && forall i :: 0 <= i < |s| ==> IsNumeric(s[i])
    ensures Lexer.IsWord(s) && s != "true" && s != "false"
  {
    assert "true"[0] == 't' && "false"[0] == 'f';
  }

  /** What a printable atom's text lexes to: a string literal, or one word that parses back. */
  lemma AtomReads(a: Atom)
    requires AtomPrintable(a) && !a.Text?
    ensures Lexer.IsWord(AtomText(a)) && ParseAtom(AtomText(a)) == a
  {
    match a
    case Symbol(_) =>
    case Integer(n) =>
      IntRoundTrip(n);
      SignNumeric(IntText(n));
      NumericWord(IntText(n));
    case Float(lexeme) =>
      FloatNumeric(lexeme);
      NumericWord(lexeme);
    case Boolean(b) =>
      assert forall i :: 0 <= i < |AtomText(a)| ==> !Lexer.EndsAtom(AtomText(a)[i]);
  }

  /** Whatever the atom reader returns is printable. */
  lemma ParsedPrintable(text: string)
    requires Lexer.IsWord(text)
    ensures AtomPrintable(ParseAtom(text))
  {
  }
}
