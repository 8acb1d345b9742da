/** What words, string literals and comments mean, character by character (src/weave_frontend/sexpr.py). */
module Grammar {
  import opened Chars
  import opened Lexer
  import opened Trees
  import opened Atoms

  // ----- numbers

  predicate Digits(s: string) {
    forall i :: 0 <= i < |s| ==> '0' <= s[i] <= '9'
  }

  predicate Sign(s: string) {
    s == "" || s == "+" || s == "-"
  }

  /** The letter e, an optional sign and digits. */
  ghost predicate Exponent(e: string) {
    exists letter, sign, d :: (letter == "e" || letter == "E") && Sign(sign) && Digits(d) && d != "" && e == letter + sign + d
  }

  ghost predicate SignedDigits(v: string) {
    exists sign, d :: Sign(sign) && Digits(d) && d != "" && v == sign + d
  }

  predicate Point(v: string, sign: string, a: string, b: string, e: string) {
    Sign(sign) && Digits(a) && Digits(b) && (a != "" || b != "") && v == sign + a + "." + b + e
  }

  /** Digits around a point, at least one in all, and perhaps an exponent. */
  ghost predicate Pointed(v: string) {
    exists sign, a, b, e :: Point(v, sign, a, b, e) && (e == "" || Exponent(e))
  }

  predicate Scale(v: string, sign: string, a: string, e: string) {
    Sign(sign) && Digits(a) && a != "" && v == sign + a + e
  }

  /** Digits with an exponent. */
  ghost predicate Scaled(v: string) {
    exists sign, a, e :: Scale(v, sign, a, e) && Exponent(e)
  }

  lemma Signed(sign: string, u: string)
    requires Sign(sign) && u != "" && u[0] != '+' && u[0] != '-'
    ensures StripSign(sign + u) == u
  {
    if sign == "" {
      assert sign + u == u;
    } else {
      assert (sign + u)[1..] == u;
    }
  }

  lemma Unsigned(v: string) returns (sign: string)
    ensures Sign(sign) && v == sign + StripSign(v)
  {
    sign := if v != "" && (v[0] == '-' || v[0] == '+') then v[..1] else "";
    assert v == sign + StripSign(v);
  }

  lemma {:induction false} DigitsThen(a: string, k: string)
    requires Digits(a) && (k == "" || !IsDigit(k[0]))
    ensures DigitLen(a + k) == |a|
  {
    if a == "" {
      assert a + k == k;
    } else {
      assert (a + k)[1..] == a[1..] + k;
      DigitsThen(a[1..], k);
    }
  }

  lemma {:induction false} DigitsEnd(s: string)
    ensures DigitLen(s) < |s| ==> !IsDigit(s[DigitLen(s)])
  {
    if s != "" && IsDigit(s[0]) {
      DigitsEnd(s[1..]);
    }
  }

  lemma ExponentExactly(e: string)
    ensures IsExponent(e) <==> Exponent(e)
  {
    if IsExponent(e) {
      var sign := Unsigned(e[1..]);
      var letter, d := e[..1], StripSign(e[1..]);
      assert e == letter + sign + d && letter == [e[0]];
    }
    if letter, sign, d :| (letter == "e" || letter == "E") && Sign(sign) && Digits(d) && d != "" && e == letter + sign + d {
      assert e[1..] == sign + d;
      Signed(sign, d);
    }
  }

  lemma IntegerExactly(v: string)
    ensures IsInteger(v) <==> SignedDigits(v)
  {
    if IsInteger(v) {
      var sign := Unsigned(v);
      assert Digits(StripSign(v));
    }
    if sign, d :| Sign(sign) && Digits(d) && d != "" && v == sign + d {
      Signed(sign, d);
    }
  }

  lemma FloatAtPoint(v: string, u: string, n: nat, w: string, m: nat)
    requires StripSign(v) == u && DigitLen(u) == n && n < |u| && u[n] == '.' && w == u[n + 1..] && DigitLen(w) == m
    requires (n > 0 || m > 0) && (m == |w| || IsExponent(w[m..]))
    ensures IsFloat(v)
  {
    hide IsExponent;
    hide StripSign;
    hide DigitLen;
  }

  lemma PointedIsFloat(sign: string, a: string, b: string, e: string)
    requires Sign(sign) && Digits(a) && Digits(b) && (a != "" || b != "") && (e == "" || Exponent(e))
    ensures IsFloat(sign + a + "." + b + e)
  {
    hide IsFloat;
    hide DigitLen;
    hide StripSign;
    var rest := b + e;
    var u := a + ("." + rest);
    Joined(sign, a, b, e);
    Signed(sign, u);
    DigitsThen(a, "." + rest);
    assert u[|a|] == '.' && u[|a| + 1..] == rest && rest[|b|..] == e;
    if e != "" {
      ExponentExactly(e);
      ExponentLetter(e);
    }
    hide Exponent;
    hide IsExponent;
    DigitsThen(b, e);
    FloatAtPoint(sign + u, u, |a|, rest, |b|);
  }

  lemma Joined(sign: string, a: string, b: string, e: string)
    ensures sign + a + "." + b + e == sign + (a + ("." + (b + e)))
  {
  }

  lemma ExponentLetter(e: string)
    requires IsExponent(e)
    ensures e != "" && !IsDigit(e[0])
  {
  }

  lemma ScaledIsFloat(sign: string, a: string, e: string)
    requires Sign(sign) && Digits(a) && a != "" && Exponent(e)
    ensures IsFloat(sign + a + e)
  {
    var u := a + e;
    assert sign + a + e == sign + u;
    Signed(sign, u);
    ExponentExactly(e);
    DigitsThen(a, e);
    assert u[|a|] == e[0] && u[|a|..] == e;
  }

  lemma FloatHasShape(v: string)
    requires IsFloat(v)
    ensures Pointed(v) || Scaled(v)
  {
    hide Exponent;
    var sign := Unsigned(v);
    var u := StripSign(v);
    var n := DigitLen(u);
    if u[n] == '.' {
      PointAt(v, sign, u, n);
    } else {
      ScaleAt(v, sign, u, n);
    }
    hide IsExponent;
  }

  lemma PointAt(v: string, sign: string, u: string, n: nat)
    requires Sign(sign) && v == sign + u && n < |u| && u[n] == '.' && Digits(u[..n])
    requires var w := u[n + 1..]; (n > 0 || DigitLen(w) > 0) && (DigitLen(w) == |w| || IsExponent(w[DigitLen(w)..]))
    ensures Pointed(v)
  {
    hide Exponent;
    hide IsExponent;
    var w := u[n + 1..];
    var m := DigitLen(w);
    if m < |w| {
      ExponentExactly(w[m..]);
    }
    hide DigitLen;
    Joined(sign, u[..n], w[..m], w[m..]);
    assert w[..m] + w[m..] == w && u == u[..n] + ("." + w);
    assert Digits(w[..m]);
    assert Point(v, sign, u[..n], w[..m], w[m..]);
  }

  lemma ScaleAt(v: string, sign: string, u: string, n: nat)
    requires Sign(sign) && v == sign + u && 0 < n < |u| && Digits(u[..n]) && IsExponent(u[n..])
    ensures Scaled(v)
  {
    hide Exponent;
    ExponentExactly(u[n..]);
    hide IsExponent;
    assert v == sign + u[..n] + u[n..];
    assert Scale(v, sign, u[..n], u[n..]);
  }

  /** A word is read as a float exactly when it has one of the two shapes. */
  lemma FloatExactly(v: string)
    ensures IsFloat(v) <==> Pointed(v) || Scaled(v)
  {
    hide IsFloat;
    if IsFloat(v) {
      FloatHasShape(v);
    }
    if sign, a, b, e :| Point(v, sign, a, b, e) && (e == "" || Exponent(e)) {
      PointedIsFloat(sign, a, b, e);
    }
    if sign, a, e :| Scale(v, sign, a, e) && Exponent(e) {
      ScaledIsFloat(sign, a, e);
    }
  }

  function Pow10(n: nat): nat {
    if n == 0 then 1 else 10 * Pow10(n - 1)
  }

  /** The first digit counts for its value times ten for every digit after it. */
  lemma {:induction false} PlaceValue(c: char, s: string)
    requires IsDigit(c) && Digits(s)
    ensures NatValue([c] + s) == (c as int - 0x30) * Pow10(|s|) + NatValue(s)
    decreases |s|
  {
    var t := [c] + s;
    if s == "" {
      assert t[..0] == "" && NatValue(t) == 10 * NatValue(t[..|t| - 1]) + DigitValue(t[|t| - 1]);
    } else {
      var init, last := s[..|s| - 1], s[|s| - 1];
      PlaceValue(c, init);
      assert t[..|t| - 1] == [c] + init && t[|t| - 1] == last;
      TenTimes(c as int - 0x30, |init|);
    }
  }

  lemma TenTimes(d: int, n: nat)
    ensures 10 * (d * Pow10(n)) == d * Pow10(n + 1)
  {
    var p := Pow10(n);
    assert Pow10(n + 1) == 10 * p;
    hide Pow10;
    assert 10 * (d * p) == d * (10 * p);
  }

  /** Signed digits are that integer, a plus sign included. */
  lemma SignedMeans(sign: string, d: string)
    requires Sign(sign) && Digits(d) && d != ""
    ensures ParseAtom(sign + d) == Integer(if sign == "-" then -(NatValue(d) as int) else NatValue(d))
  {
    Signed(sign, d);
    assert sign != "" ==> (sign + d)[0] == sign[0];
    assert sign == "" ==> sign + d == d;
    assert IsDigit(d[0]) && "true"[0] == 't' && "false"[0] == 'f';
  }

  /** What a word is read as. */
  lemma WordMeans(v: string)
    ensures v == "true" ==> ParseAtom(v) == Boolean(true)
    ensures v == "false" ==> ParseAtom(v) == Boolean(false)
    ensures ParseAtom(v).Integer? <==> SignedDigits(v)
    ensures ParseAtom(v) == Float(v) <==> Pointed(v) || Scaled(v)
    ensures ParseAtom(v) == Symbol(v) <==> v != "true" && v != "false" && !SignedDigits(v) && !Pointed(v) && !Scaled(v)
  {
    hide Pointed;
    hide Scaled;
    IntegerExactly(v);
    FloatExactly(v);
    if IsInteger(v) || IsFloat(v) {
      NumberIsNoWord(v);
    }
    hide IsFloat;
  }

  lemma NumberIsNoWord(v: string)
    requires IsInteger(v) || IsFloat(v)
    ensures v != "true" && v != "false" && !(IsInteger(v) && IsFloat(v))
  {
    if IsFloat(v) {
      FloatNumeric(v);
      NumericWord(v);
    } else {
      assert "true"[0] == 't' && "false"[0] == 'f';
    }
  }

  lemma {:induction false} NatDigits(n: nat)
    ensures Digits(NatText(n)) && NatText(n) != "" && (NatText(n)[0] == '0' <==> n == 0)
  {
    if n >= 10 {
      NatDigits(n / 10);
    }
  }

  /** An integer is printed without a plus sign and without leading zeros. */
  lemma IntegerText(n: int)
    ensures exists d :: Digits(d) && d != "" && IntText(n) == (if n < 0 then "-" else "") + d && (d[0] == '0' ==> n == 0 && d == "0")
  {
    var m := if n < 0 then -n else n;
    NatDigits(m);
    assert IntText(n) == (if n < 0 then "-" else "") + NatText(m);
  }

  // ----- string literals

  /** Inside a literal every character but the quote and the backslash stands for itself. */
  lemma PlainCharacter(c: char, k: string)
    requires c != '"' && c != '\\'
    ensures LexString([c] + k) == Prepend([c], LexString(k))
  {
    assert ([c] + k)[1..] == k;
  }

  /** After a backslash n, r and t stand for line feed, carriage return and tab, the quote and the backslash for
      themselves, and any other character for the backslash and itself. */
  lemma EscapedCharacter(c: char, k: string)
    ensures LexString("\\" + [c] + k) == Prepend(
      if c == 'n' then ['\n'] else if c == 'r' then ['\r'] else if c == 't' then ['\t']
      else if c == '"' || c == '\\' then [c] else ['\\', c], LexString(k))
  {
    var s := "\\" + [c] + k;
    assert s[2..] == k && s[0] == '\\' && s[1] == c;
  }

  /** A quote ends a literal; without one there is none. */
  lemma LiteralEnds(k: string)
    ensures LexString("\"" + k) == Closed("", k)
    ensures LexString("") == Unclosed("unterminated string literal") && LexString("\\") == Unclosed("unterminated string escape")
  {
    assert ("\"" + k)[1..] == k;
  }

  lemma QuoteOpens(k: string)
    ensures Lex("\"" + k) == if LexString(k).Closed? then [Str(LexString(k).value)] + Lex(LexString(k).rest) else [Bad(LexString(k).message)]
  {
    assert ("\"" + k)[1..] == k;
  }

  /** Printed strings hold no raw control character that has an escape, and only escaped quotes and
      backslashes. */
  lemma {:induction false} EscapesPlain(value: string)
    ensures '\n' !in Escapes(value) && '\r' !in Escapes(value) && '\t' !in Escapes(value)
    ensures |Escapes(value)| <= 2 * |value|
  {
    if value != "" {
      EscapesPlain(value[1..]);
    }
  }

  // ----- comments and words

  lemma {:induction false} CommentLine(text: string, k: string)
    requires '\n' !in text && '\r' !in text && (k == "" || k[0] == '\n' || k[0] == '\r')
    ensures CommentLen(text + k) == |text|
  {
    if text == "" {
      assert text + k == k;
    } else {
      assert (text + k)[1..] == text[1..] + k;
      CommentLine(text[1..], k);
    }
  }

  /** A semicolon hides the rest of its line, up to a line feed or a carriage return. */
  lemma CommentHides(text: string, k: string)
    requires '\n' !in text && '\r' !in text && (k == "" || k[0] == '\n' || k[0] == '\r')
    ensures Lex(";" + text + k) == Lex(k)
  {
    var s := ";" + text + k;
    CommentLine(";" + text, k);
    assert s == ";" + text + k && s[|text| + 1..] == k;
  }

  /** A word ends at whitespace, a parenthesis or a semicolon, and nowhere else. */
  lemma WordEnds(w: string, k: string)
    requires IsWord(w) && (k == "" || IsSpace(k[0]) || k[0] in "();")
    ensures Lex(w + k) == [Atom(w)] + Lex(k)
  {
    WordLength(w, k);
    assert (w + k)[..|w|] == w && (w + k)[|w|..] == k;
  }

  lemma {:induction false} WordLength(w: string, k: string)
    requires (forall i :: 0 <= i < |w| ==> !EndsAtom(w[i])) && (k == "" || EndsAtom(k[0]))
    ensures AtomLen(w + k) == |w|
  {
    if w == "" {
      assert w + k == k;
    } else {
      assert (w + k)[1..] == w[1..] + k;
      WordLength(w[1..], k);
    }
  }

  lemma WordCharacters(w: string)
    ensures IsWord(w) <==> w != "" && w[0] != '"' && forall i :: 0 <= i < |w| ==> !IsSpace(w[i]) && w[i] !in "();"
  {
  }
}
