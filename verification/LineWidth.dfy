/** What the printers put on one line and what they break (src/weave_frontend/sexpr.py). */
module LineWidth {
  import opened Chars
  import opened Trees
  import opened Atoms
  import opened Lexer
  import opened Printer
  import opened RoundTrip

  /** The one-line forms of some nodes, and their forms at an indentation. */
  function FlatTexts(ts: seq<Tree>): (r: seq<string>) {
    seq(|ts|, i requires 0 <= i < |ts| => Flat(ts[i]))
  }

  function CanonicalTexts(ts: seq<Tree>, indent: nat): seq<string> {
    seq(|ts|, i requires 0 <= i < |ts| => Canonical(ts[i], indent))
  }

  function AnnotatedTexts(ts: seq<Tree>, indent: nat, atoms: bool): seq<string> {
    seq(|ts|, i requires 0 <= i < |ts| => Annotated(ts[i], indent, atoms))
  }

  lemma {:induction false} FlatJoins(ts: seq<Tree>)
    ensures FlatKids(ts) == Join(FlatTexts(ts), " ")
  {
    if |ts| > 1 {
      var init := ts[..|ts| - 1];
      FlatJoins(init);
      assert FlatTexts(ts)[..|ts| - 1] == FlatTexts(init);
    }
  }

  lemma {:induction false} LinesJoin(ts: seq<Tree>, indent: nat)
    requires ts != []
    ensures Lines(ts, indent) == Join(CanonicalTexts(ts, indent), "\n" + Spaces(indent))
  {
    if |ts| > 1 {
      var init := ts[..|ts| - 1];
      LinesJoin(init, indent);
      assert CanonicalTexts(ts, indent)[..|ts| - 1] == CanonicalTexts(init, indent);
    }
  }

  /** A list is printed on one line, single spaces between its children, when that ends within 88 columns, and
      otherwise one child a line, two columns further in. */
  lemma CanonicalForms(t: Tree, indent: nat)
    requires t.List? && t.children != []
    ensures var flat := "(" + Join(FlatTexts(t.children), " ") + ")";
      && Flat(t) == flat
      && Canonical(t, indent) == if indent + |flat| <= 88 then flat
                                 else "(" + Join(CanonicalTexts(t.children, indent + 2), "\n" + seq(indent + 2, _ => ' ')) + ")"
  {
    FlatJoins(t.children);
    LinesJoin(t.children, indent + 2);
    assert Spaces(indent + 2) == seq(indent + 2, _ => ' ');
  }

  lemma AtomOneLine(a: Trees.Atom)
    requires AtomPrintable(a)
    ensures '\n' !in AtomText(a)
  {
    if a.Text? {
      EscapeIs(a.text);
      EscapesClean(a.text);
    } else {
      AtomReads(a);
    }
  }

  lemma {:induction false} FlatOneLine(t: Tree)
    requires Printable(t)
    ensures '\n' !in Flat(t)
    decreases t, 1
  {
    if t.Leaf? {
      AtomOneLine(t.atom);
    } else {
      FlatKidsOneLine(t.children);
    }
  }

  lemma {:induction false} FlatKidsOneLine(ts: seq<Tree>)
    requires forall i :: 0 <= i < |ts| ==> Printable(ts[i])
    ensures '\n' !in FlatKids(ts)
    decreases ts, 0
  {
    if ts != [] {
      FlatKidsOneLine(ts[..|ts| - 1]);
      FlatOneLine(ts[|ts| - 1]);
    }
  }

  /** A list of two children or more stands on one line exactly when its one-line form ends within 88 columns. */
  lemma OneLineExactly(t: Tree, indent: nat)
    requires Printable(t) && t.List? && |t.children| >= 2
    ensures '\n' !in Canonical(t, indent) <==> indent + |Flat(t)| <= 88
  {
    FlatOneLine(t);
    var lines := Lines(t.children, indent + 2);
    var init, last := Lines(t.children[..|t.children| - 1], indent + 2), Canonical(t.children[|t.children| - 1], indent + 2);
    assert lines == init + ("\n" + Spaces(indent + 2)) + last;
    assert lines[|init|] == '\n';
  }

  // ----- annotated text

  lemma {:induction false} KidsTexts(ts: seq<Tree>, indent: nat, atoms: bool)
    ensures AnnotatedKids(ts, indent, atoms) == AnnotatedTexts(ts, indent, atoms)
  {
    hide Annotated;
    if ts != [] {
      KidsTexts(ts[..|ts| - 1], indent, atoms);
    }
  }

  lemma {:induction false} ReindentLines(s: string, pad: string)
    ensures '\n' in Reindent(s, pad) <==> '\n' in s
    ensures '\n' !in s ==> Reindent(s, pad) == s
  {
    if s != "" {
      ReindentLines(s[1..], pad);
      assert s == [s[0]] + s[1..];
    }
  }

  lemma {:induction false} JoinLines(texts: seq<string>, sep: string)
    ensures '\n' in Join(texts, sep) <==> (exists i :: 0 <= i < |texts| && '\n' in texts[i]) || (|texts| > 1 && '\n' in sep)
  {
    if |texts| > 1 {
      JoinLines(texts[..|texts| - 1], sep);
    }
  }

  lemma CoreOneLine(texts: seq<string>, indent: nat)
    ensures '\n' !in AnnotatedCore(texts, indent) <==>
            OneLine(texts) && (|texts| < 2 || indent + |"(" + Join(texts, " ") + ")"| <= 88)
  {
    JoinLines(texts, " ");
    hide Join;
    hide Aligned;
    var core := AnnotatedCore(texts, indent);
    if |texts| == 1 {
      Bracketed(texts[0]);
    } else if |texts| > 1 {
      var rest := Join(Aligned(texts[1..], Spaces(indent + 2)), "\n");
      Bracketed(texts[0] + "\n" + rest);
      Bracketed(Join(texts, " "));
      assert (texts[0] + "\n" + rest)[|texts[0]|] == '\n';
      assert "(" + (texts[0] + "\n" + rest) + ")" == "(" + texts[0] + "\n" + rest + ")";
    }
  }

  lemma Bracketed(s: string)
    ensures '\n' in "(" + s + ")" <==> '\n' in s
  {
  }

  lemma WrappedLines(id: string, s: string)
    requires '\n' !in id
    ensures '\n' in "(@" + id + " " + s + ")" <==> '\n' in s
  {
  }

  /** An annotated list stands on one line exactly when its children do and, with single spaces between them, end
      within 88 columns; one child never breaks the line. */
  lemma AnnotatedOneLine(t: Tree, indent: nat, atoms: bool)
    requires t.List? && '\n' !in t.id
    ensures var texts := AnnotatedTexts(t.children, indent + 2, atoms);
      '\n' !in Annotated(t, indent, atoms) <==>
      && (forall i :: 0 <= i < |texts| ==> '\n' !in texts[i])
      && (|texts| < 2 || indent + |"(" + Join(texts, " ") + ")"| <= 88)
  {
    hide Reindent;
    hide Join;
    hide AnnotatedCore;
    hide AnnotatedTexts;
    hide AnnotatedKids;
    var texts := AnnotatedTexts(t.children, indent + 2, atoms);
    var core := AnnotatedCore(texts, indent);
    KidsTexts(t.children, indent + 2, atoms);
    CoreOneLine(texts, indent);
    ReindentLines(core, Spaces(indent + 2));
    WrappedLines(t.id, Reindent(core, Spaces(indent + 2)));
  }

  /** The texts with the lines after their first one moved in. */
  function MovedIn(texts: seq<string>, pad: string): seq<string> {
    seq(|texts|, i requires 0 <= i < |texts| => Reindent(texts[i], pad))
  }

  lemma {:induction false} ReindentTwice(s: string, p: string, q: string)
    requires '\n' !in p && '\n' !in q
    ensures Reindent(Reindent(s, p), q) == Reindent(s, q + p)
  {
    hide Reindent;
    if s == "" {
      NothingReindented();
    } else {
      var c, rest := [s[0]], s[1..];
      assert s == c + rest;
      ReindentConcat(c, rest, p);
      ReindentConcat(Reindent(c, p), Reindent(rest, p), q);
      ReindentConcat(c, rest, q + p);
      OneReindented(s[0], p, q);
      ReindentTwice(rest, p, q);
    }
  }

  lemma NothingReindented()
    ensures forall p :: Reindent("", p) == ""
  {
  }

  lemma OneReindented(c: char, p: string, q: string)
    requires '\n' !in p
    ensures Reindent(Reindent([c], p), q) == Reindent([c], q + p)
  {
    hide Replace;
    if c == '\n' {
      ReplaceOne('\n', "\n" + p);
      ReplaceOne('\n', "\n" + q);
      ReplaceOne('\n', "\n" + (q + p));
      hide Reindent;
      ReindentConcat("\n", p, q);
      ReindentLines(p, q);
      assert ("\n" + q) + p == "\n" + (q + p);
    } else {
      ReindentLines([c], p);
      ReindentLines([c], q);
      ReindentLines([c], q + p);
    }
  }

  lemma JoinMore(texts: seq<string>, text: string, sep: string)
    requires texts != []
    ensures Join(texts + [text], sep) == Join(texts, sep) + sep + text
  {
    assert (texts + [text])[..|texts|] == texts;
  }

  lemma JoinOne(text: string, sep: string)
    ensures Join([text], sep) == text
  {
  }

  // Lines that are aligned and then moved in, behind a first one.
  lemma {:induction false} AlignedMoved(head: string, texts: seq<string>, pad: string)
    requires texts != [] && '\n' !in pad
    ensures Reindent(head + "\n" + Join(Aligned(texts, pad), "\n"), pad) ==
            Join([Reindent(head, pad)] + MovedIn(texts, pad + pad), "\n" + pad + pad)
    decreases |texts|
  {
    hide Reindent;
    hide Join;
    var n := |texts| - 1;
    var init, own := texts[..n], Reindent(texts[n], pad);
    var moved, sep := [Reindent(head, pad)] + MovedIn(init, pad + pad), "\n" + pad + pad;
    assert [Reindent(head, pad)] + MovedIn(texts, pad + pad) == moved + [Reindent(texts[n], pad + pad)];
    JoinMore(moved, Reindent(texts[n], pad + pad), sep);
    LineMoved(texts[n], pad);
    if n == 0 {
      assert Aligned(texts[..0], pad) == [] && Aligned(texts, pad) == [pad + own] && moved == [Reindent(head, pad)];
      JoinOne(pad + own, "\n");
      JoinOne(Reindent(head, pad), sep);
      assert head + "\n" + (pad + own) == head + ("\n" + (pad + own));
      ReindentConcat(head, "\n" + (pad + own), pad);
    } else {
      var before := head + "\n" + Join(Aligned(init, pad), "\n");
      AlignedMoved(head, init, pad);
      JoinMore(Aligned(init, pad), pad + own, "\n");
      assert head + "\n" + Join(Aligned(texts, pad), "\n") == before + ("\n" + (pad + own));
      ReindentConcat(before, "\n" + (pad + own), pad);
    }
  }

  lemma ReindentConcat(a: string, b: string, pad: string)
    ensures Reindent(a + b, pad) == Reindent(a, pad) + Reindent(b, pad)
  {
    ReplaceConcat(a, b, '\n', "\n" + pad);
  }

  lemma LineMoved(text: string, pad: string)
    requires '\n' !in pad
    ensures Reindent("\n" + (pad + Reindent(text, pad)), pad) == "\n" + pad + pad + Reindent(text, pad + pad)
  {
    ReindentConcat("\n", pad + Reindent(text, pad), pad);
    ReindentConcat(pad, Reindent(text, pad), pad);
    ReplaceOne('\n', "\n" + pad);
    ReindentLines(pad, pad);
    ReindentTwice(text, pad, pad);
  }

  /** Broken, the children of an annotated list stand one a line, at twice the indentation of the list inside the
      wrapper, and their own lines move in with them. */
  lemma AnnotatedForms(t: Tree, indent: nat, atoms: bool)
    requires t.List? && t.children != []
    ensures var texts, pad := AnnotatedTexts(t.children, indent + 2, atoms), seq(indent + 2, _ => ' ');
      var flat := "(" + Join(texts, " ") + ")";
      Annotated(t, indent, atoms) == "(@" + t.id + " " +
        (if OneLine(texts) && indent + |flat| <= 88 then flat
         else "(" + Join([Reindent(texts[0], pad)] + MovedIn(texts[1..], pad + pad), "\n" + pad + pad) + ")") + ")"
  {
    hide Join;
    hide Aligned;
    hide Reindent;
    hide MovedIn;
    var texts, pad := AnnotatedTexts(t.children, indent + 2, atoms), seq(indent + 2, _ => ' ');
    var flat, core := "(" + Join(texts, " ") + ")", AnnotatedCore(texts, indent);
    KidsTexts(t.children, indent + 2, atoms);
    assert Spaces(indent + 2) == pad;
    if OneLine(texts) && indent + |flat| <= 88 {
      JoinLines(texts, " ");
      ReindentLines(flat, pad);
    } else {
      CoreMoved(texts, pad, core);
    }
  }

  lemma CoreMoved(texts: seq<string>, pad: string, core: string)
    requires texts != [] && '\n' !in pad
    requires core == if |texts| == 1 then "(" + texts[0] + ")" else "(" + texts[0] + "\n" + Join(Aligned(texts[1..], pad), "\n") + ")"
    ensures Reindent(core, pad) == "(" + Join([Reindent(texts[0], pad)] + MovedIn(texts[1..], pad + pad), "\n" + pad + pad) + ")"
  {
    var inside := if |texts| == 1 then texts[0] else texts[0] + "\n" + Join(Aligned(texts[1..], pad), "\n");
    assert core == "(" + inside + ")";
    ReindentConcat("(" + inside, ")", pad);
    ReindentConcat("(", inside, pad);
    ReindentLines("(", pad);
    ReindentLines(")", pad);
    hide Reindent;
    if |texts| > 1 {
      AlignedMoved(texts[0], texts[1..], pad);
    } else {
      assert MovedIn(texts[1..], pad + pad) == [];
      assert [Reindent(texts[0], pad)] + [] == [Reindent(texts[0], pad)];
    }
  }
}
