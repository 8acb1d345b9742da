/** The canonical and the annotated printer (src/weave_frontend/sexpr.py). */
module Printer {
  import opened Prelude
  import opened Chars
  import opened Trees
  import opened Atoms
  import opened Validity

  const WIDTH := 88

  function Join(texts: seq<string>, sep: string): string {
    if texts == [] then ""
    else if |texts| == 1 then texts[0]
    else Join(texts[..|texts| - 1], sep) + sep + texts[|texts| - 1]
  }

  // ----- canonical text

  /** The one-line form. */
  function Flat(t: Tree): string {
    if t.Leaf? then AtomText(t.atom) else "(" + FlatKids(t.children) + ")"
  }

  function FlatKids(ts: seq<Tree>): string {
    if ts == [] then ""
    else if |ts| == 1 then Flat(ts[0])
    else FlatKids(ts[..|ts| - 1]) + " " + Flat(ts[|ts| - 1])
  }

  function LineRoom(indent: nat): nat {
    if indent <= WIDTH then WIDTH - indent else 0
  }

  function Canonical(t: Tree, indent: nat): string
    decreases t, 1
  {
    if t.Leaf? then AtomText(t.atom)
    else if t.children == [] then "()"
    else if |Flat(t)| <= LineRoom(indent) then Flat(t)
    else "(" + Lines(t.children, indent + 2) + ")"
  }

  function Lines(ts: seq<Tree>, indent: nat): string
    requires ts != []
    decreases ts, 0
  {
    var last := Canonical(ts[|ts| - 1], indent);
    if |ts| == 1 then last
    else Lines(ts[..|ts| - 1], indent) + ("\n" + Spaces(indent)) + last
  }

  // ----- annotated text

  function Reindent(s: string, pad: string): string {
    Replace(s, '\n', "\n" + pad)
  }

  function Annotated(t: Tree, indent: nat, atoms: bool): string
    decreases t, 1
  {
    if t.Leaf? then
      if atoms then "(@" + t.id + " " + AtomText(t.atom) + ")" else AtomText(t.atom)
    else
      "(@" + t.id + " " + Reindent(AnnotatedCore(AnnotatedKids(t.children, indent + 2, atoms), indent), Spaces(indent + 2)) + ")"
  }

  function AnnotatedKids(ts: seq<Tree>, indent: nat, atoms: bool): seq<string>
    decreases ts, 0
  {
    if ts == [] then []
    else AnnotatedKids(ts[..|ts| - 1], indent, atoms) + [Annotated(ts[|ts| - 1], indent, atoms)]
  }

  predicate OneLine(texts: seq<string>) {
    forall i :: 0 <= i < |texts| ==> '\n' !in texts[i]
  }

  function Aligned(texts: seq<string>, pad: string): seq<string> {
    if texts == [] then []
    else Aligned(texts[..|texts| - 1], pad) + [pad + Reindent(texts[|texts| - 1], pad)]
  }

  function AnnotatedCore(texts: seq<string>, indent: nat): string {
    if texts == [] then "()"
    else
      var compact := "(" + Join(texts, " ") + ")";
      if OneLine(texts) && indent + |compact| <= WIDTH then compact
      else if |texts| == 1 then "(" + texts[0] + ")"
      else "(" + texts[0] + "\n" + Join(Aligned(texts[1..], Spaces(indent + 2)), "\n") + ")"
  }

  // ----- the canonical printer as the source runs it

  lemma {:induction false} FlatKidsPrefix(ts: seq<Tree>, k: nat)
    requires k <= |ts|
    ensures |FlatKids(ts[..k])| <= |FlatKids(ts)|
    ensures 0 < k < |ts| ==> |FlatKids(ts[..k])| + 1 + |Flat(ts[k])| <= |FlatKids(ts)|
    ensures k == 0 && ts != [] ==> |Flat(ts[0])| <= |FlatKids(ts)|
    decreases |ts|
  {
    if k == |ts| {
      assert ts[..k] == ts;
    } else {
      var init := ts[..|ts| - 1];
      FlatKidsPrefix(init, k);
      assert init[..k] == ts[..k];
    }
  }

  lemma FlatKidsSnoc(ts: seq<Tree>, k: nat)
    requires k < |ts|
    ensures FlatKids(ts[..k + 1]) == FlatKids(ts[..k]) + (if k > 0 then " " else "") + Flat(ts[k])
  {
    var s := ts[..k + 1];
    assert s[..|s| - 1] == ts[..k] && s[k] == ts[k];
    if k == 0 {
      assert FlatKids(ts[..0]) == "";
    }
  }

  /** The flat text, unless it is longer than the room that remains. */
  method FlatTextIfFits(t: Tree, remaining: int) returns (r: Option<string>)
    ensures r == if |Flat(t)| <= remaining then Some(Flat(t)) else None
    decreases t
  {
    if remaining < 0 {
      return None;
    }
    if t.Leaf? {
      return if |AtomText(t.atom)| <= remaining then Some(AtomText(t.atom)) else None;
    }
    var text := "(";
    var used := 1;
    for index := 0 to |t.children|
      invariant text == "(" + FlatKids(t.children[..index]) && used == |text|
    {
      FlatKidsPrefix(t.children, index);
      FlatKidsSnoc(t.children, index);
      if index > 0 {
        if used + 1 > remaining {
          return None;
        }
        text, used := text + " ", used + 1;
      }
      var child := FlatTextIfFits(t.children[index], remaining - used);
      if child.None? {
        return None;
      }
      text, used := text + child.value, used + |child.value|;
    }
    assert t.children[..|t.children|] == t.children;
    if used + 1 > remaining {
      return None;
    }
    return Some(text + ")");
  }

  /** A printer collects the parts of its output. */
  class CanonicalPrinter {
    var parts: seq<string>

    constructor ()
      ensures Written() == ""
    {
      parts := [];
    }

    function Written(): string
      reads this
    {
      Join(parts, "")
    }

    method Append(text: string)
      modifies this
      ensures Written() == old(Written()) + text
    {
      parts := parts + [text];
      assert parts[..|parts| - 1] == old(parts);
    }

    method Render(t: Tree, indent: nat)
      modifies this
      ensures Written() == old(Written()) + Canonical(t, indent)
      decreases t, 1
    {
      hide Written;
      hide Flat;
      hide Lines;
      if t.Leaf? {
        Append(AtomText(t.atom));
        return;
      }
      if t.children == [] {
        Append("()");
        return;
      }
      var flat := FlatTextIfFits(t, LineRoom(indent));
      if flat.Some? {
        Append(flat.value);
        return;
      }
      Append("(");
      RenderLines(t.children, indent + 2);
      Append(")");
    }

    // The children, one a line.
    method RenderLines(ts: seq<Tree>, indent: nat)
      requires ts != []
      modifies this
      ensures Written() == old(Written()) + Lines(ts, indent)
      decreases ts, 0
    {
      hide Written;
      hide Canonical;
      Render(ts[0], indent);
      var padding := Spaces(indent);
      for k := 1 to |ts|
        invariant Written() == old(Written()) + Lines(ts[..k], indent)
      {
        Append("\n" + padding);
        Render(ts[k], indent);
        assert ts[..k + 1][..k] == ts[..k];
      }
      assert ts[..|ts|] == ts;
    }
  }

  /** Rendering fails on an invalid tree and on output over the limit; otherwise it is the text. */
  method RenderNode(t: Tree, annotated: bool, atoms: bool) returns (r: Option<string>)
    ensures var text := if annotated then Annotated(t, 0, atoms) else Canonical(t, 0);
      r == if ValidTree(t) && Utf8(text) <= MAX_RENDERED_SOURCE_BYTES then Some(text) else None
  {
    var valid := ValidateTree(t);
    if !valid {
      return None;
    }
    var text;
    if annotated {
      text := Annotated(t, 0, atoms);
    } else {
      var printer := new CanonicalPrinter();
      printer.Render(t, 0);
      text := printer.Written();
      assert text == "" + Canonical(t, 0) == Canonical(t, 0);
    }
    assert text == if annotated then Annotated(t, 0, atoms) else Canonical(t, 0);
    hide *;
    if Utf8(text) <= MAX_RENDERED_SOURCE_BYTES {
      return Some(text);
    }
    return None;
  }
}
