/** The second canonical printer, which records where every node lands (src/weave_frontend/source_map.py). */
module SourceMap {
  import opened Prelude
  import opened Chars
  import opened Trees
  import opened Atoms
  import opened Validity
  import opened Printer

  datatype Position = Position(byte: nat, line: nat, column: nat)
  datatype Span = Span(id: NodeId, start: Position, end: Position)

  // ----- positions, recounted from a prefix of the text

  function Newlines(s: string): nat {
    if s == "" then 0 else Newlines(s[..|s| - 1]) + if s[|s| - 1] == '\n' then 1 else 0
  }

  /** The index where the last line starts. */
  function LineStart(s: string): (r: nat)
    ensures r <= |s|
  {
    if s == "" then 0
    else if s[|s| - 1] == '\n' then |s|
    else LineStart(s[..|s| - 1])
  }

  /** Line and column count from one, bytes from zero. */
  function PositionAfter(s: string): Position {
    Position(Utf8(s), 1 + Newlines(s), 1 + |s| - LineStart(s))
  }

  function SpanOf(id: NodeId, before: string, text: string): Span {
    Span(id, PositionAfter(before), PositionAfter(before + text))
  }

  lemma {:induction false} PositionConcat(a: string, b: string)
    ensures Newlines(a + b) == Newlines(a) + Newlines(b)
    ensures LineStart(a + b) == if '\n' in b then |a| + LineStart(b) else LineStart(a)
    decreases |b|
  {
    if b == "" {
      assert a + b == a;
    } else {
      var init := b[..|b| - 1];
      PositionConcat(a, init);
      assert (a + b)[..|a + b| - 1] == a + init && b == init + [b[|b| - 1]];
    }
  }

  lemma {:induction false} OneLinePosition(s: string)
    requires '\n' !in s
    ensures Newlines(s) == 0
  {
    if s != "" {
      OneLinePosition(s[..|s| - 1]);
    }
  }

  // ----- the layout both printers follow

  function Fits(t: Tree, indent: nat): bool {
    |Flat(t)| <= LineRoom(indent)
  }

  /** What stands between two children. */
  function Separator(t: Tree, indent: nat): string {
    if Fits(t, indent) then " " else "\n" + Spaces(indent + 2)
  }

  function Body(ts: seq<Tree>, indent: nat, sep: string): string {
    if ts == [] then ""
    else if |ts| == 1 then Canonical(ts[0], indent)
    else Body(ts[..|ts| - 1], indent, sep) + sep + Canonical(ts[|ts| - 1], indent)
  }

  /** The separator goes before every child but the first. */
  function Lead(ts: seq<Tree>, indent: nat, sep: string): string {
    if ts == [] then "" else Body(ts, indent, sep) + sep
  }

  lemma BodySnoc(ts: seq<Tree>, k: nat, indent: nat, sep: string)
    requires k < |ts|
    ensures Body(ts[..k + 1], indent, sep) == Lead(ts[..k], indent, sep) + Canonical(ts[k], indent)
  {
    var s := ts[..k + 1];
    assert s[..|s| - 1] == ts[..k] && s[k] == ts[k];
    if k == 0 {
      assert "" + Canonical(ts[k], indent) == Canonical(ts[k], indent);
    }
  }

  lemma {:induction false} LinesBody(ts: seq<Tree>, indent: nat)
    requires ts != []
    ensures Lines(ts, indent) == Body(ts, indent, "\n" + Spaces(indent))
    decreases |ts|
  {
    if |ts| > 1 {
      LinesBody(ts[..|ts| - 1], indent);
    }
  }

  lemma FlatIsCanonical(t: Tree, indent: nat)
    requires Fits(t, indent)
    ensures Canonical(t, indent) == Flat(t)
  {
    if t.List? && t.children == [] {
      assert FlatKids([]) == "" && Flat(t) == "()";
    }
  }

  lemma {:induction false} FlatBody(ts: seq<Tree>, indent: nat)
    requires forall i :: 0 <= i < |ts| ==> Fits(ts[i], indent)
    ensures FlatKids(ts) == Body(ts, indent, " ")
    decreases |ts|
  {
    if ts != [] {
      FlatIsCanonical(ts[|ts| - 1], indent);
      FlatBody(ts[..|ts| - 1], indent);
    }
  }

  /** A list that fits on its line makes each of its children fit two columns further in. */
  lemma FittingListFits(t: Tree, indent: nat, i: nat)
    requires t.List? && Fits(t, indent) && i < |t.children|
    ensures Fits(t.children[i], indent + 2)
  {
    FlatKidsPrefix(t.children, i);
  }

  /** One equation for both layouts of a list. */
  lemma CanonicalBody(t: Tree, indent: nat)
    requires t.List? && t.children != []
    ensures Canonical(t, indent) == "(" + Body(t.children, indent + 2, Separator(t, indent)) + ")"
  {
    if Fits(t, indent) {
      forall i | 0 <= i < |t.children| ensures Fits(t.children[i], indent + 2) {
        FittingListFits(t, indent, i);
      }
      FlatBody(t.children, indent + 2);
    } else {
      LinesBody(t.children, indent + 2);
    }
  }

  // ----- the spans

  /** The span of every node of `t` when `t` is printed after the text `before`. */
  function Spans(t: Tree, indent: nat, before: string): map<NodeId, Span>
    decreases t, 1
  {
    var inner := if t.List? then SpansAll(t.children, indent + 2, Separator(t, indent), before + "(") else map[];
    inner[t.id := SpanOf(t.id, before, Canonical(t, indent))]
  }

  function SpansAll(ts: seq<Tree>, indent: nat, sep: string, before: string): map<NodeId, Span>
    decreases ts, 0
  {
    if ts == [] then map[]
    else
      var init := ts[..|ts| - 1];
      SpansAll(init, indent, sep, before) + Spans(ts[|ts| - 1], indent, before + Lead(init, indent, sep))
  }

  // ----- the printer

  /** The width of the one-line form, unless it is over the room that remains. */
  method FlatWidthIfFits(t: Tree, remaining: int) returns (r: Option<nat>)
    ensures r == if |Flat(t)| <= remaining then Some(|Flat(t)|) else None
    decreases t
  {
    if remaining < 0 {
      return None;
    }
    if t.Leaf? {
      var width := |AtomText(t.atom)|;
      return if width <= remaining then Some(width) else None;
    }
    var used := 1;
    for index := 0 to |t.children|
      invariant used == 1 + |FlatKids(t.children[..index])|
    {
      FlatKidsPrefix(t.children, index);
      FlatKidsSnoc(t.children, index);
      if index > 0 {
        if used + 1 > remaining {
          return None;
        }
        used := used + 1;
      }
      var width := FlatWidthIfFits(t.children[index], remaining - used);
      if width.None? {
        return None;
      }
      used := used + width.value;
    }
    assert t.children[..|t.children|] == t.children;
    if used + 1 > remaining {
      return None;
    }
    return Some(used + 1);
  }

  class Writer {
    var parts: seq<string>
    var byte: nat
    var line: nat
    var column: nat
    var spans: map<NodeId, Span>

    constructor ()
      ensures Valid() && Text() == "" && spans == map[]
    {
      parts, byte, line, column, spans := [], 0, 1, 1, map[];
    }

    function Text(): string
      reads this
    {
      Join(parts, "")
    }

    /** The counters are what a recount of the text gives. */
    ghost predicate Valid()
      reads this
    {
      Position(byte, line, column) == PositionAfter(Text()) && byte <= MAX_RENDERED_SOURCE_BYTES
    }

    method Append(text: string) returns (ok: bool)
      requires Valid()
      modifies this
      ensures Valid() && spans == old(spans)
      ensures ok <==> Utf8(old(Text()) + text) <= MAX_RENDERED_SOURCE_BYTES
      ensures Text() == if ok then old(Text()) + text else old(Text())
    {
      Utf8Concat(Text(), text);
      PositionConcat(Text(), text);
      var nextByte := byte + Utf8(text);
      if nextByte > MAX_RENDERED_SOURCE_BYTES {
        return false;
      }
      parts := parts + [text];
      byte := nextByte;
      if '\n' in text {
        line := line + Newlines(text);
        column := |text| - LineStart(text) + 1;
      } else {
        OneLinePosition(text);
        column := column + |text|;
      }
      assert parts[..|parts| - 1] == old(parts);
      assert Text() == old(Text()) + text;
      return true;
    }

    method Record(id: NodeId, start: Position)
      requires Valid()
      modifies this`spans
      ensures Valid() && Text() == old(Text()) && spans == old(spans)[id := Span(id, start, PositionAfter(Text()))]
    {
      spans := spans[id := Span(id, start, Position(byte, line, column))];
    }

    /** Prints a node and records its span and those of its descendants. */
    method Render(t: Tree, indent: nat) returns (ok: bool)
      requires Valid()
      modifies this
      ensures Valid()
      ensures ok <==> Utf8(old(Text()) + Canonical(t, indent)) <= MAX_RENDERED_SOURCE_BYTES
      ensures ok ==> Text() == old(Text()) + Canonical(t, indent)
      ensures ok ==> spans == old(spans) + Spans(t, indent, old(Text()))
      decreases t, 1
    {
      hide Valid;
      hide Text;
      hide PositionAfter;
      ghost var before := Text();
      var start := Here();
      if t.Leaf? || t.children == [] {
        SpansLeaf(t, indent, before);
        ok := Append(if t.Leaf? then AtomText(t.atom) else "()");
        if ok {
          Record(t.id, start);
        }
        return;
      }
      var width := FlatWidthIfFits(t, LineRoom(indent));
      var sep := if width.Some? then " " else "\n" + Spaces(indent + 2);
      assert sep == Separator(t, indent);
      hide *;
      CanonicalBody(t, indent);
      SpansList(t, indent, before);
      ghost var body := Body(t.children, indent + 2, sep);
      Bracketed(before, body);
      ok := Append("(");
      if !ok {
        return;
      }
      ok := RenderChildren(t.children, indent + 2, sep);
      if !ok {
        return;
      }
      ok := Append(")");
      if !ok {
        return;
      }
      Record(t.id, start);
    }

    method Here() returns (p: Position)
      requires Valid()
      ensures p == PositionAfter(Text())
    {
      p := Position(byte, line, column);
    }

    // The children with the separator between them, on one line or one a line.
    method RenderChildren(ts: seq<Tree>, indent: nat, sep: string) returns (ok: bool)
      requires Valid()
      modifies this
      ensures Valid()
      ensures ok <==> Utf8(old(Text()) + Body(ts, indent, sep)) <= MAX_RENDERED_SOURCE_BYTES
      ensures ok ==> Text() == old(Text()) + Body(ts, indent, sep)
      ensures ok ==> spans == old(spans) + SpansAll(ts, indent, sep, old(Text()))
      decreases ts, 0
    {
      hide *;
      ghost var before := Text();
      ghost var recorded := spans;
      RenderStart(ts, indent, sep, before, recorded);
      WithinLimit();
      for k := 0 to |ts|
        invariant Valid() && Utf8(Text()) <= MAX_RENDERED_SOURCE_BYTES
        invariant Text() == before + Body(ts[..k], indent, sep)
        invariant spans == recorded + SpansAll(ts[..k], indent, sep, before)
      {
        RenderOverflow(ts, k, indent, sep, before);
        TextStep(ts, k, indent, sep, before);
        SpansStep(ts, k, indent, sep, before, recorded);
        assert before + Body(ts[..k], indent, sep) + "" == before + Body(ts[..k], indent, sep);
        if k > 0 {
          ok := Append(sep);
          if !ok {
            return;
          }
        }
        ok := Render(ts[k], indent);
        if !ok {
          return;
        }
      }
      assert ts[..|ts|] == ts;
      return true;
    }

    lemma WithinLimit()
      requires Valid()
      ensures Utf8(Text()) <= MAX_RENDERED_SOURCE_BYTES
    {
    }
  }

  lemma SpansLeaf(t: Tree, indent: nat, before: string)
    requires t.Leaf? || t.children == []
    ensures Spans(t, indent, before) == map[t.id := SpanOf(t.id, before, Canonical(t, indent))]
    ensures Canonical(t, indent) == if t.Leaf? then AtomText(t.atom) else "()"
    ensures SpanOf(t.id, before, Canonical(t, indent)) == Span(t.id, PositionAfter(before), PositionAfter(before + Canonical(t, indent)))
  {
  }

  lemma SpansList(t: Tree, indent: nat, before: string)
    requires t.List?
    ensures forall m: map<NodeId, Span> :: (m + Spans(t, indent, before) ==
      (m + SpansAll(t.children, indent + 2, Separator(t, indent), before + "("))
        [t.id := Span(t.id, PositionAfter(before), PositionAfter(before + Canonical(t, indent)))])
  {
  }

  lemma {:induction false} Utf8Prefix(a: string, b: string)
    ensures Utf8(a) <= Utf8(a + b)
  {
    Utf8Concat(a, b);
  }

  lemma Bracketed(before: string, body: string)
    ensures before + ("(" + body + ")") == before + "(" + body + ")"
    ensures Utf8(before + "(") <= Utf8(before + "(" + body) <= Utf8(before + "(" + body + ")")
  {
    Utf8Prefix(before + "(", body);
    Utf8Prefix(before + "(" + body, ")");
    assert before + ("(" + body + ")") == before + "(" + body + ")";
  }

  lemma RenderStart(ts: seq<Tree>, indent: nat, sep: string, before: string, recorded: map<NodeId, Span>)
    ensures before == before + Body(ts[..0], indent, sep)
    ensures recorded == recorded + SpansAll(ts[..0], indent, sep, before)
  {
  }

  // The text after one more child, in the order it is appended.
  lemma TextStep(ts: seq<Tree>, k: nat, indent: nat, sep: string, before: string)
    requires k < |ts|
    ensures before + Lead(ts[..k], indent, sep) == before + Body(ts[..k], indent, sep) + if k > 0 then sep else ""
    ensures before + Lead(ts[..k], indent, sep) + Canonical(ts[k], indent) == before + Body(ts[..k + 1], indent, sep)
  {
    BodySnoc(ts, k, indent, sep);
    var body, lead := Body(ts[..k], indent, sep), Lead(ts[..k], indent, sep);
    assert lead == body + if k > 0 then sep else "";
    hide *;
    assert before + (body + if k > 0 then sep else "") == before + body + if k > 0 then sep else "";
    assert before + lead + Canonical(ts[k], indent) == before + (lead + Canonical(ts[k], indent));
  }

  lemma SpansStep(ts: seq<Tree>, k: nat, indent: nat, sep: string, before: string, recorded: map<NodeId, Span>)
    requires k < |ts|
    ensures recorded + SpansAll(ts[..k], indent, sep, before) + Spans(ts[k], indent, before + Lead(ts[..k], indent, sep)) ==
      recorded + SpansAll(ts[..k + 1], indent, sep, before)
  {
    assert ts[..k + 1][..k] == ts[..k];
    var init, more := SpansAll(ts[..k], indent, sep, before), Spans(ts[k], indent, before + Lead(ts[..k], indent, sep));
    assert SpansAll(ts[..k + 1], indent, sep, before) == init + more;
    hide *;
    assert recorded + init + more == recorded + (init + more);
  }

  // Text that is over the limit part of the way is over it at the end.
  lemma {:induction false} RenderOverflow(ts: seq<Tree>, k: nat, indent: nat, sep: string, before: string)
    requires k < |ts|
    ensures Utf8(before + Lead(ts[..k], indent, sep)) <= Utf8(before + Body(ts[..k + 1], indent, sep))
    ensures Utf8(before + Body(ts[..k + 1], indent, sep)) <= Utf8(before + Body(ts, indent, sep))
    decreases |ts| - k
  {
    hide *;
    TextStep(ts, k, indent, sep, before);
    Utf8Prefix(before + Lead(ts[..k], indent, sep), Canonical(ts[k], indent));
    if k + 1 < |ts| {
      RenderOverflow(ts, k + 1, indent, sep, before);
      TextStep(ts, k + 1, indent, sep, before);
      Utf8Prefix(before + Body(ts[..k + 1], indent, sep), sep);
    } else {
      assert ts[..k + 1] == ts;
    }
  }

  /** The compiler source and its node map. Succeeds exactly on a valid tree whose text, with the final
      newline, is within the limit; the text is the plain printer's. */
  method RenderWithNodeMap(root: Tree) returns (r: Option<(string, map<NodeId, Span>)>)
    ensures r.Some? <==> ValidTree(root) && Utf8(Canonical(root, 0) + "\n") <= MAX_RENDERED_SOURCE_BYTES
    ensures r.Some? ==> r.value.0 == Canonical(root, 0) + "\n"
    ensures r.Some? ==> r.value.1 == Spans(root, 0, "")
  {
    hide Canonical;
    hide Spans;
    hide ValidTree;
    var valid := ValidateTree(root);
    if !valid {
      return None;
    }
    var writer := new Writer();
    var ok := writer.Render(root, 0);
    assert "" + Canonical(root, 0) == Canonical(root, 0);
    Utf8Prefix(Canonical(root, 0), "\n");
    if !ok {
      return None;
    }
    ok := writer.Append("\n");
    if !ok {
      return None;
    }
    assert map[] + Spans(root, 0, "") == Spans(root, 0, "");
    return Some((writer.Text(), writer.spans));
  }
}
