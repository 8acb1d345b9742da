/** The lines and columns of the node map (src/weave_frontend/source_map.py). */
module Positions {
  import opened Chars
  import opened Printer
  import opened SourceMap

  ghost predicate SplitAs(text: string, lines: seq<string>) {
    lines != [] && (forall i :: 0 <= i < |lines| ==> '\n' !in lines[i]) && Join(lines, "\n") == text
  }

  lemma JoinLast(lines: seq<string>, line: string)
    requires lines != []
    ensures Join(lines + [line], "\n") == Join(lines, "\n") + "\n" + line
  {
    assert (lines + [line])[..|lines|] == lines;
  }

  lemma {:induction false} LinesOf(text: string) returns (lines: seq<string>)
    ensures SplitAs(text, lines)
  {
    if text == "" {
      lines := [""];
    } else {
      var c := text[|text| - 1];
      var before := LinesOf(text[..|text| - 1]);
      var init, last := before[..|before| - 1], before[|before| - 1];
      assert text == text[..|text| - 1] + [c] && before == init + [last];
      if c == '\n' {
        lines := before + [""];
        JoinLast(before, "");
      } else {
        lines := init + [last + [c]];
        if init != [] {
          JoinLast(init, last);
          JoinLast(init, last + [c]);
        }
      }
    }
  }

  lemma {:induction false} LineCount(lines: seq<string>)
    requires lines != [] && forall i :: 0 <= i < |lines| ==> '\n' !in lines[i]
    ensures Newlines(Join(lines, "\n")) == |lines| - 1
  {
    var last := lines[|lines| - 1];
    OneLinePosition(last);
    if |lines| > 1 {
      var init := lines[..|lines| - 1];
      LineCount(init);
      PositionConcat(Join(init, "\n") + "\n", last);
      PositionConcat(Join(init, "\n"), "\n");
      assert "\n"[..0] == "";
    }
  }

  /** What stands before the position are the lines before its own and so much of its own. */
  ghost predicate StandsAt(p: Position, lines: seq<string>, before: string) {
    && 1 <= p.line <= |lines| && 1 <= p.column <= 1 + |lines[p.line - 1]|
    && before == Join(lines[..p.line - 1] + [lines[p.line - 1][..p.column - 1]], "\n")
  }

  /** The line and the column of a position find its character in the text split at its newlines. */
  lemma {:induction false} LineColumn(text: string, lines: seq<string>, k: nat)
    requires SplitAs(text, lines) && k <= |text|
    ensures StandsAt(PositionAfter(text[..k]), lines, text[..k])
    decreases |lines|
  {
    hide PositionAfter;
    hide StandsAt;
    hide Newlines;
    var n := |lines| - 1;
    var init, last := lines[..n], lines[n];
    if n == 0 {
      OnFirstLine(last, k);
      assert text == last && lines == [last];
    } else {
      var head := Join(init, "\n");
      LineCount(init);
      hide Join;
      if k <= |head| {
        LineColumn(head, init, k);
        assert text[..k] == head[..k];
        OnEarlierLine(PositionAfter(text[..k]), init, last, text[..k]);
      } else {
        OnLastLine(init, last, k - |head| - 1);
        assert text[..k] == head + "\n" + last[..k - |head| - 1];
      }
      assert lines == init + [last];
    }
  }

  lemma OnEarlierLine(p: Position, init: seq<string>, last: string, before: string)
    requires StandsAt(p, init, before)
    ensures StandsAt(p, init + [last], before)
  {
    assert (init + [last])[..p.line - 1] == init[..p.line - 1];
  }

  lemma StandsOn(p: Position, init: seq<string>, last: string, j: nat, before: string)
    requires j <= |last| && p.line == |init| + 1 && p.column == j + 1 && before == Join(init + [last[..j]], "\n")
    ensures StandsAt(p, init + [last], before)
  {
    assert (init + [last])[..|init|] == init;
  }

  // On the first line, and on one behind others.
  lemma OnFirstLine(last: string, j: nat)
    requires j <= |last| && '\n' !in last
    ensures StandsAt(PositionAfter(last[..j]), [last], last[..j])
  {
    LastLine("", last[..j]);
    assert "" + last[..j] == last[..j] && [] + [last] == [last] && [] + [last[..j]] == [last[..j]];
    StandsOn(PositionAfter(last[..j]), [], last, j, last[..j]);
  }

  lemma OnLastLine(init: seq<string>, last: string, j: nat)
    requires j <= |last| && '\n' !in last && init != [] && forall i :: 0 <= i < |init| ==> '\n' !in init[i]
    ensures var before := Join(init, "\n") + "\n" + last[..j];
      StandsAt(PositionAfter(before), init + [last], before)
  {
    hide *;
    var head, own := Join(init, "\n"), last[..j];
    LineCount(init);
    LineBreak(head);
    LastLine(head + "\n", own);
    JoinLast(init, own);
    StandsOn(PositionAfter(head + "\n" + own), init, last, j, head + "\n" + own);
  }

  lemma LineBreak(head: string)
    ensures LineStart(head + "\n") == |head + "\n"| && Newlines(head + "\n") == Newlines(head) + 1
  {
    PositionConcat(head, "\n");
    assert "\n"[..0] == "" && (head + "\n")[..|head|] == head;
  }

  // More text on the last line.
  lemma LastLine(before: string, own: string)
    requires '\n' !in own && LineStart(before) == |before|
    ensures PositionAfter(before + own) == Position(Utf8(before + own), 1 + Newlines(before), 1 + |own|)
  {
    PositionConcat(before, own);
    OneLinePosition(own);
  }
}
