/** `build_markdown_tree`: one text row per line under a `root/` row, each
    line drawn as one bar per indent unit, a tee, and the line's name. The
    rows are decoded again by ParseRow, which shows that the text carries
    exactly each line's depth and name, in input order. */
module Markdown {
  import opened Text
  import opened Lines

  datatype Option<T> = None | Some(value: T)

  /** One level of vertical guide: a box-drawing bar and three spaces. */
  const Bar: string := "\U{2502}   "

  /** The branch marker in front of every name. */
  const Tee: string := "\U{251C}\U{2500}\U{2500} "

  /** The row drawn for one line; it decodes to the line's depth and name. */
  function Row(line: string, indentSize: int): (row: string)
    requires indentSize > 0
    ensures ParseRow(row) == Some((Depth(line, indentSize), Label(line)))
  {
    ParseRowOf(Depth(line, indentSize), Label(line));
    Repeat(Bar, Depth(line, indentSize)) + Tee + Label(line)
  }

  /** All rows: the root with a trailing slash, then one row per line. */
  function Rows(rootFolder: string, lines: seq<string>, indentSize: int): (rows: seq<string>)
    requires indentSize > 0
    ensures |rows| == |lines| + 1 && rows[0] == rootFolder + "/"
    ensures forall j :: 0 <= j < |lines| ==> rows[j + 1] == Row(lines[j], indentSize)
  {
    var drawn := seq(|lines|, j requires 0 <= j < |lines| => Row(lines[j], indentSize));
    assert forall j :: 0 <= j < |lines| ==> ([rootFolder + "/"] + drawn)[j + 1] == drawn[j];
    [rootFolder + "/"] + drawn
  }

  /** The text the renderer returns. */
  function MarkdownText(rootFolder: string, lines: seq<string>, indentSize: int): string
    requires indentSize > 0
  {
    Join(Rows(rootFolder, lines, indentSize), "\n")
  }

  /** The loop of `build_markdown_tree`, appending one row per line to a
      list that starts with the root row, then joining with newlines. */
  method BuildMarkdownTree(rootFolder: string, lines: seq<string>, indentSize: int) returns (markdown: string)
    requires indentSize > 0
    ensures markdown == MarkdownText(rootFolder, lines, indentSize)
  {
    var markdownLines := [rootFolder + "/"];
    for i := 0 to |lines|
      invariant markdownLines == Rows(rootFolder, lines[..i], indentSize)
    {
      var line := lines[i];
      var stripped := LStrip(line);
      var indentLevel := (|line| - |stripped|) / indentSize;
      var prefix := Repeat(Bar, indentLevel) + Tee + stripped;
      RowsSnoc(rootFolder, lines[..i + 1], indentSize);
      assert lines[..i + 1][..i] == lines[..i];
      markdownLines := markdownLines + [prefix];
    }
    assert lines[..|lines|] == lines;
    markdown := Join(markdownLines, "\n");
  }

  lemma RowsSnoc(rootFolder: string, lines: seq<string>, indentSize: int)
    requires indentSize > 0 && |lines| > 0
    ensures Rows(rootFolder, lines, indentSize)
         == Rows(rootFolder, lines[..|lines| - 1], indentSize) + [Row(lines[|lines| - 1], indentSize)]
  {
    var a := Rows(rootFolder, lines, indentSize);
    var b := Rows(rootFolder, lines[..|lines| - 1], indentSize) + [Row(lines[|lines| - 1], indentSize)];
    assert |a| == |b|;
    forall i | 0 <= i < |a|
      ensures a[i] == b[i]
    {
      if 0 < i < |lines| {
        assert lines[..|lines| - 1][i - 1] == lines[i - 1];
      }
    }
  }

  /** The number of bars a row starts with. */
  function CountBars(row: string): (n: nat)
    ensures n * |Bar| <= |row|
  {
    if |row| >= |Bar| && row[..|Bar|] == Bar then 1 + CountBars(row[|Bar|..]) else 0
  }

  /** Reads a row back: its depth is the number of leading bars, and a tee
      must follow them; the rest is the name. */
  function ParseRow(row: string): Option<(nat, string)>
  {
    var rest := row[CountBars(row) * |Bar|..];
    if |rest| >= |Tee| && rest[..|Tee|] == Tee then Some((CountBars(row), rest[|Tee|..])) else None
  }

  lemma {:induction false} CountBarsRepeat(n: nat, s: string)
    ensures CountBars(Repeat(Bar, n) + s) == n + CountBars(s)
  {
    if n > 0 {
      var r := Repeat(Bar, n - 1) + s;
      CountBarsRepeat(n - 1, s);
      assert Repeat(Bar, n) + s == Bar + r;
      assert (Bar + r)[..|Bar|] == Bar && (Bar + r)[|Bar|..] == r;
    } else {
      assert Repeat(Bar, 0) + s == s;
    }
  }

  /** A row of d bars, a tee and a name decodes to d and the name. */
  lemma ParseRowOf(d: nat, name: string)
    ensures ParseRow(Repeat(Bar, d) + Tee + name) == Some((d, name))
  {
    var rest := Tee + name;
    assert Repeat(Bar, d) + Tee + name == Repeat(Bar, d) + rest;
    CountBarsRepeat(d, rest);
    assert rest[..|Bar|] != Bar by {
      assert rest[0] != Bar[0];
    }
    assert (Repeat(Bar, d) + rest)[d * |Bar|..] == rest;
    assert rest[..|Tee|] == Tee && rest[|Tee|..] == name;
  }

  /** No row contains a newline when neither the root name nor any line
      does, so splitting the text at newlines gives the rows back. */
  lemma RowHasNoNewline(line: string, indentSize: int)
    requires indentSize > 0 && '\n' !in line
    ensures '\n' !in Row(line, indentSize)
  {
    var r := Repeat(Bar, Depth(line, indentSize));
    assert '\n' !in r;
    assert '\n' !in Label(line) by {
      assert Label(line) == line[|line| - |Label(line)|..];
    }
    assert Row(line, indentSize) == r + Tee + Label(line);
  }

  /** The output has one row per line plus the root row; the first is the
      root with a slash and row j + 1 decodes to line j's depth and name. */
  lemma MarkdownDecodes(rootFolder: string, lines: seq<string>, indentSize: int)
    requires indentSize > 0 && '\n' !in rootFolder
    requires forall j :: 0 <= j < |lines| ==> '\n' !in lines[j]
    ensures Split(MarkdownText(rootFolder, lines, indentSize), '\n') == Rows(rootFolder, lines, indentSize)
    ensures |Split(MarkdownText(rootFolder, lines, indentSize), '\n')| == |lines| + 1
    ensures Split(MarkdownText(rootFolder, lines, indentSize), '\n')[0] == rootFolder + "/"
    ensures forall j :: 0 <= j < |lines| ==>
      ParseRow(Split(MarkdownText(rootFolder, lines, indentSize), '\n')[j + 1])
        == Some((Depth(lines[j], indentSize), Label(lines[j])))
  {
    var rows := Rows(rootFolder, lines, indentSize);
    forall j | 0 <= j < |lines|
      ensures '\n' !in rows[j + 1] && ParseRow(rows[j + 1]) == Some((Depth(lines[j], indentSize), Label(lines[j])))
    {
      RowHasNoNewline(lines[j], indentSize);
    }
    assert '\n' !in rows[0];
    assert forall i :: 0 <= i < |rows| ==> '\n' !in rows[i] by {
      forall i | 0 <= i < |rows|
        ensures '\n' !in rows[i]
      {
        if i > 0 {
          assert '\n' !in rows[(i - 1) + 1];
        }
      }
    }
    SplitJoin(rows, '\n');
  }
}
