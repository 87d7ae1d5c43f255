/** The line normaliser and the per-line depth and label that both builders
    compute from a line. */
module Lines {
  import opened Text

  /** `folder_list.strip().split("\n")`: trim the whole block, then cut it at
      every newline. Blank lines inside the block and each line's own
      indentation are kept. */
  function NormaliseLines(folderList: string): (lines: seq<string>)
    ensures |lines| >= 1
    ensures forall i :: 0 <= i < |lines| ==> '\n' !in lines[i]
  {
    Split(Strip(folderList), '\n')
  }

  /** `(len(line) - len(line.lstrip())) // indent_size`: whole indent units in
      the leading whitespace, every whitespace character counting as one. */
  function Depth(line: string, indentSize: int): nat
    requires indentSize > 0
  {
    LeadingWs(line) / indentSize
  }

  /** `line.lstrip()` in its role as the name a line contributes to either
      output, trailing whitespace kept. The builders call LStrip where the
      code strips; contracts about names use Label. */
  function Label(line: string): string
  {
    LStrip(line)
  }

  /** Depth is the floor of leading whitespace over the indent unit: it is
      the only number with the bounds of Depth's postcondition. */
  lemma DepthIsFloor(line: string, indentSize: int, d: nat)
    requires indentSize > 0
    ensures Depth(line, indentSize) == d <==> d * indentSize <= LeadingWs(line) < (d + 1) * indentSize
  {
    var w := LeadingWs(line);
    var e := Depth(line, indentSize);
    assert e * indentSize <= w < (e + 1) * indentSize;
    if d * indentSize <= w < (d + 1) * indentSize {
      assert (d - e) * indentSize < indentSize;
      assert (e - d) * indentSize < indentSize;
      MulBelowUnit(d - e, indentSize);
      MulBelowUnit(e - d, indentSize);
    }
  }

  lemma MulBelowUnit(x: int, u: int)
    requires u > 0 && x * u < u
    ensures x < 1
  {
    assert (x - 1) * u == x * u - u;
  }

  /** Joining the normalised lines with newlines gives the trimmed block. */
  lemma NormaliseRoundTrip(folderList: string)
    ensures Join(NormaliseLines(folderList), "\n") == Strip(folderList)
  {
    JoinSplit(Strip(folderList), '\n');
  }

  /** Empty or whitespace-only input gives one empty line, not no lines, and
      nothing else does. */
  lemma NormaliseBlank(folderList: string)
    ensures NormaliseLines(folderList) == [""] <==> forall i :: 0 <= i < |folderList| ==> IsWs(folderList[i])
  {
    NormaliseRoundTrip(folderList);
  }

  /** The first normalised line starts flush left, so its depth is 0 for
      every indent unit. */
  lemma NormaliseFirstLineFlush(folderList: string, indentSize: int)
    requires indentSize > 0
    ensures LeadingWs(NormaliseLines(folderList)[0]) == 0
    ensures Depth(NormaliseLines(folderList)[0], indentSize) == 0
  {
    var t := Strip(folderList);
    var first := NormaliseLines(folderList)[0];
    assert first == t[..|first|];
    if first != [] {
      assert first[0] == t[0];
    }
  }
}
