/** The "Generate Trees" action: the text area is normalised into lines once,
    and the same lines feed both renderers, each with its default indent
    unit of 2. The lemmas relate the two outputs to each other. */
module FolderStruct {
  import opened Text
  import opened Lines
  import opened Markdown
  import opened Trees
  import opened TreeSpec
  import opened Nodes
  import opened TreeDict

  /** The indent unit both builders are called with (their default). */
  const IndentSize: int := 2

  /** Normalises the input, draws the markdown tree and builds the node
      tree. The markdown is the rendering of the normalised lines, and the
      nodes, in creation order, carry the pure tree's names in pre-order and
      its children lists. */
  method GenerateTrees(rootFolder: string, folderList: string)
    returns (markdown: string, tree: Node, ghost nodes: seq<Node>)
    ensures markdown == MarkdownText(rootFolder, NormaliseLines(folderList), IndentSize)
    ensures |nodes| == |NormaliseLines(folderList)| + 1 && nodes[0] == tree && Distinct(nodes) && fresh(nodes)
    ensures forall k :: 0 <= k < |nodes| ==>
      nodes[k].name == Preorder(Build(rootFolder, NormaliseLines(folderList), IndentSize).tree)[k]
    ensures ChildrenMatch(nodes, Parents(Build(rootFolder, NormaliseLines(folderList), IndentSize).tree, 0))
  {
    var lines := NormaliseLines(folderList);
    markdown := BuildMarkdownTree(rootFolder, lines, IndentSize);
    tree, nodes := BuildTreeDict(rootFolder, lines, IndentSize);
  }

  /** The rows a reader of the markdown text gets back by cutting it at
      newlines. */
  function Drawn(rootFolder: string, lines: seq<string>, indentSize: int): seq<string>
    requires indentSize > 0
  {
    Split(MarkdownText(rootFolder, lines, indentSize), '\n')
  }

  /** The two renderings agree: the markdown text has one row per node of
      the tree, the first is the root's, and row k reads back as the depth
      of line k - 1 and the name of node k in pre-order. */
  lemma {:induction false} RowsNameTheNodes(rootFolder: string, lines: seq<string>, indentSize: int)
    requires indentSize > 0 && '\n' !in rootFolder
    requires forall j :: 0 <= j < |lines| ==> '\n' !in lines[j]
    ensures |Drawn(rootFolder, lines, indentSize)| == Size(Build(rootFolder, lines, indentSize).tree)
    ensures Drawn(rootFolder, lines, indentSize)[0] == Preorder(Build(rootFolder, lines, indentSize).tree)[0] + "/"
    ensures forall k :: 1 <= k < |Drawn(rootFolder, lines, indentSize)| ==>
      ParseRow(Drawn(rootFolder, lines, indentSize)[k])
        == Some((Depth(lines[k - 1], indentSize), Preorder(Build(rootFolder, lines, indentSize).tree)[k]))
  {
    MarkdownDecodes(rootFolder, lines, indentSize);
    BuildPreorder(rootFolder, lines, indentSize);
    NamesOfRows(Drawn(rootFolder, lines, indentSize), Preorder(Build(rootFolder, lines, indentSize).tree),
                rootFolder, lines, indentSize);
  }

  /** Row j + 1 names line j, and so does entry j + 1 of the root followed
      by the lines' names. */
  lemma NamesOfRows(rows: seq<string>, names: seq<string>, rootFolder: string, lines: seq<string>, indentSize: int)
    requires indentSize > 0 && |rows| == |lines| + 1 && names == [rootFolder] + Labels(lines)
    requires forall j :: 0 <= j < |lines| ==> ParseRow(rows[j + 1]) == Some((Depth(lines[j], indentSize), Label(lines[j])))
    ensures forall k :: 1 <= k < |rows| ==> ParseRow(rows[k]) == Some((Depth(lines[k - 1], indentSize), names[k]))
  {
    forall k | 1 <= k < |rows|
      ensures ParseRow(rows[k]) == Some((Depth(lines[k - 1], indentSize), names[k]))
    {
      assert ParseRow(rows[(k - 1) + 1]) == Some((Depth(lines[k - 1], indentSize), Label(lines[k - 1])));
    }
  }

  /** The bars of every row count its node's distance from the root, less
      one, exactly when no line is indented more than one level deeper than
      the line before it. The drawing follows indentation alone, while the
      node tree hangs a line that skips levels directly under the nearest
      shallower node, so after a skip some row shows more bars than that. */
  lemma BarsShowDepthIffNoSkip(rootFolder: string, lines: seq<string>, indentSize: int)
    requires indentSize > 0 && '\n' !in rootFolder
    requires forall j :: 0 <= j < |lines| ==> '\n' !in lines[j]
    ensures |Drawn(rootFolder, lines, indentSize)| == |lines| + 1
    ensures NoSkip(lines, indentSize)
        <==> forall k :: 1 <= k <= |lines| ==>
               CountBars(Drawn(rootFolder, lines, indentSize)[k]) + 1
                 == Distances(Build(rootFolder, lines, indentSize).tree, 0)[k]
  {
    MarkdownDecodes(rootFolder, lines, indentSize);
    BuildFlattening(rootFolder, lines, indentSize);
    BarsOfRows(Drawn(rootFolder, lines, indentSize), Distances(Build(rootFolder, lines, indentSize).tree, 0),
               Levels(lines, indentSize), lines, indentSize);
  }

  /** When row j + 1 decodes to line j's depth, which is entry j + 1 of the
      levels, the bars match the distances exactly when the distances are
      exact for the levels. */
  lemma BarsOfRows(rows: seq<string>, distances: seq<nat>, levels: seq<int>, lines: seq<string>, indentSize: int)
    requires indentSize > 0 && |rows| == |distances| == |levels| == |lines| + 1
    requires forall j :: 0 <= j < |lines| ==> ParseRow(rows[j + 1]) == Some((Depth(lines[j], indentSize), Label(lines[j])))
    requires forall j :: 0 <= j < |lines| ==> levels[j + 1] == Depth(lines[j], indentSize)
    ensures ExactDistances(distances, levels)
        <==> forall k :: 1 <= k <= |lines| ==> CountBars(rows[k]) + 1 == distances[k]
  {
    forall k | 1 <= k <= |lines|
      ensures CountBars(rows[k]) == levels[k]
    {
      assert ParseRow(rows[(k - 1) + 1]) == Some((Depth(lines[k - 1], indentSize), Label(lines[k - 1])));
      assert levels[(k - 1) + 1] == Depth(lines[k - 1], indentSize);
    }
  }

  /** Empty or whitespace-only input still yields one line, the empty one:
      the markdown is the root row and a bare tee, and the root gets one
      child with an empty name. */
  lemma BlankInput(rootFolder: string, folderList: string)
    requires forall i :: 0 <= i < |folderList| ==> IsWs(folderList[i])
    ensures MarkdownText(rootFolder, NormaliseLines(folderList), IndentSize) == rootFolder + "/" + "\n" + Tee
    ensures Preorder(Build(rootFolder, NormaliseLines(folderList), IndentSize).tree) == [rootFolder, ""]
  {
    var lines := NormaliseLines(folderList);
    NormaliseBlank(folderList);
    assert lines == [""];
    var rows := Rows(rootFolder, lines, IndentSize);
    assert Row("", IndentSize) == Tee by {
      assert LStrip("") == "";
      assert Depth("", IndentSize) == 0;
      assert Repeat(Bar, 0) == "";
    }
    assert rows == [rootFolder + "/", Tee];
    assert rows[1..] == [Tee];
    assert Join(rows, "\n") == rows[0] + "\n" + Join([Tee], "\n");
    BuildPreorder(rootFolder, lines, IndentSize);
    assert Labels(lines) == [""];
  }
}
