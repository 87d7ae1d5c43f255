/** `build_tree_dict` over mutable nodes. The method is proved against
    TreeSpec.Build: node k (in creation order, which is pre-order) carries
    the name and, in order, exactly the children that the pure tree gives
    it. */
module TreeDict {
  import opened Text
  import opened Lines
  import opened Trees
  import opened TreeSpec
  import opened Nodes

  /** `build_tree_dict`: the root it returns, and, as a ghost, every node it
      made in creation order, which is the pre-order of the pure tree. */
  method BuildTreeDict(rootFolder: string, lines: seq<string>, indentSize: int)
    returns (root: Node, ghost nodes: seq<Node>)
    requires indentSize > 0
    ensures root.name == rootFolder
    ensures |nodes| == |lines| + 1 && nodes[0] == root && Distinct(nodes) && fresh(nodes)
    ensures forall k :: 0 <= k < |nodes| ==> nodes[k].name == Preorder(Build(rootFolder, lines, indentSize).tree)[k]
    ensures ChildrenMatch(nodes, Parents(Build(rootFolder, lines, indentSize).tree, 0))
  {
    var stack;
    root, stack, nodes := AddLines(rootFolder, lines, indentSize);
    TraceMatchesBuild(rootFolder, lines, indentSize);
  }

  /** The loop of `build_tree_dict`: starts from the root and a stack holding
      only it at depth -1, and adds the lines one by one. The nodes and the
      stack then match the index trace of all the lines. */
  method AddLines(rootFolder: string, lines: seq<string>, indentSize: int)
    returns (root: Node, stack: seq<(Node, int)>, ghost nodes: seq<Node>)
    requires indentSize > 0
    ensures |nodes| == |lines| + 1 && nodes[0] == root && fresh(nodes)
    ensures Inv(stack, nodes, TraceBuild(rootFolder, lines, indentSize))
  {
    root := new Node(rootFolder);
    stack := [(root, -1)];
    nodes := [root];
    assert lines[..0] == [];
    for i := 0 to |lines|
      invariant |nodes| == i + 1 && nodes[0] == root && fresh(nodes)
      invariant Inv(stack, nodes, TraceBuild(rootFolder, lines[..i], indentSize))
    {
      var node;
      stack, node := AddLineAt(stack, rootFolder, lines, i, indentSize, nodes);
      nodes := nodes + [node];
    }
    assert lines[..|lines|] == lines;
  }

  /** One iteration of the loop: make the line's node, pop the stack, append
      the node to the children of the node on top, and push it. */
  method AddLine(stack: seq<(Node, int)>, line: string, node: Node, indentSize: int, ghost nodes: seq<Node>, ghost t: Trace)
    returns (newStack: seq<(Node, int)>)
    requires indentSize > 0 && Inv(stack, nodes, t)
    requires node !in nodes && node.name == Label(line) && node.children == []
    modifies nodes
    ensures Inv(newStack, nodes + [node], TraceStep(t, line, indentSize))
  {
    var stripped := LStrip(line);
    var indentLevel := (|line| - |stripped|) / indentSize;
    assert indentLevel == Depth(line, indentSize);
    ghost var kept := Pop(t.depths, indentLevel);
    ghost var t1 := TraceStep(t, line, indentSize);
    assert t1.parents == t.parents + [t.stack[|kept| - 1]];
    TracksStep(stack, nodes, t, line, indentSize, node);
    newStack := PopStack(stack, indentLevel, t.depths);
    var top := newStack[|newStack| - 1].0;
    Attach(top, node, nodes, t.parents, t.stack[|kept| - 1]);
    newStack := newStack + [(node, indentLevel)];
    assert newStack == stack[..|kept|] + [(node, indentLevel)];
  }

  /** AddLine for line i, with the invariant stated on the trace of the
      lines before it and after it. */
  method AddLineAt(stack: seq<(Node, int)>, ghost rootFolder: string, lines: seq<string>, i: nat, indentSize: int, ghost nodes: seq<Node>)
    returns (newStack: seq<(Node, int)>, node: Node)
    requires indentSize > 0 && i < |lines| && Inv(stack, nodes, TraceBuild(rootFolder, lines[..i], indentSize))
    modifies nodes
    ensures fresh(node)
    ensures Inv(newStack, nodes + [node], TraceBuild(rootFolder, lines[..i + 1], indentSize))
  {
    node := new Node(Label(lines[i]));
    newStack := AddLine(stack, lines[i], node, indentSize, nodes, TraceBuild(rootFolder, lines[..i], indentSize));
    InvSnoc(newStack, nodes + [node], rootFolder, lines, i, indentSize);
  }

  /** The invariant after one more step of the trace is the invariant for
      one more line. */
  lemma InvSnoc(stack: seq<(Node, int)>, nodes: seq<Node>, rootFolder: string, lines: seq<string>, i: nat, indentSize: int)
    requires indentSize > 0 && i < |lines|
    requires Inv(stack, nodes, TraceStep(TraceBuild(rootFolder, lines[..i], indentSize), lines[i], indentSize))
    ensures Inv(stack, nodes, TraceBuild(rootFolder, lines[..i + 1], indentSize))
  {
    TraceBuildSnoc(rootFolder, lines, i, indentSize);
  }

  /** One step keeps the heap-free part of the invariant, with the stack cut
      where Pop cuts the depths and the new node pushed. */
  lemma TracksStep(stack: seq<(Node, int)>, nodes: seq<Node>, t: Trace, line: string, indentSize: int, node: Node)
    requires indentSize > 0 && Tracks(stack, nodes, t) && node !in nodes && node.name == Label(line)
    ensures Tracks(stack[..|Pop(t.depths, Depth(line, indentSize))|] + [(node, Depth(line, indentSize) as int)],
                   nodes + [node], TraceStep(t, line, indentSize))
  {
    var level := Depth(line, indentSize);
    var kept := Pop(t.depths, level);
    StackMatchesPush(stack, nodes, t.stack, t.depths, |kept|, node, level);
    assert (nodes + [node])[..|nodes|] == nodes;
  }

  /** The pop loop: drops entries from the top while the line's level is at
      most the top entry's depth. It keeps exactly the entries that Pop keeps
      of their depths. */
  method PopStack(stack: seq<(Node, int)>, level: int, ghost depths: seq<int>) returns (kept: seq<(Node, int)>)
    requires |stack| == |depths| >= 1 && depths[0] < level
    requires forall s :: 0 <= s < |stack| ==> stack[s].1 == depths[s]
    ensures kept == stack[..|Pop(depths, level)|]
  {
    ghost var n := |Pop(depths, level)|;
    kept := stack;
    while level <= kept[|kept| - 1].1
      invariant n <= |kept| <= |stack| && kept == stack[..|kept|]
      decreases |kept|
    {
      kept := kept[..|kept| - 1];
    }
  }

  /** Appends node to the children of top, which is node p. The heap then
      matches the parent sequence extended by p as the new node's parent. */
  method Attach(top: Node, node: Node, ghost nodes: seq<Node>, ghost parents: seq<nat>, ghost p: nat)
    requires |nodes| == |parents| + 1 && p < |nodes| && nodes[p] == top
    requires Distinct(nodes) && node !in nodes && node.children == []
    requires forall j :: 0 <= j < |parents| ==> parents[j] <= j
    requires ChildrenMatch(nodes, parents)
    modifies top
    ensures ChildrenMatch(nodes + [node], parents + [p])
  {
    top.children := top.children + [node];
    ghost var nodes1, parents1 := nodes + [node], parents + [p];
    forall k | 0 <= k < |nodes1|
      ensures nodes1[k].children == Pick(nodes1, ChildIndices(parents1, k))
    {
      ChildIndicesSnoc(parents, p, k);
      if k < |nodes| {
        PickSnoc(nodes, node, ChildIndices(parents, k));
        if k < p {
          DistinctAt(nodes, k, p);
        } else if p < k {
          DistinctAt(nodes, p, k);
        }
      } else {
        NoChildrenYet(parents1, k);
      }
    }
  }
}
