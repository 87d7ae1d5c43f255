/** What `build_tree_dict` computes, as a fold over the lines. The state
    after some lines is the tree grown so far and the depths recorded on the
    stack, bottom first. The stack's nodes are never stored: they are always
    the nodes on the tree's rightmost path, entry i holding the node with
    pre-order index Spine(tree, 0)[i]. Node 0 is the root and node j + 1 is
    made from line j. */
module TreeSpec {
  import opened Text
  import opened Lines
  import opened Trees

  datatype Built = Built(tree: Tree, depths: seq<int>)

  predicate Increasing(s: seq<int>)
  {
    forall i, j :: 0 <= i < j < |s| ==> s[i] < s[j]
  }

  /** The stack is never empty, its bottom is the root's sentinel -1, its
      depths strictly increase, and it holds exactly the rightmost path. */
  predicate WellFormed(b: Built)
  {
    |b.depths| == Height(b.tree) && b.depths[0] == -1 && Increasing(b.depths)
  }

  /** `while indent_level <= stack[-1][1]: stack.pop()`, on the recorded
      depths. It cannot pop the bottom entry, whose depth is below level. */
  function Pop(depths: seq<int>, level: int): (kept: seq<int>)
    requires |depths| >= 1 && depths[0] < level
    ensures 1 <= |kept| <= |depths| && kept == depths[..|kept|]
    ensures kept[|kept| - 1] < level
    ensures forall i :: |kept| <= i < |depths| ==> level <= depths[i]
  {
    if depths[|depths| - 1] < level then depths else Pop(depths[..|depths| - 1], level)
  }

  /** One iteration of the loop: pop, append the new leaf to the node on
      top of the stack, push the new node with its depth. */
  function Step(b: Built, line: string, indentSize: int): (r: Built)
    requires indentSize > 0 && WellFormed(b)
    ensures WellFormed(r)
    ensures Size(r.tree) == Size(b.tree) + 1 && r.tree.name == b.tree.name
  {
    var level := Depth(line, indentSize);
    var kept := Pop(b.depths, level);
    Built(AppendAt(b.tree, |kept| - 1, Leaf(Label(line))), kept + [level])
  }

  /** The state after all lines; the loop starts from the lone root with
      the stack `[(root, -1)]`. The tree has one node per line besides the
      root. */
  function Build(rootFolder: string, lines: seq<string>, indentSize: int): (b: Built)
    requires indentSize > 0
    ensures WellFormed(b) && Size(b.tree) == |lines| + 1 && b.tree.name == rootFolder
  {
    if |lines| == 0 then Built(Leaf(rootFolder), [-1])
    else Step(Build(rootFolder, lines[..|lines| - 1], indentSize), lines[|lines| - 1], indentSize)
  }

  /** The depth of every node in pre-order: -1 for the root, the line's
      depth for the others. */
  function Levels(lines: seq<string>, indentSize: int): (levels: seq<int>)
    requires indentSize > 0
    ensures |levels| == |lines| + 1 && levels[0] == -1
    ensures forall j :: 0 <= j < |lines| ==> levels[j + 1] == Depth(lines[j], indentSize)
  {
    [-1] + seq(|lines|, j requires 0 <= j < |lines| => Depth(lines[j], indentSize) as int)
  }

  /** The name every line contributes. */
  function Labels(lines: seq<string>): (names: seq<string>)
    ensures |names| == |lines|
    ensures forall j :: 0 <= j < |lines| ==> names[j] == Label(lines[j])
  {
    seq(|lines|, j requires 0 <= j < |lines| => Label(lines[j]))
  }

  /** The nearest node at or before k that is shallower than d: a direct
      reference for where the stack algorithm attaches a line of depth d. */
  function Nearest(levels: seq<int>, d: int, k: nat): (p: nat)
    requires k < |levels| && levels[0] < d
    ensures p <= k && levels[p] < d
    ensures forall q :: p < q <= k ==> levels[q] >= d
  {
    if levels[k] < d then k else Nearest(levels, d, k - 1)
  }

  /** No line is more than one level deeper than the line before it (the
      first line at most at level 0). */
  predicate NoSkip(lines: seq<string>, indentSize: int)
    requires indentSize > 0
  {
    forall j :: 0 <= j < |lines| ==> Levels(lines, indentSize)[j + 1] <= Levels(lines, indentSize)[j] + 1
  }

  /** The effect of one iteration on the tree's derived sequences. */
  lemma StepFacts(b: Built, line: string, indentSize: int)
    requires indentSize > 0 && WellFormed(b)
    ensures Step(b, line, indentSize).depths == Pop(b.depths, Depth(line, indentSize)) + [Depth(line, indentSize) as int]
    ensures Preorder(Step(b, line, indentSize).tree) == Preorder(b.tree) + [Label(line)]
    ensures Distances(Step(b, line, indentSize).tree, 0)
         == Distances(b.tree, 0) + [|Pop(b.depths, Depth(line, indentSize))|]
    ensures Parents(Step(b, line, indentSize).tree, 0)
         == Parents(b.tree, 0) + [Spine(b.tree, 0)[|Pop(b.depths, Depth(line, indentSize))| - 1]]
    ensures Spine(Step(b, line, indentSize).tree, 0)
         == Spine(b.tree, 0)[..|Pop(b.depths, Depth(line, indentSize))|] + [Size(b.tree)]
  {
    var level := Depth(line, indentSize);
    var kept := Pop(b.depths, level);
    var name := Label(line);
    var l := |kept| - 1;
    var t1 := AppendAt(b.tree, l, Leaf(name));
    assert Step(b, line, indentSize) == Built(t1, kept + [level]);
    AppendAtPreorder(b.tree, l, name);
    AppendAtDistances(b.tree, l, name, 0);
    AppendAtParents(b.tree, l, name, 0);
    AppendAtSpine(b.tree, l, name, 0);
    assert Spine(t1, 0) == Spine(b.tree, 0)[..l + 1] + [Size(b.tree)];
  }

  /** Walking the tree in pre-order lists the root and then the lines'
      names in input order. */
  lemma {:induction false} BuildPreorder(rootFolder: string, lines: seq<string>, indentSize: int)
    requires indentSize > 0
    ensures Preorder(Build(rootFolder, lines, indentSize).tree) == [rootFolder] + Labels(lines)
  {
    if |lines| > 0 {
      var init, line := lines[..|lines| - 1], lines[|lines| - 1];
      var b0 := Build(rootFolder, init, indentSize);
      BuildPreorder(rootFolder, init, indentSize);
      StepFacts(b0, line, indentSize);
      LabelsSnoc(lines);
      assert [rootFolder] + (Labels(init) + [Label(line)]) == [rootFolder] + Labels(init) + [Label(line)];
    }
  }

  lemma LabelsSnoc(lines: seq<string>)
    requires |lines| > 0
    ensures Labels(lines) == Labels(lines[..|lines| - 1]) + [Label(lines[|lines| - 1])]
  {
  }

  lemma LevelsSnoc(lines: seq<string>, indentSize: int)
    requires indentSize > 0 && |lines| > 0
    ensures Levels(lines, indentSize) == Levels(lines[..|lines| - 1], indentSize) + [Depth(lines[|lines| - 1], indentSize) as int]
  {
    var init := lines[..|lines| - 1];
    var a, b := Levels(lines, indentSize), Levels(init, indentSize) + [Depth(lines[|lines| - 1], indentSize) as int];
    assert |a| == |b|;
    forall i | 0 <= i < |a|
      ensures a[i] == b[i]
    {
      if 0 < i < |lines| {
        assert init[i - 1] == lines[i - 1];
      }
    }
  }

  /** What the stack knows about the nodes built so far, given the
      pre-order indices s of its nodes, their recorded depths d, and the
      depth of every node in pre-order: its top is the newest node, each
      entry records its node's depth, and every node after entry i is at
      least as deep as entry i + 1, because whatever the loop popped was at
      least as deep as what replaced it. */
  predicate Faithful(s: seq<nat>, d: seq<int>, levels: seq<int>)
  {
    && |s| == |d| >= 1
    && s[|s| - 1] == |levels| - 1
    && (forall i {:trigger s[i]} :: 0 <= i < |s| ==> s[i] < |levels| && d[i] == levels[s[i]])
    && (forall i, k {:trigger s[i], levels[k]} :: 0 <= i < |s| - 1 && s[i] < k < |levels| ==> levels[k] >= d[i + 1])
  }

  predicate StackFaithful(b: Built, levels: seq<int>)
  {
    Faithful(Spine(b.tree, 0), b.depths, levels)
  }

  /** Popping down to the first m entries and pushing the newest node keeps
      the stack faithful. */
  lemma FaithfulPush(s: seq<nat>, d: seq<int>, levels: seq<int>, m: nat, level: int)
    requires Faithful(s, d, levels) && Increasing(d)
    requires 1 <= m <= |d| && d[m - 1] < level
    requires forall i :: m <= i < |d| ==> level <= d[i]
    ensures Faithful(s[..m] + [|levels|], d[..m] + [level], levels + [level])
  {
    var s1, d1, l1 := s[..m] + [|levels|], d[..m] + [level], levels + [level];
    assert forall i :: 0 <= i < m ==> s1[i] == s[i] && d1[i] == d[i];
    PushKeepsOrder(s, d, levels, m, level);
  }

  /** The ordering part of FaithfulPush: after the push, every node after a
      kept entry is at least as deep as the entry above it. */
  lemma PushKeepsOrder(s: seq<nat>, d: seq<int>, levels: seq<int>, m: nat, level: int)
    requires Faithful(s, d, levels) && Increasing(d)
    requires 1 <= m <= |d| && d[m - 1] < level
    requires forall i :: m <= i < |d| ==> level <= d[i]
    ensures forall i, k {:trigger (s[..m] + [|levels|])[i], (levels + [level])[k]} ::
      0 <= i < m && (s[..m] + [|levels|])[i] < k < |levels| + 1 ==> (levels + [level])[k] >= (d[..m] + [level])[i + 1]
  {
    var s1, d1, l1 := s[..m] + [|levels|], d[..m] + [level], levels + [level];
    forall i, k | 0 <= i < m && s1[i] < k < |l1|
      ensures l1[k] >= d1[i + 1]
    {
      assert s1[i] == s[i];
      if k == |levels| {
        if i + 1 < m {
          assert d[i + 1] <= d[m - 1];
        }
      } else {
        assert l1[k] == levels[k];
        if i + 1 == m {
          // k comes after entry m - 1 but is not the newest node, so entry m
          // existed and was popped
          assert s[|s| - 1] == |levels| - 1;
          assert m < |s|;
          assert levels[k] >= d[m] >= level;
        } else {
          assert d1[i + 1] == d[i + 1];
          assert levels[k] >= d[i + 1];
        }
      }
    }
  }

  lemma StackFaithfulStep(b: Built, levels: seq<int>, line: string, indentSize: int)
    requires indentSize > 0 && WellFormed(b) && StackFaithful(b, levels)
    requires |levels| == Size(b.tree)
    ensures StackFaithful(Step(b, line, indentSize), levels + [Depth(line, indentSize) as int])
  {
    var level := Depth(line, indentSize);
    var kept := Pop(b.depths, level);
    AppendAtSpine(b.tree, |kept| - 1, Label(line), 0);
    FaithfulPush(Spine(b.tree, 0), b.depths, levels, |kept|, level);
  }

  /** The stack invariant holds after every prefix of the lines. */
  lemma {:induction false} BuildStack(rootFolder: string, lines: seq<string>, indentSize: int)
    requires indentSize > 0
    ensures StackFaithful(Build(rootFolder, lines, indentSize), Levels(lines, indentSize))
  {
    if |lines| > 0 {
      var init := lines[..|lines| - 1];
      BuildStack(rootFolder, init, indentSize);
      LevelsSnoc(lines, indentSize);
      StackFaithfulStep(Build(rootFolder, init, indentSize), Levels(init, indentSize), lines[|lines| - 1], indentSize);
    } else {
      assert Spine(Leaf(rootFolder), 0) == [0];
    }
  }

  /** Entry j of parents is the nearest node at or before node j that is
      shallower than node j + 1. */
  predicate AttachedToNearest(parents: seq<nat>, levels: seq<int>)
    requires |levels| == |parents| + 1
  {
    forall j :: 0 <= j < |parents| ==>
      && parents[j] <= j
      && levels[parents[j]] < levels[j + 1]
      && (forall k :: parents[j] < k <= j ==> levels[k] >= levels[j + 1])
  }

  /** After popping down to m entries, the node on top of the stack is the
      nearest node shallower than level. */
  lemma NearestOnTop(s: seq<nat>, d: seq<int>, levels: seq<int>, m: nat, level: int)
    requires Faithful(s, d, levels)
    requires 1 <= m <= |d| && d[m - 1] < level
    requires forall i :: m <= i < |d| ==> level <= d[i]
    ensures s[m - 1] < |levels| && levels[s[m - 1]] < level
    ensures forall k :: s[m - 1] < k < |levels| ==> levels[k] >= level
  {
    if m < |d| {
      assert level <= d[m];
    }
  }

  lemma AttachedSnoc(parents: seq<nat>, levels: seq<int>, p: nat, level: int)
    requires |levels| == |parents| + 1 && AttachedToNearest(parents, levels)
    requires p < |levels| && levels[p] < level
    requires forall k :: p < k < |levels| ==> levels[k] >= level
    ensures AttachedToNearest(parents + [p], levels + [level])
  {
    var p1, l1 := parents + [p], levels + [level];
    forall j | 0 <= j < |p1|
      ensures p1[j] <= j && l1[p1[j]] < l1[j + 1]
      ensures forall k :: p1[j] < k <= j ==> l1[k] >= l1[j + 1]
    {
      if j < |parents| {
        assert p1[j] == parents[j];
        assert forall k :: 0 <= k <= j + 1 ==> l1[k] == levels[k];
      }
    }
  }

  /** Every line is attached to the nearest earlier line, or the root,
      whose depth is smaller than its own. */
  lemma {:induction false} BuildAttachesToNearest(rootFolder: string, lines: seq<string>, indentSize: int)
    requires indentSize > 0
    ensures AttachedToNearest(Parents(Build(rootFolder, lines, indentSize).tree, 0), Levels(lines, indentSize))
  {
    if |lines| > 0 {
      var init, line := lines[..|lines| - 1], lines[|lines| - 1];
      var b := Build(rootFolder, init, indentSize);
      var level := Depth(line, indentSize);
      var m := |Pop(b.depths, level)|;
      var s0, p0, l0 := Spine(b.tree, 0), Parents(b.tree, 0), Levels(init, indentSize);
      BuildAttachesToNearest(rootFolder, init, indentSize);
      BuildStack(rootFolder, init, indentSize);
      NearestOnTop(s0, b.depths, l0, m, level);
      AttachedSnoc(p0, l0, s0[m - 1], level);
      BuildParentsSnoc(rootFolder, lines, indentSize);
      LevelsSnoc(lines, indentSize);
    }
  }

  lemma BuildParentsSnoc(rootFolder: string, lines: seq<string>, indentSize: int)
    requires indentSize > 0 && |lines| > 0
    ensures Parents(Build(rootFolder, lines, indentSize).tree, 0)
         == Parents(Build(rootFolder, lines[..|lines| - 1], indentSize).tree, 0)
          + [Spine(Build(rootFolder, lines[..|lines| - 1], indentSize).tree, 0)
              [|Pop(Build(rootFolder, lines[..|lines| - 1], indentSize).depths, Depth(lines[|lines| - 1], indentSize))| - 1]]
  {
    assert Build(rootFolder, lines, indentSize) == Step(Build(rootFolder, lines[..|lines| - 1], indentSize), lines[|lines| - 1], indentSize);
    StepFacts(Build(rootFolder, lines[..|lines| - 1], indentSize), lines[|lines| - 1], indentSize);
  }

  /** The conditions of AttachedToNearest pin the parent down: it is the
      one Nearest finds. */
  lemma NearestUnique(levels: seq<int>, d: int, k: nat, p: nat)
    requires k < |levels| && levels[0] < d
    requires p <= k && levels[p] < d
    requires forall q :: p < q <= k ==> levels[q] >= d
    ensures p == Nearest(levels, d, k)
  {
  }

  /** The parent of line j is node Nearest(levels, depth of line j, j). */
  lemma BuildParentIsNearest(rootFolder: string, lines: seq<string>, indentSize: int, j: nat)
    requires indentSize > 0 && j < |lines|
    ensures var levels := Levels(lines, indentSize);
      Parents(Build(rootFolder, lines, indentSize).tree, 0)[j] == Nearest(levels, levels[j + 1], j)
  {
    var levels := Levels(lines, indentSize);
    var parents := Parents(Build(rootFolder, lines, indentSize).tree, 0);
    BuildAttachesToNearest(rootFolder, lines, indentSize);
    NearestUnique(levels, levels[j + 1], j, parents[j]);
  }

  /** Lines at depth 0 always hang directly under the root. */
  lemma RootLevelLinesAttachToRoot(rootFolder: string, lines: seq<string>, indentSize: int, j: nat)
    requires indentSize > 0 && j < |lines| && Depth(lines[j], indentSize) == 0
    ensures Parents(Build(rootFolder, lines, indentSize).tree, 0)[j] == 0
  {
    var levels := Levels(lines, indentSize);
    var parents := Parents(Build(rootFolder, lines, indentSize).tree, 0);
    BuildAttachesToNearest(rootFolder, lines, indentSize);
    assert levels[parents[j]] < 0;
  }

  /** A line becomes a child of the line right above it exactly when it is
      deeper than that line. */
  lemma ChildOfPrevious(rootFolder: string, lines: seq<string>, indentSize: int, j: nat)
    requires indentSize > 0 && 0 < j < |lines|
    ensures Parents(Build(rootFolder, lines, indentSize).tree, 0)[j] == j
        <==> Depth(lines[j - 1], indentSize) < Depth(lines[j], indentSize)
  {
    var levels := Levels(lines, indentSize);
    var parents := Parents(Build(rootFolder, lines, indentSize).tree, 0);
    BuildAttachesToNearest(rootFolder, lines, indentSize);
    assert levels[j] == Depth(lines[j - 1], indentSize);
  }

  /** A strictly increasing sequence that starts at -1 rises by at least one
      per position. */
  lemma {:induction false} IncreasingFromSentinel(s: seq<int>)
    requires |s| >= 1 && s[0] == -1 && Increasing(s)
    ensures forall i :: 0 <= i < |s| ==> s[i] >= i - 1
  {
    if |s| > 1 {
      var init := s[..|s| - 1];
      assert Increasing(init);
      IncreasingFromSentinel(init);
      assert s[|s| - 1] > s[|s| - 2];
    }
  }

  /** A node is never further from the root than its line's depth plus one. */
  lemma {:induction false} BuildDistanceBound(rootFolder: string, lines: seq<string>, indentSize: int)
    requires indentSize > 0
    ensures forall k :: 1 <= k <= |lines| ==>
      Distances(Build(rootFolder, lines, indentSize).tree, 0)[k] <= Levels(lines, indentSize)[k] + 1
  {
    if |lines| > 0 {
      var init, line := lines[..|lines| - 1], lines[|lines| - 1];
      var b := Build(rootFolder, init, indentSize);
      var kept := Pop(b.depths, Depth(line, indentSize));
      var d0, d1 := Distances(b.tree, 0), Distances(Build(rootFolder, lines, indentSize).tree, 0);
      var l0, l1 := Levels(init, indentSize), Levels(lines, indentSize);
      BuildDistanceBound(rootFolder, init, indentSize);
      BuildDistancesSnoc(rootFolder, lines, indentSize);
      LevelsSnoc(lines, indentSize);
      assert Increasing(kept);
      IncreasingFromSentinel(kept);
      forall k | 1 <= k <= |lines|
        ensures d1[k] <= l1[k] + 1
      {
        if k < |lines| {
          assert d1[k] == d0[k] && l1[k] == l0[k];
        }
      }
    }
  }

  lemma BuildDistancesSnoc(rootFolder: string, lines: seq<string>, indentSize: int)
    requires indentSize > 0 && |lines| > 0
    ensures Distances(Build(rootFolder, lines, indentSize).tree, 0)
         == Distances(Build(rootFolder, lines[..|lines| - 1], indentSize).tree, 0)
          + [|Pop(Build(rootFolder, lines[..|lines| - 1], indentSize).depths, Depth(lines[|lines| - 1], indentSize))|]
  {
    assert Build(rootFolder, lines, indentSize) == Step(Build(rootFolder, lines[..|lines| - 1], indentSize), lines[|lines| - 1], indentSize);
    StepFacts(Build(rootFolder, lines[..|lines| - 1], indentSize), lines[|lines| - 1], indentSize);
  }

  /** Stack depths -1, 0, 1, ...: no level has been skipped. */
  predicate Stair(d: seq<int>)
  {
    forall i :: 0 <= i < |d| ==> d[i] == i - 1
  }

  /** On a stair the loop pops down to level + 1 entries, or pops nothing
      when the line is deeper than every entry. */
  lemma PopStair(d: seq<int>, level: nat)
    requires |d| >= 1 && Stair(d)
    ensures |Pop(d, level)| == if level + 1 <= |d| then level + 1 else |d|
  {
    var m := |Pop(d, level)|;
    assert d[m - 1] == m - 2;
    if m < |d| {
      assert d[m] == m - 1;
    }
  }

  /** A line at most one level deeper than the top leaves a stair. */
  lemma StairPush(d: seq<int>, level: nat)
    requires |d| >= 1 && Stair(d) && level <= d[|d| - 1] + 1
    ensures Stair(Pop(d, level) + [level])
  {
    PopStair(d, level);
  }

  /** Without skipped levels the stack is a stair. */
  lemma {:induction false} BuildStair(rootFolder: string, lines: seq<string>, indentSize: int)
    requires indentSize > 0 && NoSkip(lines, indentSize)
    ensures Stair(Build(rootFolder, lines, indentSize).depths)
  {
    if |lines| > 0 {
      var init, line := lines[..|lines| - 1], lines[|lines| - 1];
      var b := Build(rootFolder, init, indentSize);
      var l0, l1 := Levels(init, indentSize), Levels(lines, indentSize);
      LevelsSnoc(lines, indentSize);
      NoSkipPrefix(lines, indentSize);
      BuildStair(rootFolder, init, indentSize);
      BuildStack(rootFolder, init, indentSize);
      StackTop(b, l0);
      assert l1[|lines|] <= l1[|lines| - 1] + 1;
      StairPush(b.depths, Depth(line, indentSize));
      StepFacts(b, line, indentSize);
    }
  }

  lemma NoSkipPrefix(lines: seq<string>, indentSize: int)
    requires indentSize > 0 && |lines| > 0
    ensures NoSkip(lines, indentSize)
        <==> (NoSkip(lines[..|lines| - 1], indentSize)
              && Depth(lines[|lines| - 1], indentSize) <= Levels(lines, indentSize)[|lines| - 1] + 1)
  {
    var n := |lines| - 1;
    var init := lines[..n];
    var l0, l1 := Levels(init, indentSize), Levels(lines, indentSize);
    LevelsSnoc(lines, indentSize);
    assert forall k :: 0 <= k <= n ==> l0[k] == l1[k];
    if NoSkip(lines, indentSize) {
      forall j | 0 <= j < n
        ensures l0[j + 1] <= l0[j] + 1
      {
        assert l1[j + 1] <= l1[j] + 1;
      }
      assert l1[n + 1] <= l1[n] + 1;
    }
  }

  /** The top entry of a faithful stack records the newest node's depth. */
  lemma StackTop(b: Built, levels: seq<int>)
    requires StackFaithful(b, levels)
    ensures b.depths[|b.depths| - 1] == levels[|levels| - 1]
  {
    var s := Spine(b.tree, 0);
    assert b.depths[|s| - 1] == levels[s[|s| - 1]];
  }

  /** Every node but the root is one step further from the root than its
      depth. */
  predicate ExactDistances(distances: seq<nat>, levels: seq<int>)
    requires |distances| == |levels|
  {
    forall k :: 1 <= k < |distances| ==> distances[k] == levels[k] + 1
  }

  lemma ExactSnoc(distances: seq<nat>, levels: seq<int>, x: nat, y: int)
    requires 1 <= |distances| == |levels|
    ensures ExactDistances(distances + [x], levels + [y]) <==> ExactDistances(distances, levels) && x == y + 1
  {
    var d1, l1 := distances + [x], levels + [y];
    assert forall k :: 1 <= k < |distances| ==> d1[k] == distances[k] && l1[k] == levels[k];
    assert d1[|distances|] == x && l1[|distances|] == y;
  }

  /** On a stair, the new node lands one step below its depth exactly when
      it is at most one level deeper than the newest node. */
  lemma StairLanding(b: Built, levels: seq<int>, level: nat)
    requires WellFormed(b) && StackFaithful(b, levels) && Stair(b.depths)
    ensures |Pop(b.depths, level)| == level + 1 <==> level <= levels[|levels| - 1] + 1
  {
    StackTop(b, levels);
    PopStair(b.depths, level);
  }

  /** Exact flattening rule: every node sits exactly one step deeper than
      its line's depth if and only if no line skips a level; where a line
      does skip, it hangs under the line above and ends up shallower. */
  lemma {:induction false} BuildFlattening(rootFolder: string, lines: seq<string>, indentSize: int)
    requires indentSize > 0
    ensures NoSkip(lines, indentSize)
        <==> ExactDistances(Distances(Build(rootFolder, lines, indentSize).tree, 0), Levels(lines, indentSize))
  {
    if |lines| > 0 {
      var init, line := lines[..|lines| - 1], lines[|lines| - 1];
      var b := Build(rootFolder, init, indentSize);
      var level := Depth(line, indentSize);
      var m := |Pop(b.depths, level)|;
      var d0, l0 := Distances(b.tree, 0), Levels(init, indentSize);
      BuildFlattening(rootFolder, init, indentSize);
      BuildDistancesSnoc(rootFolder, lines, indentSize);
      LevelsSnoc(lines, indentSize);
      NoSkipPrefix(lines, indentSize);
      ExactSnoc(d0, l0, m, level);
      if NoSkip(init, indentSize) {
        BuildStair(rootFolder, init, indentSize);
        BuildStack(rootFolder, init, indentSize);
        StairLanding(b, l0, level);
      }
    }
  }

  lemma BuildPreorderSnoc(rootFolder: string, lines: seq<string>, indentSize: int)
    requires indentSize > 0 && |lines| > 0
    ensures Preorder(Build(rootFolder, lines, indentSize).tree)
         == Preorder(Build(rootFolder, lines[..|lines| - 1], indentSize).tree) + [Label(lines[|lines| - 1])]
  {
    assert Build(rootFolder, lines, indentSize) == Step(Build(rootFolder, lines[..|lines| - 1], indentSize), lines[|lines| - 1], indentSize);
    StepFacts(Build(rootFolder, lines[..|lines| - 1], indentSize), lines[|lines| - 1], indentSize);
  }

  /** The stack after one more line: the entries the loop kept, then the new
      node (index |lines|) with its depth. */
  lemma BuildSpineSnoc(rootFolder: string, lines: seq<string>, indentSize: int)
    requires indentSize > 0 && |lines| > 0
    ensures Spine(Build(rootFolder, lines, indentSize).tree, 0)
         == Spine(Build(rootFolder, lines[..|lines| - 1], indentSize).tree, 0)
              [..|Pop(Build(rootFolder, lines[..|lines| - 1], indentSize).depths, Depth(lines[|lines| - 1], indentSize))|]
          + [|lines|]
    ensures Build(rootFolder, lines, indentSize).depths
         == Pop(Build(rootFolder, lines[..|lines| - 1], indentSize).depths, Depth(lines[|lines| - 1], indentSize))
          + [Depth(lines[|lines| - 1], indentSize) as int]
  {
    assert Build(rootFolder, lines, indentSize) == Step(Build(rootFolder, lines[..|lines| - 1], indentSize), lines[|lines| - 1], indentSize);
    StepFacts(Build(rootFolder, lines[..|lines| - 1], indentSize), lines[|lines| - 1], indentSize);
  }

  /** The same loop on pre-order indices alone, the way the dicts and the
      stack of references see it: the names of the nodes made so far, the
      parent of every node after the root, the node indices on the stack
      and their depths. The new node of each step has index |names|. */
  datatype Trace = Trace(names: seq<string>, parents: seq<nat>, stack: seq<nat>, depths: seq<int>)

  function TraceStep(t: Trace, line: string, indentSize: int): Trace
    requires indentSize > 0 && |t.stack| == |t.depths| >= 1 && t.depths[0] == -1
  {
    var kept := Pop(t.depths, Depth(line, indentSize));
    Trace(t.names + [Label(line)], t.parents + [t.stack[|kept| - 1]],
          t.stack[..|kept|] + [|t.names|], kept + [Depth(line, indentSize) as int])
  }

  /** The trace after all lines: one name per line besides the root, every
      parent made before its child, every stacked node already made. */
  function TraceBuild(rootFolder: string, lines: seq<string>, indentSize: int): (t: Trace)
    requires indentSize > 0
    ensures |t.names| == |lines| + 1 && |t.parents| == |lines|
    ensures |t.stack| == |t.depths| >= 1 && t.depths[0] == -1
    ensures forall j :: 0 <= j < |t.parents| ==> t.parents[j] <= j
    ensures forall s :: 0 <= s < |t.stack| ==> t.stack[s] <= |lines|
  {
    if |lines| == 0 then Trace([rootFolder], [], [0], [-1])
    else TraceStep(TraceBuild(rootFolder, lines[..|lines| - 1], indentSize), lines[|lines| - 1], indentSize)
  }

  /** One more line is one more step of the trace. */
  lemma TraceBuildSnoc(rootFolder: string, lines: seq<string>, i: nat, indentSize: int)
    requires indentSize > 0 && i < |lines|
    ensures TraceBuild(rootFolder, lines[..i + 1], indentSize)
         == TraceStep(TraceBuild(rootFolder, lines[..i], indentSize), lines[i], indentSize)
  {
    assert lines[..i + 1][..i] == lines[..i];
  }

  /** The index trace is exactly what the tree records: names in pre-order,
      parent indices, the rightmost path and the stack depths. */
  lemma {:induction false} TraceMatchesBuild(rootFolder: string, lines: seq<string>, indentSize: int)
    requires indentSize > 0
    ensures TraceBuild(rootFolder, lines, indentSize).names == Preorder(Build(rootFolder, lines, indentSize).tree)
    ensures TraceBuild(rootFolder, lines, indentSize).parents == Parents(Build(rootFolder, lines, indentSize).tree, 0)
    ensures TraceBuild(rootFolder, lines, indentSize).stack == Spine(Build(rootFolder, lines, indentSize).tree, 0)
    ensures TraceBuild(rootFolder, lines, indentSize).depths == Build(rootFolder, lines, indentSize).depths
  {
    if |lines| > 0 {
      var init, line := lines[..|lines| - 1], lines[|lines| - 1];
      var t0, b0 := TraceBuild(rootFolder, init, indentSize), Build(rootFolder, init, indentSize);
      TraceMatchesBuild(rootFolder, init, indentSize);
      var kept := Pop(b0.depths, Depth(line, indentSize));
      assert TraceBuild(rootFolder, lines, indentSize).parents == t0.parents + [t0.stack[|kept| - 1]];
      BuildPreorderSnoc(rootFolder, lines, indentSize);
      BuildParentsSnoc(rootFolder, lines, indentSize);
      BuildSpineSnoc(rootFolder, lines, indentSize);
    } else {
      assert Spine(Leaf(rootFolder), 0) == [0];
    }
  }
}
