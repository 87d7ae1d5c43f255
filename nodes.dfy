/** The node objects of `build_tree_dict` and what the heap must look like
    while it runs: each dict `{"name", "children"}` is a Node object whose
    children list is appended to in place, and the stack holds references
    to nodes that are also in the tree. */
module Nodes {
  import opened TreeSpec

  class Node {
    const name: string
    var children: seq<Node>

    constructor (name: string)
      ensures this.name == name && children == []
    {
      this.name := name;
      children := [];
    }
  }

  /** The nodes, in increasing order, whose parent is node k, when entry j
      of parents is the parent of node j + 1. */
  function ChildIndices(parents: seq<nat>, k: nat): (r: seq<nat>)
    ensures forall i :: 0 <= i < |r| ==> 1 <= r[i] <= |parents| && parents[r[i] - 1] == k
    ensures forall i, j :: 0 <= i < j < |r| ==> r[i] < r[j]
    ensures forall j :: 0 <= j < |parents| && parents[j] == k ==> j + 1 in r
  {
    if |parents| == 0 then []
    else
      var init := parents[..|parents| - 1];
      ChildIndices(init, k) + (if parents[|parents| - 1] == k then [|parents|] else [])
  }

  /** The nodes at the given indices. */
  function Pick(nodes: seq<Node>, indices: seq<nat>): (r: seq<Node>)
    requires forall i :: 0 <= i < |indices| ==> indices[i] < |nodes|
    ensures |r| == |indices| && forall i :: 0 <= i < |indices| ==> r[i] == nodes[indices[i]]
  {
    seq(|indices|, i requires 0 <= i < |indices| => nodes[indices[i]])
  }

  /** No node occurs twice: each one differs from every node before it. */
  predicate Distinct(nodes: seq<Node>)
  {
    |nodes| == 0 || (Distinct(nodes[..|nodes| - 1]) && nodes[|nodes| - 1] !in nodes[..|nodes| - 1])
  }

  /** Distinct nodes sit at distinct positions. */
  lemma {:induction false} DistinctAt(nodes: seq<Node>, k: nat, l: nat)
    requires Distinct(nodes) && k < l < |nodes|
    ensures nodes[k] != nodes[l]
  {
    var init := nodes[..|nodes| - 1];
    if l < |nodes| - 1 {
      DistinctAt(init, k, l);
    } else {
      assert nodes[k] == init[k];
    }
  }

  /** The heap matches a parent sequence: node k's children are, in order,
      the nodes whose parent is k, and every index is a node. */
  predicate ChildrenMatch(nodes: seq<Node>, parents: seq<nat>)
    requires |nodes| == |parents| + 1
    reads nodes
  {
    forall k {:trigger ChildIndices(parents, k)} :: 0 <= k < |nodes| ==> nodes[k].children == Pick(nodes, ChildIndices(parents, k))
  }

  /** The stack holds, bottom to top, the nodes with the given indices and
      the given recorded depths. */
  predicate StackMatches(stack: seq<(Node, int)>, nodes: seq<Node>, indices: seq<nat>, depths: seq<int>)
  {
    |stack| == |indices| == |depths|
    && (forall s :: 0 <= s < |stack| ==> indices[s] < |nodes| && stack[s].0 == nodes[indices[s]])
    && (forall s :: 0 <= s < |stack| ==> stack[s].1 == depths[s])
  }

  /** The part of the loop invariant that the children lists do not enter:
      the nodes made so far are distinct and carry the trace's names, every
      parent comes before its child, and the stack holds the trace's stack
      nodes with their depths above the root's sentinel -1. */
  predicate Tracks(stack: seq<(Node, int)>, nodes: seq<Node>, t: Trace)
  {
    |nodes| == |t.names| == |t.parents| + 1
    && Distinct(nodes)
    && (forall k :: 0 <= k < |nodes| ==> nodes[k].name == t.names[k])
    && (forall j :: 0 <= j < |t.parents| ==> t.parents[j] <= j)
    && 1 <= |stack| && StackMatches(stack, nodes, t.stack, t.depths)
    && t.depths[0] == -1
  }

  /** What holds between iterations: the above, and the children lists match
      the trace's parent sequence. */
  ghost predicate Inv(stack: seq<(Node, int)>, nodes: seq<Node>, t: Trace)
    reads nodes
  {
    Tracks(stack, nodes, t) && ChildrenMatch(nodes, t.parents)
  }

  /** Cutting the stack to its first n entries and pushing a new node keeps
      it in step with the same cut and push on indices and depths. */
  lemma StackMatchesPush(stack: seq<(Node, int)>, nodes: seq<Node>, indices: seq<nat>, depths: seq<int>, n: nat, node: Node, level: int)
    requires StackMatches(stack, nodes, indices, depths) && n <= |stack|
    ensures StackMatches(stack[..n] + [(node, level)], nodes + [node], indices[..n] + [|nodes|], depths[..n] + [level])
  {
  }

  lemma ChildIndicesSnoc(parents: seq<nat>, p: nat, k: nat)
    ensures ChildIndices(parents + [p], k) == ChildIndices(parents, k) + (if p == k then [|parents| + 1] else [])
  {
    assert (parents + [p])[..|parents|] == parents;
  }

  /** A node that comes after every parent in the sequence has no children. */
  lemma NoChildrenYet(parents: seq<nat>, k: nat)
    requires forall j :: 0 <= j < |parents| ==> parents[j] < k
    ensures ChildIndices(parents, k) == []
  {
  }

  lemma PickSnoc(nodes: seq<Node>, node: Node, indices: seq<nat>)
    requires forall i :: 0 <= i < |indices| ==> indices[i] < |nodes|
    ensures Pick(nodes + [node], indices) == Pick(nodes, indices)
    ensures Pick(nodes + [node], indices + [|nodes|]) == Pick(nodes, indices) + [node]
  {
    assert Pick(nodes + [node], indices + [|nodes|])[|indices|] == node;
  }
}
