/** Named trees with ordered children: the value that the builder's node
    dicts `{"name": ..., "children": [...]}` form. The children list only
    ever grows by `append`, so it is modelled as a snoc list whose last
    element is the most recently appended child. Nodes are numbered in
    pre-order from the root. The lemmas describe what happens when a leaf is
    appended at the end of the rightmost path: that is the only way the
    stack algorithm ever grows the tree. */
module Trees {

  datatype Tree = Tree(name: string, children: Forest)

  /** A children list, built from the empty list by appending. */
  datatype Forest = Empty | Snoc(init: Forest, last: Tree)

  function Leaf(name: string): (t: Tree)
    ensures Size(t) == 1 && Height(t) == 1
  {
    Tree(name, Empty)
  }

  /** Number of nodes. */
  function Size(t: Tree): (n: nat)
    ensures n >= 1
  {
    1 + ForestSize(t.children)
  }

  function ForestSize(f: Forest): nat
  {
    match f
    case Empty => 0
    case Snoc(init, last) => ForestSize(init) + Size(last)
  }

  /** Names in pre-order: the node, then each child's subtree in order. */
  function Preorder(t: Tree): (r: seq<string>)
    ensures |r| == Size(t) && r[0] == t.name
  {
    [t.name] + ForestPreorder(t.children)
  }

  function ForestPreorder(f: Forest): (r: seq<string>)
    ensures |r| == ForestSize(f)
  {
    match f
    case Empty => []
    case Snoc(init, last) => ForestPreorder(init) + Preorder(last)
  }

  /** Distance from the root of every node, in pre-order, when t's own root
      is at distance d. */
  function Distances(t: Tree, d: nat): (r: seq<nat>)
    ensures |r| == Size(t) && r[0] == d
  {
    [d] + ForestDistances(t.children, d + 1)
  }

  function ForestDistances(f: Forest, d: nat): (r: seq<nat>)
    ensures |r| == ForestSize(f)
  {
    match f
    case Empty => []
    case Snoc(init, last) => ForestDistances(init, d) + Distances(last, d)
  }

  /** Pre-order index of the parent of every node below t's root, when that
      root has index self; entry j is about node self + 1 + j. */
  function Parents(t: Tree, self: nat): (r: seq<nat>)
    ensures |r| == Size(t) - 1
  {
    ForestParents(t.children, self, self + 1)
  }

  /** Parent indices for a forest whose roots are children of parent and
      whose first node has index start. */
  function ForestParents(f: Forest, parent: nat, start: nat): (r: seq<nat>)
    ensures |r| == ForestSize(f)
  {
    match f
    case Empty => []
    case Snoc(init, last) =>
      ForestParents(init, parent, start) + [parent] + Parents(last, start + ForestSize(init))
  }

  /** Number of nodes on the rightmost path, root and last node included. */
  function Height(t: Tree): (h: nat)
    ensures h >= 1
  {
    match t.children
    case Empty => 1
    case Snoc(_, last) => 1 + Height(last)
  }

  /** Pre-order indices of the rightmost path, from t's root (index self)
      down to the last node in pre-order. */
  function Spine(t: Tree, self: nat): (r: seq<nat>)
    ensures |r| == Height(t) && r[0] == self
  {
    match t.children
    case Empty => [self]
    case Snoc(init, last) => [self] + Spine(last, self + 1 + ForestSize(init))
  }

  /** Appends leaf as the last child of the node at position level on the
      rightmost path (level 0 is the root). */
  function AppendAt(t: Tree, level: nat, leaf: Tree): (r: Tree)
    requires level < Height(t)
    ensures Height(r) == level + 1 + Height(leaf)
    ensures Size(r) == Size(t) + Size(leaf) && r.name == t.name
  {
    if level == 0 then Tree(t.name, Snoc(t.children, leaf))
    else Tree(t.name, Snoc(t.children.init, AppendAt(t.children.last, level - 1, leaf)))
  }

  /** Appending a leaf adds its name at the end of the pre-order. */
  lemma {:induction false} AppendAtPreorder(t: Tree, level: nat, name: string)
    requires level < Height(t)
    ensures Preorder(AppendAt(t, level, Leaf(name))) == Preorder(t) + [name]
  {
    if level > 0 {
      var init, last := t.children.init, t.children.last;
      AppendAtPreorder(last, level - 1, name);
      assert [t.name] + (ForestPreorder(init) + (Preorder(last) + [name]))
          == [t.name] + (ForestPreorder(init) + Preorder(last)) + [name];
    } else {
      assert Preorder(Leaf(name)) == [name];
      assert [t.name] + (ForestPreorder(t.children) + [name]) == [t.name] + ForestPreorder(t.children) + [name];
    }
  }

  /** The appended leaf is the last node in pre-order and sits level + 1
      steps below t's root. */
  lemma {:induction false} AppendAtDistances(t: Tree, level: nat, name: string, d: nat)
    requires level < Height(t)
    ensures Distances(AppendAt(t, level, Leaf(name)), d) == Distances(t, d) + [d + level + 1]
  {
    if level > 0 {
      var init, last := t.children.init, t.children.last;
      AppendAtDistances(last, level - 1, name, d + 1);
      assert [d] + (ForestDistances(init, d + 1) + (Distances(last, d + 1) + [d + level + 1]))
          == [d] + (ForestDistances(init, d + 1) + Distances(last, d + 1)) + [d + level + 1];
    } else {
      assert Distances(Leaf(name), d + 1) == [d + 1];
      assert [d] + (ForestDistances(t.children, d + 1) + [d + 1]) == [d] + ForestDistances(t.children, d + 1) + [d + 1];
    }
  }

  /** The parent of the appended leaf is the node at position level on the
      rightmost path; no other node changes parent. */
  lemma {:induction false} AppendAtParents(t: Tree, level: nat, name: string, self: nat)
    requires level < Height(t)
    ensures Parents(AppendAt(t, level, Leaf(name)), self) == Parents(t, self) + [Spine(t, self)[level]]
  {
    if level > 0 {
      var init, last := t.children.init, t.children.last;
      var off := self + 1 + ForestSize(init);
      AppendAtParents(last, level - 1, name, off);
      var p := ForestParents(init, self, self + 1) + [self];
      assert p + (Parents(last, off) + [Spine(last, off)[level - 1]])
          == p + Parents(last, off) + [Spine(last, off)[level - 1]];
    } else {
      assert Parents(Leaf(name), self + 1 + ForestSize(t.children)) == [];
    }
  }

  /** After the append the rightmost path is the first level + 1 nodes of
      the old one followed by the new leaf, whose index is the old size. */
  lemma {:induction false} AppendAtSpine(t: Tree, level: nat, name: string, self: nat)
    requires level < Height(t)
    ensures Spine(AppendAt(t, level, Leaf(name)), self) == Spine(t, self)[..level + 1] + [self + Size(t)]
  {
    if level > 0 {
      var init, last := t.children.init, t.children.last;
      var off := self + 1 + ForestSize(init);
      AppendAtSpine(last, level - 1, name, off);
      var s := Spine(last, off);
      assert ([self] + s)[..level + 1] == [self] + s[..level];
    }
  }

  /** The rightmost path ends at the last node in pre-order. */
  lemma {:induction false} SpineEnd(t: Tree, self: nat)
    ensures Spine(t, self)[Height(t) - 1] == self + Size(t) - 1
  {
    match t.children
    case Empty =>
    case Snoc(init, last) =>
      SpineEnd(last, self + 1 + ForestSize(init));
  }

  /** Along the rightmost path indices strictly increase and stay inside
      t's own block of pre-order indices. */
  lemma {:induction false} SpineIncreasing(t: Tree, self: nat)
    ensures forall i, j :: 0 <= i < j < Height(t) ==> Spine(t, self)[i] < Spine(t, self)[j]
    ensures forall i :: 0 <= i < Height(t) ==> self <= Spine(t, self)[i] < self + Size(t)
  {
    match t.children
    case Empty =>
    case Snoc(init, last) =>
      var off := self + 1 + ForestSize(init);
      SpineIncreasing(last, off);
      var s := Spine(last, off);
      assert Spine(t, self) == [self] + s;
      assert forall i :: 0 < i < Height(t) ==> Spine(t, self)[i] == s[i - 1];
  }
}
