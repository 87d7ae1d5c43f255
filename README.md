# Markdown folder tree generator, modelled in Dafny

The generator takes a root folder name and a block of text with one folder
or file per line, where indentation gives the nesting. It first normalises
the block into lines: the whole block is stripped, then split at newlines.
The same lines then feed two builders:

- `build_markdown_tree` draws a text tree. The first row is `root/`. Each
  line becomes one row: one `"│   "` per indent unit, then `"├── "`, then
  the line without its leading whitespace.
- `build_tree_dict` builds a tree of `{"name", "children"}` nodes. It keeps
  a stack of `(node, depth)` pairs that starts as `[(root, -1)]`. For each
  line it pops every entry at least as deep as the line, appends the new
  node to the children of the node on top, and pushes the new node with
  its depth.

Both builders compute a line's depth as the number of leading whitespace
characters divided by the indent unit, rounded down. The unit is 2 in the
app.

The modules:

- `Text`: the Python string operations the code relies on.
  - `str.isspace` as an explicit character table.
  - `lstrip`, `rstrip`, `strip`, `split` on one character, `join`, and
    repetition.
- `Lines`: the normaliser, and the per-line depth and label.
- `Markdown`: the markdown loop as a method, proved against a function
  that gives the rows. `ParseRow` decodes a row again, which shows that the
  text carries each line's depth and name, in input order.
- `Trees`: the node tree as a value. A children list is a snoc list, since
  the code only ever appends to it.
- `TreeSpec`: the stack algorithm as a fold over the lines, and its
  properties. These are the stack invariant, the parent of each line, the
  pre-order, the distances from the root, and the exact rule for skipped
  levels. It also holds a trace of the loop on node indices.
- `Nodes`: a `Node` class with a `children` field that is appended to in
  place, and the invariant that ties the heap to the trace.
- `TreeDict`: the tree builder as methods over `Node` objects. The stack is
  a sequence of `(Node, int)` pairs whose nodes are aliased with the tree.
  The result is proved to be the pure tree.
- `FolderStruct`: the "Generate Trees" action. One lemma there shows that
  the two outputs agree, row by row and node by node.

## Model

| member | source | states |
|---|---|---|
| Text.IsWsTable | folder_struct.py:22 | Text.IsWs, the whitespace test behind `strip()` and `lstrip()`, accepts exactly the 29 code points of Python's `str.isspace` table |
| Text.LStrip | folder_struct.py:28 | `lstrip()` result is a suffix of the line; everything it dropped is whitespace; it does not start with whitespace |
| Text.RStrip | folder_struct.py:22 | the right-strip half of `strip()`: a prefix of its input, only whitespace removed, does not end in whitespace |
| Text.LeadingWs | folder_struct.py:29 | `len(line) - len(line.lstrip())` counts exactly the leading whitespace characters: all counted ones are whitespace and the next one is not |
| Text.Strip | folder_struct.py:22 | `strip()` is the contiguous slice of the input with whitespace only outside it, starting and ending in non-whitespace; it is empty iff the input is all whitespace |
| Text.Split | folder_struct.py:22 | `split("\n")` never returns an empty list, no piece contains the separator, the first piece is a prefix of the input |
| Text.Repeat | folder_struct.py:30 | `"│   " * n` has n times the length of the bar and only its characters |
| Text.JoinSplit | folder_struct.py:22 | joining the pieces of a split with the separator gives the input back |
| Text.SplitJoin | folder_struct.py:32 | Text.Join, `"\n".join(rows)`, is undone by splitting at newlines: the rows come back when no row holds a newline |
| Lines.NormaliseLines | folder_struct.py:22 | the normaliser yields at least one line and no line contains a newline |
| Lines.NormaliseRoundTrip | folder_struct.py:22 | the normalised lines joined by newlines are exactly the stripped block: nothing inside it is lost or altered |
| Lines.NormaliseBlank | folder_struct.py:22 | the lines are `[""]` exactly when the input is empty or all whitespace |
| Lines.NormaliseFirstLineFlush | folder_struct.py:22 | the first line has no leading whitespace, so its depth is 0 for every indent unit |
| Lines.DepthIsFloor | folder_struct.py:28-29 | Lines.Depth, the formula both builders use (lines 29 and 51), is the unique d with d·unit ≤ leading whitespace < (d+1)·unit, i.e. floor division |
| Markdown.Row | folder_struct.py:28-30 | the row drawn for a line decodes back to exactly that line's depth and left-stripped text |
| Markdown.Rows | folder_struct.py:26-31 | there are len(lines)+1 rows, the first is `root/`, row j+1 is the drawing of line j |
| Markdown.BuildMarkdownTree | folder_struct.py:25-32 | the loop, with the same depth formula, returns the rows of Rows joined by newlines |
| Markdown.RowsSnoc | folder_struct.py:31 | one more line appends exactly its row at the end, so rows are in input order |
| Markdown.CountBars | folder_struct.py:30 | the leading bars counted never exceed the row's length |
| Markdown.CountBarsRepeat | folder_struct.py:30 | a row starting with n bars followed by anything counts n more bars than that rest |
| Markdown.ParseRowOf | folder_struct.py:30 | a row of d bars, the tee and a name decodes to exactly d and the name |
| Markdown.RowHasNoNewline | folder_struct.py:30 | a row holds no newline when its line holds none |
| Markdown.MarkdownDecodes | folder_struct.py:25-32 | the markdown text (Markdown.MarkdownText, the rows joined by newlines) splits at newlines into exactly len(lines)+1 rows, the first `root/`, row j+1 decoding to line j's depth and name |
| Trees.Leaf | folder_struct.py:52 | a fresh node `{"name", "children": []}` is one node on a path of length one |
| Trees.AppendAt | folder_struct.py:55 | appending a subtree under the node at position level of the rightmost path adds its node count to the size, keeps the root's name, and makes the rightmost path level+1 plus the subtree's height long; what the new tree contains is stated, for a leaf, by AppendAtPreorder, AppendAtParents and AppendAtSpine |
| Trees.AppendAtPreorder | folder_struct.py:55 | after the append the leaf's name is the last entry of the pre-order, nothing else changes |
| Trees.AppendAtDistances | folder_struct.py:55 | the appended leaf is level+1 steps below the root, no other node moves |
| Trees.AppendAtParents | folder_struct.py:55 | the leaf's parent is the node at position level on the rightmost path, no other parent changes |
| Trees.AppendAtSpine | folder_struct.py:55-56 | the new rightmost path is the kept prefix of the old one followed by the new node, mirroring the pop and push |
| Trees.SpineEnd | folder_struct.py:56 | the rightmost path ends at the newest node in pre-order, which is the stack top |
| Trees.SpineIncreasing | folder_struct.py:56 | indices along the rightmost path strictly increase from the root and stay inside the tree |
| TreeSpec.Pop | folder_struct.py:53-54 | the pop loop keeps a nonempty prefix of the stack depths, its top shallower than the line, every popped depth at least the line's |
| TreeSpec.Step | folder_struct.py:50-56 | one iteration keeps the stack well formed (nonempty, bottom -1, strictly increasing depths, exactly the rightmost path) and adds one node |
| TreeSpec.Build | folder_struct.py:46-57 | after all lines the stack is well formed, the tree has len(lines)+1 nodes and the root carries the root folder name |
| TreeSpec.Levels | folder_struct.py:48-51 | -1 for the root, then each line's depth by the shared formula |
| TreeSpec.Labels | folder_struct.py:50-52 | one name per line, its left-stripped text |
| TreeSpec.Nearest | folder_struct.py:53-55 | reference definition of where a line attaches: the nearest earlier node shallower than it, with nothing shallower in between |
| TreeSpec.StepFacts | folder_struct.py:50-56 | one iteration pushes the line's depth on the popped stack, appends the name to the pre-order, puts the node at distance (kept entries) and makes the old top its parent |
| TreeSpec.BuildPreorder | folder_struct.py:49-52 | the pre-order of the tree is the root followed by every line's name in input order: one node per line |
| TreeSpec.FaithfulPush | folder_struct.py:53-56 | popping to the kept prefix and pushing the new node keeps the stack faithful to the nodes' depths |
| TreeSpec.PushKeepsOrder | folder_struct.py:53-56 | after the push, every node later than a kept entry is at least as deep as the entry above it |
| TreeSpec.StackFaithfulStep | folder_struct.py:50-56 | one iteration keeps the stack faithful: top is the newest node, each entry's recorded depth is its node's depth |
| TreeSpec.BuildStack | folder_struct.py:48-56 | the stack is faithful after every prefix of the lines |
| TreeSpec.NearestOnTop | folder_struct.py:53-55 | after popping, the top node is shallower than the line and every later node is not |
| TreeSpec.AttachedSnoc | folder_struct.py:55 | attaching to such a node extends the nearest-shallower parent relation by one line |
| TreeSpec.BuildAttachesToNearest | folder_struct.py:53-55 | every line's parent has a strictly smaller depth and every node between them is at least as deep as the line |
| TreeSpec.NearestUnique | folder_struct.py:53-55 | those conditions determine the parent: it is the one Nearest names |
| TreeSpec.BuildParentIsNearest | folder_struct.py:53-55 | the parent of line j is Nearest of its depth over the nodes made before it |
| TreeSpec.RootLevelLinesAttachToRoot | folder_struct.py:48-55 | a depth-0 line always becomes a child of the root, since the -1 sentinel is never popped |
| TreeSpec.ChildOfPrevious | folder_struct.py:53-55 | a line is a child of the line right above it if and only if it is deeper than that line |
| TreeSpec.IncreasingFromSentinel | folder_struct.py:48 | strictly increasing stack depths from -1 rise at least one per entry |
| TreeSpec.BuildDistanceBound | folder_struct.py:53-56 | every node is at most its line's depth plus one steps from the root |
| TreeSpec.BuildDistancesSnoc | folder_struct.py:55-56 | the new node's distance from the root is the number of stack entries kept by the pop |
| TreeSpec.PopStair | folder_struct.py:53-54 | on stack depths -1, 0, 1, ... the pop keeps level+1 entries, or all when the line is deeper than the top |
| TreeSpec.StairPush | folder_struct.py:53-56 | a line at most one deeper than the top keeps the depths a stair |
| TreeSpec.BuildStair | folder_struct.py:53-56 | without skipped levels the stack depths are always -1, 0, 1, ... |
| TreeSpec.NoSkipPrefix | folder_struct.py:49-51 | no skip in all lines iff no skip before the last line and the last is at most one deeper than the line before it |
| TreeSpec.StackTop | folder_struct.py:56 | the top entry records the newest node's depth |
| TreeSpec.ExactSnoc | folder_struct.py:56 | exactness of the distances extends by one node iff that node's distance is its depth plus one |
| TreeSpec.StairLanding | folder_struct.py:53-56 | on a stair the new node lands at depth+1 exactly when it is at most one level deeper than the newest node |
| TreeSpec.BuildFlattening | folder_struct.py:53-56 | every node is exactly depth+1 from the root if and only if no line skips a level; a skipped level is flattened, not padded |
| TreeSpec.BuildPreorderSnoc | folder_struct.py:52-55 | one more line puts its name last in the pre-order |
| TreeSpec.BuildParentsSnoc | folder_struct.py:55 | one more line gets the node on top of the popped stack as parent, no other parent changes |
| TreeSpec.BuildSpineSnoc | folder_struct.py:53-56 | the stack after one more line is the kept entries and the new node with the line's depth |
| TreeSpec.TraceBuild | folder_struct.py:46-57 | the index-level loop makes one node per line, every parent before its child, only made nodes on the stack above the -1 sentinel |
| TreeSpec.TraceBuildSnoc | folder_struct.py:49 | the trace of one more line is one more step |
| TreeSpec.TraceMatchesBuild | folder_struct.py:46-57 | the index trace records exactly the tree's pre-order names, parents, rightmost path and stack depths |
| Nodes.Node.constructor | folder_struct.py:52 | a new node has the given name and no children |
| Nodes.ChildIndices | folder_struct.py:55 | the children of node k are exactly the nodes whose parent is k, in increasing (append) order |
| Nodes.Pick | folder_struct.py:55 | picks the nodes at the given indices in order |
| Nodes.DistinctAt | folder_struct.py:52 | every node object is made once: distinct positions hold distinct nodes |
| Nodes.StackMatchesPush | folder_struct.py:56 | cutting the stack and pushing `(node, depth)` mirrors the same cut and push on indices and depths |
| Nodes.ChildIndicesSnoc | folder_struct.py:55 | a new node adds itself at the end of its parent's children only |
| Nodes.NoChildrenYet | folder_struct.py:52 | a node newer than every parent has no children yet |
| Nodes.PickSnoc | folder_struct.py:55 | a new node at the end changes no existing children list except by appending it |
| TreeDict.BuildTreeDict | folder_struct.py:46-57 | returns a root named after the root folder, the first of len(lines)+1 distinct, newly made nodes whose names, in creation order, are the pure tree's pre-order and whose children lists are exactly its children |
| TreeDict.AddLines | folder_struct.py:47-57 | the loop from `[(root, -1)]` leaves fresh nodes, the stack and every children list in step with the index trace of all lines |
| TreeDict.AddLine | folder_struct.py:50-56 | one iteration on the heap keeps the invariant, advanced by one trace step |
| TreeDict.AddLineAt | folder_struct.py:49-56 | one iteration for line i takes the invariant for the first i lines to the first i+1 |
| TreeDict.InvSnoc | folder_struct.py:49 | the invariant after one trace step is the invariant for one more line |
| TreeDict.TracksStep | folder_struct.py:52-56 | the stack after pop and push holds the trace's stack nodes with their depths, and the new node carries its name |
| TreeDict.PopStack | folder_struct.py:53-54 | the pop loop keeps exactly the prefix of the stack that Pop keeps of its depths |
| TreeDict.Attach | folder_struct.py:55 | appending to the top node's children in place makes the heap match the parent relation extended by that parent |
| FolderStruct.GenerateTrees | folder_struct.py:20-59 | the markdown is the rendering of the normalised lines and the newly made nodes are the pure tree of the same lines |
| FolderStruct.RowsNameTheNodes | folder_struct.py:25-57 | the markdown has one row per tree node, the first naming the root, row k reading back as line k-1's depth and the name of node k in pre-order |
| FolderStruct.NamesOfRows | folder_struct.py:52 | row k and node k name the same line |
| FolderStruct.BarsShowDepthIffNoSkip | folder_struct.py:30-56 | every row's bar count is its node's distance from the root less one if and only if no line skips a level |
| FolderStruct.BarsOfRows | folder_struct.py:30 | bars match distances exactly when distances are exact for the depths |
| FolderStruct.BlankInput | folder_struct.py:22-56 | empty or whitespace-only input gives the root row and a bare tee, and a root with one child named "" |

## Left out

- The Streamlit page is not modelled: set-up, title, widgets, `st.code` and
  the subheaders (folder_struct.py:1-18, 36-37, 62). It is user interface
  with nothing to prove.
- The root folder name comes from a text input (folder_struct.py:12). Here
  it is the `rootFolder` parameter, read by both builders.
- The download button, its file name and MIME type (folder_struct.py:38-43)
  are I/O and are not modelled.
- `render_tree_with_expanders` (folder_struct.py:64-69) only creates
  expander widgets, so it is not modelled.
- An indent unit of 0 or less is excluded by `requires indentSize > 0`. In
  Python, 0 raises `ZeroDivisionError` at the `//` on lines 29 and 51. The
  builders are only ever called with the default of 2.
- `build_tree_dict` returns only the root. `TreeDict.BuildTreeDict` also
  returns a ghost sequence of every node it made, in creation order. The
  contract uses it to describe the heap.
- The stack in `build_tree_dict` is a local Python list mutated in place by
  `pop` and `append`. Here it is a sequence value that is reassigned. Only
  its nodes are aliased with the tree, and the model keeps that aliasing.
- Markdown.MarkdownDecodes: requires that neither the root name nor any
  line contains a newline. With a newline in the root name, the text would
  split into more rows. The normalised lines never contain one.
- The same requirement applies to FolderStruct.RowsNameTheNodes and
  FolderStruct.BarsShowDepthIffNoSkip.
- Behaviour of the code that a reader might not expect, and that the
  model follows as written:
  - Empty or whitespace-only input gives the single line `""`, not zero
    lines. The markdown then has a bare `├── ` row, and the root gets one
    child with an empty name. See `FolderStruct.BlankInput`.
  - Every line makes a node, blank internal lines included. So the number
    of non-root nodes is the number of lines, not the number of non-empty
    lines.
  - A line becomes a child of the line before it whenever it is deeper,
    not only when it is exactly one level deeper. See
    `TreeSpec.ChildOfPrevious`.
  - The whole block is stripped, so every leading and trailing blank line
    goes, not just one trailing empty line.
