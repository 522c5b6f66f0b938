# Pre-order id assignment for the tree browser

The application shows trees of folders. Each folder node has:
- a label;
- a list of `info` records, each a file label with a destination path;
- a list of child folders.

Before the trees are rendered, `assign_ids` walks each tree in pre-order: a node first, then its children from left to right. It writes consecutive integer ids into the nodes. It threads one counter through the whole walk and returns the first number it did not use. The application then numbers its three example trees from the default start, 0.

This project models that walk in Dafny and proves what it does.

- `tree_ids.dfy` (module `TreeIds`) holds the model.
  - A node is a `class Node`. Its `name`, `info` and `children` are constants; its `id` is the one mutable field.
  - `id` is `None` until the walk reaches the node, because a fresh node has no `id` key.
  - A ghost `repr` holds the node's subtree, and `Valid()` says the subtree really is a tree: no cycles and no shared nodes.
  - `AssignIds` is the recursive method, with a `for` loop over the children. It `modifies` only the subtree.
  - It is specified against the ghost pre-order listing `PreOrder()`. Its postcondition `NumberedFrom(start)` says the node at pre-order index `i` holds `start + i`.
  - Lemmas derive what the walk promises from that: ids distinct and without gaps, ancestors before descendants, siblings left to right, and re-numbering only shifts ids.
- `samples.dfy` (module `Samples`) builds the three example trees node by node, with their labels and file records. It numbers each from the default start and states the id every folder ends up with. It also numbers a single childless node.

Naming: the source's `label` key is `name` here, because `label` is a Dafny keyword. The `info` records are `InfoEntry(name, destination)`. The default argument `next_id=0` is the default value `TreeIds.DefaultStartId` of `AssignIds`'s `start` parameter, so `root.AssignIds()` numbers from 0. `TreeIds.DistinctListingSize` is a general helper about duplicate-free listings behind `PreOrderSize`.

## Model

| member | source | states |
|---|---|---|
| TreeIds.Node.constructor | app.py:21-49 | A node literal built from its label, info records and already built child trees is a valid tree. Its subtree is the node plus its children's subtrees, and it holds no id yet. |
| TreeIds.Node.AssignIds | app.py:6-14 | Numbering from `start` writes `start` into the node. Every node of the subtree ends up holding `start` plus its pre-order index. The result is `start` plus the number of nodes. Only nodes of the subtree are written. |
| TreeIds.Node.PreOrderSize | app.py:11-14 | The pre-order walk visits as many nodes as the subtree has, so the counter advances by exactly the subtree's size. |
| TreeIds.Node.PreOrderCovers | app.py:12-13 | Following `children` recursively reaches every node of the subtree. |
| TreeIds.Node.PreOrderDistinct | app.py:12-13 | The walk visits no node twice. |
| TreeIds.Node.NumberedIdsInRange | app.py:10-14 | After numbering from `start`, every node of the subtree holds an id from `start` up to, not including, the returned value. |
| TreeIds.Node.NumberedIdsDistinct | app.py:10-13 | After numbering, two nodes of the subtree never share an id: ids are unique. |
| TreeIds.Node.NumberedIdsCover | app.py:10-14 | After numbering from `start`, every value from `start` up to the returned value is some node's id: there are no gaps. |
| TreeIds.Node.NumberedRoot | app.py:10-11 | In a numbering from `start` the node holds `start`, and its children's subtrees are numbered from `start + 1` on. |
| TreeIds.Node.ChildNumbered | app.py:12-13 | Child `k` is numbered from the value left by the node and its earlier siblings' subtrees. |
| TreeIds.Node.SubtreesNumbered | app.py:12-13 | Every node of a numbered tree roots a subtree numbered from its own id, as the recursive call numbers it. |
| TreeIds.Node.RootFirst | app.py:10-13 | Within a numbered subtree, the root's id is smaller than every other node's id. |
| TreeIds.Node.AncestorsFirst | app.py:10-13 | Every node's id is smaller than the id of each of its descendants. |
| TreeIds.Node.TwoChildrenInOrder | app.py:12-13 | Every id in an earlier child's subtree is smaller than every id in a later child's subtree. |
| TreeIds.Node.ChildrenInOrder | app.py:12-13 | The same holds for all pairs of children of one node. |
| TreeIds.Node.SiblingsInOrder | app.py:12-13 | At every node of a numbered tree, siblings' subtrees are numbered left to right. |
| TreeIds.Node.Position | app.py:12-13 | Each node of the subtree has a pre-order index. The index depends only on the tree's shape. |
| TreeIds.Node.IdsArePositions | app.py:10-14 | In any numbering from `start`, each node holds `start` plus its pre-order index and nothing else. The ids depend only on the shape and the start. |
| TreeIds.Node.Renumber | app.py:6-14 | Numbering again, from `to`, a tree numbered from `from` moves each id from `from + index` to `to + index`. With the same start the ids are unchanged; with another start they all shift by the difference. |
| Samples.NumberLeaf | app.py:10-14 | A node without children, numbered from `start`, gets `start` and returns `start + 1`. |
| Samples.BuildTree1 | app.py:21-49 | The first example tree: "Root" over "Folder 1" (over "Subfolder 1-1") and "Folder 2", with their file records and no ids yet. |
| Samples.NumberTree1 | app.py:21-50 | Numbering the first tree from the default start gives Root 0, "Folder 1" 1, "Subfolder 1-1" 2 and "Folder 2" 3, and returns 4. |
| Samples.BuildTree2 | app.py:53-80 | The second example tree: "Home" over "Documents" (over "Work") and "Pictures", with their file records. |
| Samples.NumberTree2 | app.py:53-81 | Numbering the second tree gives Home 0, Documents 1, Work 2 and Pictures 3, and returns 4. |
| Samples.BuildTree3 | app.py:84-104 | The third example tree: "Media" over "Music" and "Videos", with their file records. |
| Samples.NumberTree3 | app.py:84-105 | Numbering the third tree gives Media 0, Music 1 and Videos 2, and returns 3. |
| Samples.ThreeLevels | app.py:21-49 | The pre-order listing of the first two example shapes is parent, first child, grandchild, second child. |
| Samples.TwoLeaves | app.py:84-104 | The pre-order listing of the third example shape is parent, first child, second child. |

## Left out

- The web application is not modelled: `Flask(__name__)`, the `/` route, `render_template` and `app.run` (app.py:1-4, 114-119). It is framework I/O.
- The unused `json` import (app.py:2) and the `index.html` template are not modelled; the template is not part of this model.
- The `trees` dictionary (app.py:108-112) is not modelled. It only gathers the three numbered trees under display names.
- Dynamic typing is not modelled. A node always has a (possibly empty) sequence of children, which is what `node.get('children', [])` gives for a missing key. A `children` value that is not a list, or a node that is not a dict, cannot be expressed.
- Shared or cyclic node structures are excluded by `Valid()`. On such inputs the source would number a shared node twice, or, on a cycle, raise `RecursionError`. The example trees are literals and never share nodes.
- `name`, `info` and `children` are constants in the model. The walk writes only `id`, so the model states "nothing else changes" through its types; the source does not enforce that.
- The model has no recursion-depth limit: `AssignIds` numbers trees of any depth, while the source recurses once per level (app.py:13) and raises `RecursionError` on trees deeper than the interpreter's recursion limit (about 1000 levels by default).
- Python integers are unbounded, like Dafny's `int`, so the counter has no wrap-around to model.
