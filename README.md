# SimpleBST in Dafny

This project models `SimpleBST`, an unbalanced binary search tree that
implements a key-value map. Entries live in `BSTNode` objects (a key, a value,
a left and a right link). The tree object holds four fields: the `root` link,
a `size` counter, the comparator, and `cachedValue`, which the recursive
helpers use to hand the old value of a key back to the public methods.

The model has three modules:

- `TreeSpec` (`tree_spec.dfy`) is the tree as an immutable value `Tree<V>`.
  It defines the two node-returning recursions of the source as pure
  functions: `Put` is `set(node, key, value)` and `Delete` is
  `remove(node, key)`. Each returns the rebuilt subtree together with the
  value left in `cachedValue`. `Graft` is the splice of the two-child case,
  and `Unlink` says what replaces a removed node. The module also gives the
  pre-order sequence that `forEach` hands to its action and the lines that
  `dump` prints. It defines the views the properties are stated in: entry
  map, key set, in-order key sequence and `Skeleton` (the links without the
  values).
- `TreeLemmas` (`tree_lemmas.dfy`) proves what the map promises about these
  functions: the ordering invariant is kept, get-after-set, get-after-remove,
  the entry map after each operation, the splice, the visit order, and the
  format of the dump.
- `SimpleBstHeap` (`simple_bst.dfy`) is the program itself, on the heap:
  - a class `Node` with the four mutable fields;
  - a class `SimpleBST` with `root`, `size` and `cachedValue`, whose recursive
    methods rewrite child links in place, as the Java code does;
  - the two-child removal, which walks right links with a `while` loop and
    assigns one `right` field.

  Each heap subtree comes with two ghost companions: its `Shape`, which is the
  tree of node references, and the `Tree` value the nodes hold. `Holds`
  relates a link to both of them. Each method is proved against the pure
  function of the same operation. The tree object keeps the invariant
  `Valid()`:
  - the nodes are owned exclusively, one per parent slot;
  - the links hold the ghost `model`;
  - `model` is ordered by key;
  - `size` equals the number of nodes plus the number of successful removals.

Keys are integers, and the comparator is the integer order: "compares less",
"equal" and "greater" become `<`, `==` and `>`. Java's `null`, as a previous
value or as a key, is `None` of `Option`. The exceptions thrown by `get` are
the `Err` cases of a `Result`. The key and value `toString` methods used by
`dump` are function parameters, and a printed line is the string handed to
`println`.

Three behaviours of the code differ from what a user of a map might expect.
The model follows the code in each:
- `remove` never decrements `size` (lines 147-186). The invariant therefore
  counts removals rather than claiming that `size` is the entry count.
- `dump` of a node with no children prints only the node's own line, and no
  `<>` lines for its empty children (line 261).
- `forEach` visits in pre-order (lines 317-327), not in key order.

## Model

| member | source | states |
|---|---|---|
| TreeSpec.Find | src/SimpleBST.java:272-284 | the descent of get yields a value only for a key that occurs in the tree |
| TreeSpec.Put | src/SimpleBST.java:104-124 | set(node, key, value) reports the previous value of key (None if absent), adds key to the key set, adds a node exactly when the key was missing, and keeps every key and link when the key was present |
| TreeSpec.Graft | src/SimpleBST.java:170-175 | the splice keeps all keys of both subtrees and all their nodes |
| TreeSpec.Unlink | src/SimpleBST.java:159-176 | what replaces a matching node holds exactly the keys and nodes of its two subtrees |
| TreeSpec.Delete | src/SimpleBST.java:152-186 | remove(node, key) reports the value of key (None if absent), leaves a tree without the key unchanged, never adds keys, and loses exactly one node when the key was present |
| TreeSpec.PreOrder | src/SimpleBST.java:317-327 | forEach makes one call per node |
| TreeSpec.DumpLines | src/SimpleBST.java:256-266 | dump starts with a line at the given indentation, which is the `<>` marker exactly for an empty subtree |
| TreeLemmas.BstIffAscending | src/SimpleBST.java:104-124 | the ordering invariant holds exactly when the in-order key sequence is strictly ascending |
| TreeLemmas.FindMatchesEntries | src/SimpleBST.java:272-284 | in an ordered tree, get's descent finds a key if and only if it is in the entry map, and then yields the mapped value |
| TreeLemmas.SizeIsKeyCount | src/SimpleBST.java:104-109 | in an ordered tree the node count is the number of distinct keys |
| TreeLemmas.PutKeepsBst | src/SimpleBST.java:104-124 | set keeps the ordering invariant, and the entry map becomes the old one with key mapped to value |
| TreeLemmas.GetAfterSet | src/SimpleBST.java:100-132 | after set(key, value), get(key) yields value and every other key yields what it did before |
| TreeLemmas.PutFreshThenDelete | src/SimpleBST.java:104-109 | removing a key just inserted into a tree without it restores the tree exactly and reports the inserted value |
| TreeLemmas.RightmostIsMax | src/SimpleBST.java:170-173 | the node reached by following right links holds the largest key of an ordered subtree |
| TreeLemmas.GraftUnderPredecessor | src/SimpleBST.java:170-174 | the splice target (the largest key of the left subtree) had no right child, and after the splice it is the same node with the right subtree as its right child |
| TreeLemmas.GraftKeepsOrder | src/SimpleBST.java:170-175 | the splice keeps the in-order sequence: left keys, then right keys |
| TreeLemmas.UnlinkKeepsOrder | src/SimpleBST.java:159-176 | every matching-node case keeps the in-order sequence of the two subtrees |
| TreeLemmas.GraftKeepsBst | src/SimpleBST.java:170-175 | splicing a right subtree whose keys all exceed the left subtree's keeps the ordering invariant |
| TreeLemmas.GraftEntries | src/SimpleBST.java:170-175 | the splice holds exactly the entries of both subtrees |
| TreeLemmas.UnlinkKeepsBst | src/SimpleBST.java:159-176 | the replacement of a removed node is ordered and holds exactly the entries of both its subtrees |
| TreeLemmas.DeleteKeepsBst | src/SimpleBST.java:152-186 | remove keeps the ordering invariant |
| TreeLemmas.DeleteEntries | src/SimpleBST.java:152-186 | remove leaves the old entry map minus key |
| TreeLemmas.DeleteKeepsOrder | src/SimpleBST.java:152-186 | remove leaves the old in-order key sequence with key taken out |
| TreeLemmas.GetAfterRemove | src/SimpleBST.java:147-150 | after remove(key), get(key) fails and every other key yields what it did before |
| TreeLemmas.PreOrderPermutesInOrder | src/SimpleBST.java:317-327 | the keys forEach visits are a permutation of the in-order key sequence |
| TreeLemmas.PreOrderEntries | src/SimpleBST.java:317-327 | every (key, value) pair forEach passes is an entry of the map |
| TreeLemmas.PreOrderVisitsEachEntryOnce | src/SimpleBST.java:317-327 | in an ordered tree forEach passes every key exactly once, each with its mapped value |
| TreeLemmas.DumpShowsPreOrder | src/SimpleBST.java:256-266 | the entries dump prints, read top to bottom, are the pre-order sequence |
| TreeLemmas.DumpIndentation | src/SimpleBST.java:256-266 | every line is indented by the starting indentation plus a whole number of two-space steps, and every line after the first is indented further than the first |
| TreeLemmas.DumpMarkers | src/SimpleBST.java:257-264 | dump prints one `<>` for an empty tree, otherwise one per node with exactly one child; the line count is the node count plus the markers |
| TreeLemmas.RenderedNode | src/SimpleBST.java:256-266 | the text for a node is its own "key: value" line followed, if it has a child, by the text of both children two spaces further in |
| TreeLemmas.DumpSmallTrees | src/SimpleBST.java:244-266 | an empty tree dumps as the single line `<>`; a lone node dumps as its own line only |
| TreeLemmas.ReplayFind | src/SimpleBST.java:100-124 | after any sequence of set calls the tree is ordered, and get(k) yields the value of the last call for k, or what it yielded before if no call named k |
| TreeLemmas.ReplaySize | src/SimpleBST.java:104-109 | starting from an empty tree, the keys are the distinct keys set, and the node count is their number |
| TreeLemmas.InsertExample | src/SimpleBST.java:100-124 | setting 5, 3, 8, 1, 4, 7, 9 in turn builds the complete tree of depth three rooted at 5 |
| TreeLemmas.TwoChildRemoveExample | src/SimpleBST.java:152-186 | removing the root 5 of the tree built from 5, 3, 8, 1, 4 hangs 8 under 4 and reports 5 |
| SimpleBstHeap.Node.constructor | src/SimpleBST.java:108 | a new node holds the key and value and has no children |
| SimpleBstHeap.Splice | src/SimpleBST.java:174 | assigning the right link of the last node on the left subtree's right spine yields links that hold Graft of the two subtrees |
| SimpleBstHeap.ObjsCount | src/SimpleBST.java:19 | with exclusive ownership, the nodes reachable from a link number as many as the cells of its shape |
| SimpleBstHeap.CellsCount | src/SimpleBST.java:19 | the shape behind a link has one cell per node of the value it holds |
| SimpleBstHeap.SimpleBST.constructor | src/SimpleBST.java:43-48 | a new tree is empty: null root, size 0, no cached value, and the invariant holds |
| SimpleBstHeap.SimpleBST.SizeCountsNodes | src/SimpleBST.java:29 | size minus the number of successful removals is the number of nodes in the tree |
| SimpleBstHeap.SimpleBST.SetFrom | src/SimpleBST.java:104-124 | the returned link holds Put of the old subtree, and cachedValue is the previous value; size grows by one exactly for a new key; a new key adds only fresh nodes; a present key keeps every node in its place |
| SimpleBstHeap.SimpleBST.Set | src/SimpleBST.java:100-102 | keeps the invariant, the map becomes Put of the old one, returns the previous value and leaves it in cachedValue; every old node stays and only fresh nodes are added; a present key keeps the shape |
| SimpleBstHeap.SimpleBST.GetFrom | src/SimpleBST.java:272-284 | yields a value exactly when the descent finds the key, namely the value found; otherwise IndexOutOfBounds for that key |
| SimpleBstHeap.SimpleBST.Get | src/SimpleBST.java:127-132 | a null key fails with NullPointer; otherwise the result is the entry map's value for a present key, and IndexOutOfBounds for a missing one |
| SimpleBstHeap.SimpleBST.RemoveFrom | src/SimpleBST.java:152-186 | the returned link holds Delete of the old subtree, cachedValue is the removed value (None if absent), no node is added, and an absent key leaves every node in place |
| SimpleBstHeap.SimpleBST.Unhook | src/SimpleBST.java:159-176 | the link replacing a matching node holds Unlink of its subtrees and no longer reaches the node |
| SimpleBstHeap.SimpleBST.HangRight | src/SimpleBST.java:170-175 | after the right-spine walk and the one assignment, the left child's links hold Graft of the two subtrees |
| SimpleBstHeap.SimpleBST.Remove | src/SimpleBST.java:147-150 | keeps the invariant, the map becomes Delete of the old one, returns the old value of key and leaves it in cachedValue, adds no node, keeps the shape for an absent key and leaves size as it was |
| SimpleBstHeap.SimpleBST.ForEachFrom | src/SimpleBST.java:317-327 | the calls made are the pre-order sequence of the subtree |
| SimpleBstHeap.SimpleBST.ForEach | src/SimpleBST.java:233-235 | the calls are the pre-order sequence; every key is passed exactly once, with its mapped value |
| SimpleBstHeap.SimpleBST.DumpFrom | src/SimpleBST.java:256-266 | the lines printed are the rendering of DumpLines of the subtree at the given indentation |
| SimpleBstHeap.SimpleBST.Dump | src/SimpleBST.java:244-246 | the lines printed are the rendering of DumpLines of the map at indentation "" |

## Left out

- The iterators `keys()`, `values()` and `nodes()` (lines 188-230, 286-315) are left out. `nodes().next()` is unfinished in the source and always returns null.
- `size()` and `containsKey()` (lines 134-144) are stubs that return 0 and false. They are left out.
- The comparator field and the default `toString` comparator (lines 24, 53-55) are left out. Keys are integers under their own order, and the ordering of `toString` text is foreign code.
- The commented-out iterative `set` (lines 64-99) is not code and is left out.
- Null keys in `set` and `remove` are left out, because the model's keys are plain integers. Neither method checks for null (lines 104-124, 147-186). On an empty tree, `set(null, v)` reaches the null link (lines 105-108) without a comparison: it stores a node with a null key and increments `size`. On a non-empty tree, and in `remove(null)` on a non-empty tree, the outcome depends on what the comparator does with null.
- Java `int` overflow of `size` is not modelled, because `size` is an unbounded integer. Overflow would need 2^31 insertions.
- Stored `null` values are left out. In Java, a stored null makes `set` and `remove` return null (lines 112, 157), so the caller cannot tell it from a missing key. The model always can: `Put` and `Delete` report `Some(v)` for every present key, and `None` only for a missing one.
- PrintWriter output is left out. `dump` returns the printed lines, and the `toString` of keys and values is supplied as functions.
- The action passed to `forEach` is modelled by the sequence of calls it receives. Side effects it may have on the tree are left out.
- SimpleBstHeap.SimpleBST.RemoveFrom: the write to `cachedValue` at every visited node (line 157) is made as in the source. The contract states only the final value, which comes from the last write: the one at the matching node, or the `null` of the empty slot.
- BSTNode.java and SimpleMap.java are not part of this model. `Node` has the four fields and the constructor implied by their uses in SimpleBST.java.
- The exception classes appear only as the two `Failure` cases. Exception messages are left out.
