# Unbalanced binary search tree, modelled in Dafny

This project models the tree at the heart of a word-tracking tool: a generic,
unbalanced binary search tree. It has two implementations, `BSTree` and
`BSTreeADT`. `BSTree` holds `implementations.BSTreeNode` cells and builds
its traversals into a `BSTreeIterator` snapshot buffer. `BSTreeADT` lives in
package `utilities`, so its unqualified `BSTreeNode` is a
`utilities.BSTreeNode`; that class is not part of this model. The model gives
both classes the same `Trees.Tree` cells.

The model is functional. A cell chain is the inductive datatype
`Trees.Tree = Leaf | Node(left, element, right)`, where `Leaf` is a null
link. Both tree classes keep the same record, `Trees.TreeState(root, size)`.
Each Java method that mutates the tree becomes a function. It takes the old
state and returns the new state together with the Java return value.

Elements are `int`: integer `<` plays the part of `compareTo`, and it agrees
with equality. A `null` argument is `Results.Option.None`. `add`, `contains`
and `search` refuse it with `Err(NullArgument)`. An error result carries no
new state, so the caller keeps the tree it had: the check happens before any
change. `getRoot` on an empty tree gives `Err(EmptyTree)`. `next()` on an
exhausted iterator gives `Err(IndexOutOfBounds)`, the list read past its end.

Every property is stated against definitions that do not repeat the code:
- the element set `Trees.Elems`;
- the cell count `Trees.Count`;
- the ordering predicate `Trees.BST`;
- the tree invariant `Trees.Valid` (ordered, and `size` equals the number of cells);
- the reference traversals `Trees.InOrder`, `Trees.PreOrder` and `Trees.PostOrder`.

Modules follow the source files:
- `Trees` holds the shared shape;
- `TreeNode` models `BSTreeNode.java`;
- `SnapshotIterator` models `BSTreeIterator.java`;
- `BSTree` models `BSTree.java`;
- `BSTreeADT` models `utilities/BSTreeADT.java`;
- `TreeProperties` holds the lemmas that relate several operations, or the two implementations.

The two classes disagree on the height of an empty tree. `BSTree` says 0
(`BSTree.java:209`) and `BSTreeADT` says −1 (`BSTreeADT.java:29`). Both are
kept as separate functions, `BSTree.GetHeightRecursive` and
`BSTreeADT.CalculateHeight`, and `BSTreeADT.HeightConventionsDifferByOne`
proves that they differ by exactly one on every tree.

`TreeProperties.RebuildFromInOrder` covers rebuilding a tree by inserting its
in-order sequence. The rebuilt tree has the same in-order sequence. It is the
fully degenerate chain, so its height is the size, which is never less than
the original height.

## Model

| member | source | states |
|---|---|---|
| Trees.InOrder | src/implementations/BSTree.java:124-131 | the in-order sequence has one entry per cell and holds exactly the stored elements |
| Trees.PreOrder | src/implementations/BSTree.java:138-146 | the pre-order sequence has one entry per cell and holds exactly the stored elements |
| Trees.PostOrder | src/implementations/BSTree.java:153-162 | the post-order sequence has one entry per cell and holds exactly the stored elements |
| Trees.Min | src/utilities/BSTreeADT.java:116-121 | the leftmost element is stored in the tree and, in an ordered tree, is no greater than any stored element |
| Trees.Max | src/utilities/BSTreeADT.java:134-139 | the rightmost element is stored in the tree and, in an ordered tree, is no less than any stored element |
| Trees.CountIsCardinality | src/implementations/BSTree.java:104-106 | in an ordered tree the number of cells equals the number of distinct elements, so `size` counts elements |
| Trees.InOrderAscending | src/implementations/BSTree.java:119-131 | the in-order sequence of an ordered tree is strictly ascending, so no element appears twice |
| Trees.TraversalsArePermutations | src/implementations/BSTree.java:133-162 | the pre-order and post-order sequences are permutations of the in-order sequence |
| TreeNode.NewNode | src/implementations/BSTreeNode.java:32-34 | a new cell holds the given element, has no children, and is an ordered one-element tree |
| TreeNode.GetElement | src/implementations/BSTreeNode.java:8-10 | returns the stored element: setting it back leaves the cell unchanged; it belongs to the cell's subtree and, if ordered, separates its left and right elements |
| TreeNode.SetElement | src/implementations/BSTreeNode.java:12-14 | only the element changes; both child links are kept |
| TreeNode.GetLeft | src/implementations/BSTreeNode.java:16-18 | returns the stored left link: the cell is exactly its element between this link and its right link; it is a smaller subtree, and in an ordered cell it is ordered with all its elements below the cell's |
| TreeNode.SetLeft | src/implementations/BSTreeNode.java:20-22 | only the left link changes; hanging an ordered subtree of smaller elements keeps the cell ordered |
| TreeNode.GetRight | src/implementations/BSTreeNode.java:24-26 | returns the stored right link: the cell is exactly its left link and element followed by this link; it is a smaller subtree, and in an ordered cell it is ordered with all its elements above the cell's |
| TreeNode.SetRight | src/implementations/BSTreeNode.java:28-30 | only the right link changes; hanging an ordered subtree of larger elements keeps the cell ordered |
| TreeNode.GetterSetterRoundTrips | src/implementations/BSTreeNode.java:8-30 | each getter reads back what its setter stored, and storing what a getter read leaves the cell unchanged |
| SnapshotIterator.New | src/implementations/BSTreeIterator.java:14-18 | a fresh buffer is empty, its cursor is 0, and it has no next element |
| SnapshotIterator.AddElement | src/implementations/BSTreeIterator.java:20-23 | the element is appended at the end, the counter grows by one, the cursor stays, and `size == length` is kept |
| SnapshotIterator.HasNext | src/implementations/BSTreeIterator.java:25-28 | on a consistent buffer, true exactly when the cursor is less than the buffer's length, i.e. some element is still unread |
| SnapshotIterator.Next | src/implementations/BSTreeIterator.java:30-35 | succeeds exactly when there is a next element, returns the element under the cursor and advances the cursor by one; otherwise fails with the cursor unmoved |
| SnapshotIterator.Drain | src/implementations/BSTreeIterator.java:20-35 | reading until `hasNext` is false yields the unread elements in the order they were added, and leaves the cursor at `size` |
| BSTree.New | src/implementations/BSTree.java:19-22 | a new tree is valid and empty |
| BSTree.AddRecursive | src/implementations/BSTree.java:36-55 | the element set becomes old ∪ {x}; a cell is counted exactly when one is created; on an ordered tree a cell is created iff x was absent; a refused insert leaves the subtree unchanged; the visited cell keeps its element and the subtree on the side not descended into; ordering is kept; `TreeProperties.AddThenRemoveNode` pins the new cell as a leaf |
| BSTree.Add | src/implementations/BSTree.java:24-34 | null is refused; otherwise the element set becomes old ∪ {e}, `size` grows by one exactly when true is returned, true is returned iff e was absent, a duplicate leaves the tree unchanged, and validity is kept |
| BSTree.ContainsRecursive | src/implementations/BSTree.java:64-76 | never reports an absent element; in an ordered tree, true iff the element is stored |
| BSTree.Contains | src/implementations/BSTree.java:57-62 | null is refused; otherwise, in an ordered tree, true iff the element is stored |
| BSTree.SearchRecursive | src/implementations/BSTree.java:85-97 | a returned cell holds the element and is a subtree of the searched tree; in an ordered tree one is found iff the element is stored |
| BSTree.Search | src/implementations/BSTree.java:78-83 | null is refused; otherwise the returned cell holds the element and is a subtree of the tree, and in an ordered tree one is returned iff the element is stored |
| BSTree.SearchAgreesWithContains | src/implementations/BSTree.java:57-97 | `search` returns a cell exactly when `contains` returns true, on every tree |
| BSTree.Clear | src/implementations/BSTree.java:99-102 | afterwards the tree is valid and empty, and `getRoot` fails |
| BSTree.Size | src/implementations/BSTree.java:104-106 | on a valid tree, the number of distinct stored elements |
| BSTree.IsEmpty | src/implementations/BSTree.java:108-110 | on a valid tree, true iff no element is stored, and iff there is no root |
| BSTree.GetRoot | src/implementations/BSTree.java:112-117 | fails with EmptyTree iff there is no root, otherwise returns the root; on a valid tree it fails iff `size` is 0 |
| BSTree.InOrderIteratorRecursive | src/implementations/BSTree.java:124-131 | appends exactly the subtree's in-order sequence to the buffer and counts it |
| BSTree.PreOrderIteratorRecursive | src/implementations/BSTree.java:138-146 | appends exactly the subtree's pre-order sequence to the buffer and counts it |
| BSTree.PostOrderIteratorRecursive | src/implementations/BSTree.java:153-162 | appends exactly the subtree's post-order sequence to the buffer and counts it |
| BSTree.InorderIterator | src/implementations/BSTree.java:119-122 | a fresh snapshot of the in-order sequence: exactly the stored elements, `size` of them on a valid tree, strictly ascending on an ordered tree |
| BSTree.PreorderIterator | src/implementations/BSTree.java:133-136 | a fresh snapshot equal to the pre-order sequence, so it starts with the root's element and is a permutation of the in-order snapshot |
| BSTree.PostorderIterator | src/implementations/BSTree.java:148-151 | a fresh snapshot equal to the post-order sequence, so it ends with the root's element and is a permutation of the in-order snapshot |
| BSTree.DetachMin | src/implementations/BSTree.java:169-179 | the leftmost cell is spliced out: a cell with no left child is replaced by its right child, and otherwise the cell keeps its element and right subtree while the removal continues on the left; one cell fewer, the removed element is the leftmost one, and in an ordered tree exactly that least element is removed and ordering is kept |
| BSTree.DetachMinInOrder | src/implementations/BSTree.java:169-179 | on every tree the removed element is the first in order and the remaining elements keep their in-order sequence |
| BSTree.DetachMax | src/implementations/BSTree.java:188-198 | the rightmost cell is spliced out: a cell with no right child is replaced by its left child, and otherwise the cell keeps its element and left subtree while the removal continues on the right; one cell fewer, the removed element is the rightmost one, and in an ordered tree exactly that greatest element is removed and ordering is kept |
| BSTree.DetachMaxInOrder | src/implementations/BSTree.java:188-198 | on every tree the removed element is the last in order and the remaining elements keep their in-order sequence |
| BSTree.RemoveMin | src/implementations/BSTree.java:165-182 | empty tree: returns nothing and changes nothing; otherwise returns the least element, removes exactly it, decrements `size`, keeps validity |
| BSTree.RemoveMax | src/implementations/BSTree.java:184-201 | empty tree: returns nothing and changes nothing; otherwise returns the greatest element, removes exactly it, decrements `size`, keeps validity |
| BSTree.GetHeightRecursive | src/implementations/BSTree.java:207-212 | 0 exactly for the empty link; otherwise one more than the larger of the children's heights (above both, equal to one plus one of them); never more than the number of cells |
| BSTree.GetHeight | src/implementations/BSTree.java:203-205 | 0 exactly for an empty tree; otherwise one more than the larger of the root's subtree heights; at most `size` on a valid tree |
| BSTreeADT.New | src/utilities/BSTreeADT.java:11-14 | a new tree is valid and empty |
| BSTreeADT.GetRoot | src/utilities/BSTreeADT.java:16-21 | fails with EmptyTree iff there is no root, otherwise returns the root; on a valid tree it fails iff `size` is 0 |
| BSTreeADT.CalculateHeight | src/utilities/BSTreeADT.java:27-32 | −1 exactly for the empty link; otherwise one more than the larger of the children's heights (above both, equal to one plus one of them); always less than the number of cells |
| BSTreeADT.GetHeight | src/utilities/BSTreeADT.java:23-25 | −1 exactly for an empty tree; otherwise one more than the larger of the root's subtree heights; less than `size` on a valid tree |
| BSTreeADT.HeightConventionsDifferByOne | src/utilities/BSTreeADT.java:27-32 | on every tree, this height is the `BSTree` height minus one |
| BSTreeADT.Size | src/utilities/BSTreeADT.java:34-36 | on a valid tree, the number of distinct stored elements |
| BSTreeADT.IsEmpty | src/utilities/BSTreeADT.java:38-40 | on a valid tree, true iff no element is stored |
| BSTreeADT.Clear | src/utilities/BSTreeADT.java:42-45 | afterwards the tree is valid and empty, and `getRoot` fails |
| BSTreeADT.SearchNode | src/utilities/BSTreeADT.java:61-70 | a returned cell holds the element and is a subtree of the searched tree; in an ordered tree one is returned iff the element is stored |
| BSTreeADT.Search | src/utilities/BSTreeADT.java:54-59 | null is refused; otherwise the returned cell holds the element and is a subtree of the tree, and in an ordered tree one is returned iff it is stored |
| BSTreeADT.Contains | src/utilities/BSTreeADT.java:47-52 | null is refused; otherwise true exactly when `search` finds a cell, which in an ordered tree means the element is stored |
| BSTreeADT.SearchNodeAgrees | src/utilities/BSTreeADT.java:61-70 | this search walk returns the same cell as `BSTree`'s on every tree |
| BSTreeADT.AddNode | src/utilities/BSTreeADT.java:88-103 | the element set becomes old ∪ {x}; a cell is counted exactly when one is created; on an ordered tree a cell is created iff x was absent; a duplicate leaves the subtree unchanged; the visited cell keeps its element and the subtree on the side not descended into; ordering is kept |
| BSTreeADT.Add | src/utilities/BSTreeADT.java:72-86 | null is refused; `size` grows only when a cell was inserted, true iff the element was absent, a duplicate changes nothing, validity is kept |
| BSTreeADT.AddNodeAgrees | src/utilities/BSTreeADT.java:88-103 | this insertion walk builds the same tree and gives the same answer as `BSTree`'s |
| BSTreeADT.FindMinNode | src/utilities/BSTreeADT.java:116-121 | the leftward loop ends on the leftmost element, which in an ordered tree is the least |
| BSTreeADT.FindMaxNode | src/utilities/BSTreeADT.java:134-139 | the rightward loop ends on the rightmost element, which in an ordered tree is the greatest |
| BSTreeADT.RemoveNode | src/utilities/BSTreeADT.java:141-160 | an absent key leaves the tree unchanged; while descending, the visited cell keeps its element and the subtree on the other side; in an ordered tree the element set becomes old − {x}, one cell goes exactly when x was stored, and ordering is kept; `TreeProperties.RemoveNodeUsesSuccessor` pins down the two-children case |
| BSTreeADT.RemoveMin | src/utilities/BSTreeADT.java:105-114 | empty tree: returns nothing and changes nothing; otherwise returns the least element, removes exactly it, decrements `size`, keeps validity |
| BSTreeADT.RemoveMax | src/utilities/BSTreeADT.java:123-132 | empty tree: returns nothing and changes nothing; otherwise returns the greatest element, removes exactly it, decrements `size`, keeps validity |
| BSTreeADT.InorderTraversal | src/utilities/BSTreeADT.java:168-174 | appends exactly the subtree's in-order sequence to the list |
| BSTreeADT.PreorderTraversal | src/utilities/BSTreeADT.java:182-188 | appends exactly the subtree's pre-order sequence to the list |
| BSTreeADT.PostorderTraversal | src/utilities/BSTreeADT.java:196-202 | appends exactly the subtree's post-order sequence to the list |
| BSTreeADT.InorderIterator | src/utilities/BSTreeADT.java:162-166 | the in-order sequence: exactly the stored elements, `size` of them on a valid tree, strictly ascending on an ordered tree |
| BSTreeADT.PreorderIterator | src/utilities/BSTreeADT.java:176-180 | equals the pre-order sequence, so it starts with the root's element and is a permutation of the in-order list |
| BSTreeADT.PostorderIterator | src/utilities/BSTreeADT.java:190-194 | equals the post-order sequence, so it ends with the root's element and is a permutation of the in-order list |
| TreeProperties.AddAll | src/implementations/BSTree.java:24-55 | repeated `add` stores the old elements plus the added ones, and keeps validity |
| TreeProperties.InsertingBuildsTheSet | src/implementations/BSTree.java:24-76 | after adding a sequence to an empty tree: it is valid, holds exactly those elements, `size` is the number of distinct ones, and `contains` is true for each |
| TreeProperties.DrainMinIsInOrder | src/implementations/BSTree.java:165-182 | calling `removeMin` until it returns nothing hands out the in-order sequence, on every tree |
| TreeProperties.DrainMaxIsReverseInOrder | src/implementations/BSTree.java:184-201 | calling `removeMax` until it returns nothing hands out the in-order sequence backwards |
| TreeProperties.DrainMinAscending | src/implementations/BSTree.java:165-182 | on a valid tree, repeated `removeMin` yields exactly `size` elements, strictly ascending, every stored element once |
| TreeProperties.DrainMaxDescending | src/implementations/BSTree.java:184-201 | on a valid tree, repeated `removeMax` yields exactly `size` elements, strictly descending |
| TreeProperties.AddThenRemoveNode | src/implementations/BSTree.java:36-55 | adding an absent element to an ordered tree hangs it as a new leaf, and deleting it again by key (`BSTreeADT.removeNode`) gives back exactly the old tree, so no old cell moves |
| TreeProperties.RemoveNodeUsesSuccessor | src/utilities/BSTreeADT.java:150-157 | deleting the element of an ordered cell with two children keeps the left subtree, puts the least element of the right subtree in the cell, and splices that element out of the right subtree |
| TreeProperties.RemoveExtremesAgree | src/utilities/BSTreeADT.java:105-160 | on an ordered tree, delete-by-key of the minimum (maximum) gives the same tree and element as `BSTree`'s parent splice |
| TreeProperties.SortedInsertionHeight | src/implementations/BSTree.java:203-212 | inserting k strictly increasing elements gives height k under the 0 convention and k−1 under the −1 convention |
| TreeProperties.RebuildFromInOrder | src/implementations/BSTree.java:119-131 | re-inserting a valid tree's in-order sequence gives the same in-order sequence; the rebuilt height equals `size`, which is at least the original height |

## Left out

- `src/appDomain/AppDriver.java`: file scanning, tokenising, the metadata map, report printing, object-stream persistence and argument handling are I/O around the tree. Only its pattern of repeated `add` and of draining an iterator appears, as `TreeProperties.AddAll` and `SnapshotIterator.Drain`.
- `Serializable` and `serialVersionUID` in `BSTree.java:13-14`: JVM persistence with no behaviour to state.
- Node identity and aliasing. `removeMin`/`removeMax` return the removed cell object, which still carries a stale child link. The model returns the removed element as an `Option`. `search` returns the matching subtree as a value, proved to be a subtree of the searched tree (`Trees.Subtree`) but not the same object.
- Element genericity: elements are `int`, whose `<` stands for `compareTo` and agrees with `equals`. So the `equals` test in `BSTreeADT.searchNode` and its `compareTo` tests agree.
- `BSTreeADT.java` declares that the class implements itself (`BSTreeADT.java:6`), which a Java compiler rejects; that declaration is not modelled. Its cells are `utilities.BSTreeNode` objects, a class that is not part of this model. The model runs its algorithm on the same `Trees.Tree` cells as `BSTree`, reading that class's `getData`/`setData` as `getElement`/`setElement`.
- The iterators of `BSTreeADT.java:162-166`, `176-180` and `190-194` cast a `java.util.Iterator` to the project's own `Iterator` interface. That interface is not part of this model. An interface-to-interface cast compiles, but it would fail at run time with a `ClassCastException` on every call. The model returns the filled list where the source would throw.
- Exception classes become `Results.Error` values. A `NullPointerException` for a null argument is `NullArgument`; the one `getRoot` throws on an empty tree is `EmptyTree`. The `IndexOutOfBoundsException` that `elements.get` throws in `next()` is `IndexOutOfBounds`. `next()` declares `NoSuchElementException` but never throws it.
- The Java `int` fields `size` and `currentIndex` are unbounded integers here. Wrap-around after 2^31 insertions is not modelled.
- Recursion depth and stack overflow on degenerate trees.
- SnapshotIterator.Drain: requires a consistent buffer (`size` equal to the list length, cursor within it). In Java all three fields are private and only `addElement` changes `size` and the list, always together, so every buffer Java can build is consistent; `New` and `AddElement` keep the requirement. The `Iterator` datatype itself can hold inconsistent values, which Java cannot produce.
- BSTree.Contains, BSTree.Search, BSTreeADT.Contains and BSTreeADT.Search: the "iff stored" direction is stated for ordered trees only. On an unordered cell chain the compare-and-descend walk can miss a stored element, and the source promises nothing there.
