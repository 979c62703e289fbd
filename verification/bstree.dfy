/** `BSTree`: the primary unbalanced binary search tree.

    Each mutating Java method becomes a function from the old `TreeState`
    to the new one (together with the Java return value). A `null` element
    is `None` and is refused with `NullArgument` before anything changes.
    Traversals build a `SnapshotIterator.Iterator` eagerly, as the Java
    recursion into a shared accumulator does.
 */
module BSTree {
  import opened Results
  import opened Trees
  import opened TreeNode
  import SnapshotIterator

  /** The constructor: no root and size zero. */
  function New(): (s: TreeState)
    ensures Valid(s) && Elems(s.root) == {} && s.size == 0
  {
    TreeState(Leaf, 0)
  }

  // ---------------------------------------------------------------- add

  /** `addRecursive`: descends from a non-empty cell and hangs a new cell on
      the first empty slot; an equal element on the path stops the descent.
      The flag reports whether a cell was created. */
  function AddRecursive(current: Tree, x: int): (r: (Tree, bool))
    requires current.Node?
    ensures Elems(r.0) == Elems(current) + {x}
    ensures Count(r.0) == Count(current) + (if r.1 then 1 else 0)
    ensures !r.1 ==> r.0 == current
    ensures r.0.Node? && r.0.element == current.element
    ensures x < current.element ==> r.0.right == current.right
    ensures x > current.element ==> r.0.left == current.left
    ensures BST(current) ==> BST(r.0)
    ensures BST(current) ==> (r.1 <==> x !in Elems(current))
  {
    if x == current.element then
      (current, false)
    else if x < current.element then
      if current.left.Leaf? then
        (SetLeft(current, NewNode(x)), true)
      else
        var (l, added) := AddRecursive(current.left, x);
        (SetLeft(current, l), added)
    else
      if current.right.Leaf? then
        (SetRight(current, NewNode(x)), true)
      else
        var (r, added) := AddRecursive(current.right, x);
        (SetRight(current, r), added)
  }

  /** `add`: refuses `null`; otherwise inserts the element when it is new,
      reporting whether it did, and counts the new cell. */
  function Add(s: TreeState, e: Option<int>): (r: Result<(TreeState, bool)>)
    ensures r.Err? <==> e.None?
    ensures r.Err? ==> r.error == NullArgument
    ensures r.Ok? ==> Elems(r.value.0.root) == Elems(s.root) + {e.value}
    ensures r.Ok? ==> r.value.0.size == s.size + (if r.value.1 then 1 else 0)
    ensures r.Ok? && !r.value.1 ==> r.value.0 == s
    ensures r.Ok? && Valid(s) ==> Valid(r.value.0)
    ensures r.Ok? && Valid(s) ==> (r.value.1 <==> e.value !in Elems(s.root))
  {
    match e
    case None => Err(NullArgument)
    case Some(x) =>
      if s.root.Leaf? then
        Ok((TreeState(NewNode(x), s.size + 1), true))
      else
        var (root, added) := AddRecursive(s.root, x);
        Ok((TreeState(root, if added then s.size + 1 else s.size), added))
  }

  // ------------------------------------------------------ contains/search

  /** `containsRecursive`: the compare-and-descend walk. It never reports an
      element that is not stored, and in an ordered tree it finds every
      element that is. */
  function ContainsRecursive(current: Tree, x: int): (b: bool)
    ensures b ==> x in Elems(current)
    ensures BST(current) ==> (b <==> x in Elems(current))
  {
    match current
    case Leaf => false
    case Node(l, v, r) =>
      if x == v then true
      else if x < v then ContainsRecursive(l, x)
      else ContainsRecursive(r, x)
  }

  /** `contains`: refuses `null`, otherwise answers membership. */
  function Contains(s: TreeState, e: Option<int>): (r: Result<bool>)
    ensures r.Err? <==> e.None?
    ensures r.Err? ==> r.error == NullArgument
    ensures r.Ok? && BST(s.root) ==> (r.value <==> e.value in Elems(s.root))
  {
    match e
    case None => Err(NullArgument)
    case Some(x) => Ok(ContainsRecursive(s.root, x))
  }

  /** `searchRecursive`: the same walk, returning the matching cell (with
      its subtree) or the empty link. */
  function SearchRecursive(current: Tree, x: int): (n: Tree)
    ensures n.Node? ==> n.element == x && Subtree(n, current)
    ensures Elems(n) <= Elems(current)
    ensures BST(current) ==> (n.Node? <==> x in Elems(current))
    ensures BST(current) ==> BST(n)
  {
    match current
    case Leaf => Leaf
    case Node(l, v, r) =>
      if x == v then current
      else if x < v then SearchRecursive(l, x)
      else SearchRecursive(r, x)
  }

  /** `search`: refuses `null`, otherwise returns the matching cell or the
      empty link. */
  function Search(s: TreeState, e: Option<int>): (r: Result<Tree>)
    ensures r.Err? <==> e.None?
    ensures r.Err? ==> r.error == NullArgument
    ensures r.Ok? && r.value.Node? ==> r.value.element == e.value && Subtree(r.value, s.root)
    ensures r.Ok? && BST(s.root) ==> (r.value.Node? <==> e.value in Elems(s.root))
  {
    match e
    case None => Err(NullArgument)
    case Some(x) => Ok(SearchRecursive(s.root, x))
  }

  /** `search` finds a cell exactly when `contains` answers true, on every
      tree, ordered or not. */
  lemma {:induction false} SearchAgreesWithContains(current: Tree, x: int)
    ensures SearchRecursive(current, x).Node? <==> ContainsRecursive(current, x)
  {
    match current
    case Leaf =>
    case Node(l, v, r) =>
      if x < v {
        SearchAgreesWithContains(l, x);
      } else if x > v {
        SearchAgreesWithContains(r, x);
      }
  }

  // ------------------------------------------------- size, clear, root

  /** `clear`: drops every cell; afterwards there is no root to return. */
  function Clear(s: TreeState): (r: TreeState)
    ensures Valid(r) && Elems(r.root) == {} && r.size == 0
    ensures GetRoot(r) == Err(EmptyTree)
  {
    TreeState(Leaf, 0)
  }

  /** `size`: in a valid tree, the number of distinct stored elements. */
  function Size(s: TreeState): (n: int)
    ensures Valid(s) ==> n == |Elems(s.root)|
  {
    CountIsCardinality(s.root);
    s.size
  }

  /** `isEmpty`: in a valid tree, true exactly when no element is stored. */
  function IsEmpty(s: TreeState): (b: bool)
    ensures Valid(s) ==> (b <==> Elems(s.root) == {})
    ensures Valid(s) ==> (b <==> s.root.Leaf?)
  {
    s.size == 0
  }

  /** `getRoot`: the root cell, or `EmptyTree` when there is none. */
  function GetRoot(s: TreeState): (r: Result<Tree>)
    ensures r.Err? <==> s.root.Leaf?
    ensures r.Err? ==> r.error == EmptyTree
    ensures r.Ok? ==> r.value.Node? && r.value == s.root
    ensures Valid(s) ==> (r.Err? <==> s.size == 0)
  {
    if s.root.Leaf? then Err(EmptyTree) else Ok(s.root)
  }

  // --------------------------------------------------------- traversals

  /** `inOrderIteratorRecursive`: appends the subtree's elements in order
      to the accumulator. */
  function InOrderIteratorRecursive(node: Tree, acc: SnapshotIterator.Iterator): (r: SnapshotIterator.Iterator)
    ensures r.elements == acc.elements + InOrder(node)
    ensures r.size == acc.size + Count(node)
    ensures r.currentIndex == acc.currentIndex
  {
    match node
    case Leaf => acc
    case Node(l, x, rt) =>
      var a := InOrderIteratorRecursive(l, acc);
      InOrderIteratorRecursive(rt, SnapshotIterator.AddElement(a, x))
  }

  /** `preOrderIteratorRecursive`: appends the subtree's elements in
      pre-order to the accumulator. */
  function PreOrderIteratorRecursive(node: Tree, acc: SnapshotIterator.Iterator): (r: SnapshotIterator.Iterator)
    ensures r.elements == acc.elements + PreOrder(node)
    ensures r.size == acc.size + Count(node)
    ensures r.currentIndex == acc.currentIndex
  {
    match node
    case Leaf => acc
    case Node(l, x, rt) =>
      var a := SnapshotIterator.AddElement(acc, x);
      PreOrderIteratorRecursive(rt, PreOrderIteratorRecursive(l, a))
  }

  /** `postOrderIteratorRecursive`: appends the subtree's elements in
      post-order to the accumulator. */
  function PostOrderIteratorRecursive(node: Tree, acc: SnapshotIterator.Iterator): (r: SnapshotIterator.Iterator)
    ensures r.elements == acc.elements + PostOrder(node)
    ensures r.size == acc.size + Count(node)
    ensures r.currentIndex == acc.currentIndex
  {
    match node
    case Leaf => acc
    case Node(l, x, rt) =>
      var a := PostOrderIteratorRecursive(rt, PostOrderIteratorRecursive(l, acc));
      SnapshotIterator.AddElement(a, x)
  }

  /** `inorderIterator`: a fresh snapshot holding every stored element
      exactly once, in strictly ascending order. */
  function InorderIterator(s: TreeState): (it: SnapshotIterator.Iterator)
    ensures SnapshotIterator.Valid(it) && it.currentIndex == 0
    ensures it.elements == InOrder(s.root)
    ensures forall y :: y in it.elements <==> y in Elems(s.root)
    ensures Valid(s) ==> |it.elements| == s.size
    ensures BST(s.root) ==> StrictlyAscending(it.elements)
  {
    InOrderAscending(s.root);
    InOrderIteratorRecursive(s.root, SnapshotIterator.New())
  }

  /** `preorderIterator`: a fresh snapshot of the pre-order sequence; it
      starts with the root's element and is a permutation of the in-order
      snapshot. */
  function PreorderIterator(s: TreeState): (it: SnapshotIterator.Iterator)
    ensures SnapshotIterator.Valid(it) && it.currentIndex == 0
    ensures it.elements == PreOrder(s.root)
    ensures multiset(it.elements) == multiset(InorderIterator(s).elements)
    ensures Valid(s) ==> |it.elements| == s.size
    ensures s.root.Node? ==> |it.elements| > 0 && it.elements[0] == s.root.element
  {
    TraversalsArePermutations(s.root);
    PreOrderIteratorRecursive(s.root, SnapshotIterator.New())
  }

  /** `postorderIterator`: a fresh snapshot of the post-order sequence; it
      ends with the root's element and is a permutation of the in-order
      snapshot. */
  function PostorderIterator(s: TreeState): (it: SnapshotIterator.Iterator)
    ensures SnapshotIterator.Valid(it) && it.currentIndex == 0
    ensures it.elements == PostOrder(s.root)
    ensures multiset(it.elements) == multiset(InorderIterator(s).elements)
    ensures Valid(s) ==> |it.elements| == s.size
    ensures s.root.Node? ==> |it.elements| > 0 && it.elements[|it.elements| - 1] == s.root.element
  {
    TraversalsArePermutations(s.root);
    PostOrderIteratorRecursive(s.root, SnapshotIterator.New())
  }

  // ------------------------------------------------ removeMin/removeMax

  /** The leftmost walk of `removeMin` with its splice: the leftmost cell is
      cut out and its right child takes its place in the parent's left slot
      (or becomes the subtree itself). Returns the new subtree and the
      removed element, the least one of an ordered subtree. */
  function DetachMin(current: Tree): (r: (Tree, int))
    requires current.Node?
    ensures r.1 == Min(current)
    ensures current.left.Leaf? ==> r.0 == current.right
    ensures current.left.Node? ==>
      r.0.Node? && r.0.element == current.element && r.0.right == current.right
    ensures Count(r.0) == Count(current) - 1
    ensures Elems(r.0) <= Elems(current)
    ensures BST(current) ==> BST(r.0) && Elems(r.0) == Elems(current) - {r.1}
  {
    match current
    case Node(Leaf, v, rt) => (rt, v)
    case Node(lt, _, _) =>
      var (l, m) := DetachMin(lt);
      (SetLeft(current, l), m)
  }

  /** On every subtree, the element `DetachMin` removes is the first one in
      order, and the other elements keep their in-order sequence. */
  lemma {:induction false} DetachMinInOrder(current: Tree)
    requires current.Node?
    ensures InOrder(current) == [DetachMin(current).1] + InOrder(DetachMin(current).0)
  {
    match current
    case Node(Leaf, _, _) =>
    case Node(lt, _, _) =>
      DetachMinInOrder(lt);
  }

  /** The rightmost walk of `removeMax`, the mirror image of `DetachMin`:
      the removed element is the greatest one of an ordered subtree. */
  function DetachMax(current: Tree): (r: (Tree, int))
    requires current.Node?
    ensures r.1 == Max(current)
    ensures current.right.Leaf? ==> r.0 == current.left
    ensures current.right.Node? ==>
      r.0.Node? && r.0.element == current.element && r.0.left == current.left
    ensures Count(r.0) == Count(current) - 1
    ensures Elems(r.0) <= Elems(current)
    ensures BST(current) ==> BST(r.0) && Elems(r.0) == Elems(current) - {r.1}
  {
    match current
    case Node(lt, v, Leaf) => (lt, v)
    case Node(_, _, rt) =>
      var (r, m) := DetachMax(rt);
      (SetRight(current, r), m)
  }

  /** On every subtree, the element `DetachMax` removes is the last one in
      order, and the other elements keep their in-order sequence. */
  lemma {:induction false} DetachMaxInOrder(current: Tree)
    requires current.Node?
    ensures InOrder(current) == InOrder(DetachMax(current).0) + [DetachMax(current).1]
  {
    match current
    case Node(_, _, Leaf) =>
    case Node(_, _, rt) =>
      DetachMaxInOrder(rt);
  }

  /** `removeMin`: on an empty tree returns nothing and changes nothing;
      otherwise removes the least element, returns it and decrements the
      size, keeping the tree valid. */
  function RemoveMin(s: TreeState): (r: (TreeState, Option<int>))
    ensures s.root.Leaf? <==> r.1.None?
    ensures r.1.None? ==> r.0 == s
    ensures r.1.Some? ==> r.1.value in Elems(s.root) && r.0.size == s.size - 1
    ensures r.1.Some? ==> Count(r.0.root) == Count(s.root) - 1
    ensures r.1.Some? && BST(s.root) ==>
      && (forall y :: y in Elems(s.root) ==> r.1.value <= y)
      && Elems(r.0.root) == Elems(s.root) - {r.1.value}
    ensures Valid(s) ==> Valid(r.0)
  {
    if s.root.Leaf? then
      (s, None)
    else
      var (root, m) := DetachMin(s.root);
      (TreeState(root, s.size - 1), Some(m))
  }

  /** `removeMax`: the mirror image of `removeMin`, removing and returning
      the greatest element. */
  function RemoveMax(s: TreeState): (r: (TreeState, Option<int>))
    ensures s.root.Leaf? <==> r.1.None?
    ensures r.1.None? ==> r.0 == s
    ensures r.1.Some? ==> r.1.value in Elems(s.root) && r.0.size == s.size - 1
    ensures r.1.Some? ==> Count(r.0.root) == Count(s.root) - 1
    ensures r.1.Some? && BST(s.root) ==>
      && (forall y :: y in Elems(s.root) ==> y <= r.1.value)
      && Elems(r.0.root) == Elems(s.root) - {r.1.value}
    ensures Valid(s) ==> Valid(r.0)
  {
    if s.root.Leaf? then
      (s, None)
    else
      var (root, m) := DetachMax(s.root);
      (TreeState(root, s.size - 1), Some(m))
  }

  // ------------------------------------------------------------- height

  /** `getHeightRecursive`: the number of cells on the longest downward
      path, so 0 for the empty link and otherwise one more than the taller
      child's height. */
  function GetHeightRecursive(current: Tree): (h: nat)
    ensures h == 0 <==> current.Leaf?
    ensures h <= Count(current)
    ensures current.Node? ==> h > GetHeightRecursive(current.left) && h > GetHeightRecursive(current.right)
    ensures current.Node? ==>
      h == 1 + GetHeightRecursive(current.left) || h == 1 + GetHeightRecursive(current.right)
  {
    match current
    case Leaf => 0
    case Node(l, _, r) =>
      var hl, hr := GetHeightRecursive(l), GetHeightRecursive(r);
      1 + if hl >= hr then hl else hr
  }

  /** `getHeight`: 0 for an empty tree, otherwise one more than the taller
      of the root's subtrees, and never more than the size. */
  function GetHeight(s: TreeState): (h: int)
    ensures h >= 0
    ensures h == 0 <==> s.root.Leaf?
    ensures s.root.Node? ==>
      h > GetHeightRecursive(s.root.left) && h > GetHeightRecursive(s.root.right)
    ensures s.root.Node? ==>
      h == 1 + GetHeightRecursive(s.root.left) || h == 1 + GetHeightRecursive(s.root.right)
    ensures Valid(s) ==> h <= s.size
  {
    GetHeightRecursive(s.root)
  }
}
