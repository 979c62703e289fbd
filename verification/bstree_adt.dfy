/** `BSTreeADT`: the second, divergent implementation of the same tree.

    It keeps the same root-and-size record as `BSTree` but differs in two
    ways: the height of an empty tree is -1 instead of 0, and it has a
    general delete-by-key (`removeNode`) on which its `removeMin` and
    `removeMax` are built. Its traversals fill a plain list. Its cells are
    `utilities.BSTreeNode` objects, which are not part of this model; they
    are represented by the same `Tree` cells as `BSTree`'s, with
    `getData`/`setData` read as `getElement`/`setElement`.
 */
module BSTreeADT {
  import opened Results
  import opened Trees
  import opened TreeNode
  import BSTree

  /** The constructor: no root and size zero. */
  function New(): (s: TreeState)
    ensures Valid(s) && Elems(s.root) == {} && s.size == 0
  {
    TreeState(Leaf, 0)
  }

  /** `getRoot`: the root cell, or `EmptyTree` when there is none. */
  function GetRoot(s: TreeState): (r: Result<Tree>)
    ensures r.Err? <==> s.root.Leaf?
    ensures r.Err? ==> r.error == EmptyTree
    ensures r.Ok? ==> r.value.Node? && r.value == s.root
    ensures Valid(s) ==> (r.Err? <==> s.size == 0)
  {
    if s.root.Leaf? then Err(EmptyTree) else Ok(s.root)
  }

  // ------------------------------------------------------------- height

  /** `calculateHeight`: the number of edges on the longest downward path,
      so -1 for the empty link, 0 for a single cell, and otherwise one more
      than the taller child's height. */
  function CalculateHeight(node: Tree): (h: int)
    ensures h >= -1
    ensures h == -1 <==> node.Leaf?
    ensures h < Count(node)
    ensures node.Node? ==> h > CalculateHeight(node.left) && h > CalculateHeight(node.right)
    ensures node.Node? ==>
      h == 1 + CalculateHeight(node.left) || h == 1 + CalculateHeight(node.right)
  {
    match node
    case Leaf => -1
    case Node(l, _, r) =>
      var hl, hr := CalculateHeight(l), CalculateHeight(r);
      1 + if hl >= hr then hl else hr
  }

  /** `getHeight`: -1 for an empty tree, otherwise one more than the taller
      of the root's subtrees, and always less than the size. */
  function GetHeight(s: TreeState): (h: int)
    ensures h == -1 <==> s.root.Leaf?
    ensures s.root.Node? ==>
      h > CalculateHeight(s.root.left) && h > CalculateHeight(s.root.right)
    ensures s.root.Node? ==>
      h == 1 + CalculateHeight(s.root.left) || h == 1 + CalculateHeight(s.root.right)
    ensures Valid(s) ==> h < s.size
  {
    CalculateHeight(s.root)
  }

  /** The two height conventions differ by exactly one on every tree. */
  lemma {:induction false} HeightConventionsDifferByOne(t: Tree)
    ensures CalculateHeight(t) == BSTree.GetHeightRecursive(t) - 1
  {
    match t
    case Leaf =>
    case Node(l, _, r) =>
      HeightConventionsDifferByOne(l);
      HeightConventionsDifferByOne(r);
  }

  // ------------------------------------------------- size, clear, empty

  /** `size`: in a valid tree, the number of distinct stored elements. */
  function Size(s: TreeState): (n: int)
    ensures Valid(s) ==> n == |Elems(s.root)|
  {
    CountIsCardinality(s.root);
    s.size
  }

  /** `isEmpty`: in a valid tree, true exactly when no element is stored. */
  function IsEmpty(s: TreeState): (b: bool)
    ensures Valid(s) ==> (b <==> Elems(s.root) == {})
  {
    s.size == 0
  }

  /** `clear`: drops every cell; afterwards there is no root to return. */
  function Clear(s: TreeState): (r: TreeState)
    ensures Valid(r) && Elems(r.root) == {} && r.size == 0
    ensures GetRoot(r) == Err(EmptyTree)
  {
    TreeState(Leaf, 0)
  }

  // ---------------------------------------------------- search/contains

  /** `searchNode`: stops at the empty link or at an equal element,
      otherwise descends by comparison. */
  function SearchNode(node: Tree, x: int): (n: Tree)
    ensures n.Node? ==> n.element == x && Subtree(n, node)
    ensures BST(node) ==> (n.Node? <==> x in Elems(node))
  {
    match node
    case Leaf => node
    case Node(l, v, r) =>
      if v == x then node
      else if x < v then SearchNode(l, x)
      else SearchNode(r, x)
  }

  /** `search`: refuses `null`, otherwise returns the matching cell or the
      empty link. */
  function Search(s: TreeState, e: Option<int>): (r: Result<Tree>)
    ensures r.Err? <==> e.None?
    ensures r.Err? ==> r.error == NullArgument
    ensures r.Ok? && r.value.Node? ==> r.value.element == e.value && Subtree(r.value, s.root)
    ensures r.Ok? && BST(s.root) ==> (r.value.Node? <==> e.value in Elems(s.root))
  {
    match e
    case None => Err(NullArgument)
    case Some(x) => Ok(SearchNode(s.root, x))
  }

  /** `contains`: refuses `null`, otherwise reports whether `search` found
      a cell. */
  function Contains(s: TreeState, e: Option<int>): (r: Result<bool>)
    ensures r.Err? <==> e.None?
    ensures r.Err? ==> r.error == NullArgument
    ensures r.Ok? ==> (r.value <==> Search(s, e).value.Node?)
    ensures r.Ok? && BST(s.root) ==> (r.value <==> e.value in Elems(s.root))
  {
    if e.None? then
      Err(NullArgument)
    else
      Ok(Search(s, e).value.Node?)
  }

  /** The two `search` walks return the same cell on every tree. */
  lemma {:induction false} SearchNodeAgrees(node: Tree, x: int)
    ensures SearchNode(node, x) == BSTree.SearchRecursive(node, x)
  {
    match node
    case Leaf =>
    case Node(l, v, r) =>
      if x < v {
        SearchNodeAgrees(l, x);
      } else if x > v {
        SearchNodeAgrees(r, x);
      }
  }

  // ---------------------------------------------------------------- add

  /** `addNode`: descends by comparison from a non-empty cell, hangs a new
      cell on the first empty slot, and reports `false` on an equal
      element. */
  function AddNode(node: Tree, x: int): (r: (Tree, bool))
    requires node.Node?
    ensures Elems(r.0) == Elems(node) + {x}
    ensures Count(r.0) == Count(node) + (if r.1 then 1 else 0)
    ensures !r.1 ==> r.0 == node
    ensures r.0.Node? && r.0.element == node.element
    ensures x < node.element ==> r.0.right == node.right
    ensures x > node.element ==> r.0.left == node.left
    ensures BST(node) ==> BST(r.0)
    ensures BST(node) ==> (r.1 <==> x !in Elems(node))
  {
    if x < node.element then
      if node.left.Leaf? then
        (SetLeft(node, NewNode(x)), true)
      else
        var (l, added) := AddNode(node.left, x);
        (SetLeft(node, l), added)
    else if x > node.element then
      if node.right.Leaf? then
        (SetRight(node, NewNode(x)), true)
      else
        var (r, added) := AddNode(node.right, x);
        (SetRight(node, r), added)
    else
      (node, false)
  }

  /** `add`: refuses `null`; otherwise inserts a new element, reports
      whether a cell was created and counts it only then. */
  function Add(s: TreeState, e: Option<int>): (r: Result<(TreeState, bool)>)
    ensures r.Err? <==> e.None?
    ensures r.Err? ==> r.error == NullArgument
    ensures r.Ok? ==> Elems(r.value.0.root) == Elems(s.root) + {e.value}
    ensures r.Ok? ==> r.value.0.size == s.size + (if r.value.1 then 1 else 0)
    ensures r.Ok? && !r.value.1 ==> r.value.0 == s
    ensures r.Ok? && Valid(s) ==> Valid(r.value.0)
    ensures r.Ok? && Valid(s) ==> (r.value.1 <==> e.value !in Elems(s.root))
  {
    match e
    case None => Err(NullArgument)
    case Some(x) =>
      if s.root.Leaf? then
        Ok((TreeState(NewNode(x), s.size + 1), true))
      else
        var (root, added) := AddNode(s.root, x);
        Ok((TreeState(root, if added then s.size + 1 else s.size), added))
  }

  /** Both implementations' insertion walks build the same tree and give
      the same answer. */
  lemma {:induction false} AddNodeAgrees(node: Tree, x: int)
    requires node.Node?
    ensures AddNode(node, x) == BSTree.AddRecursive(node, x)
  {
    if x < node.element && node.left.Node? {
      AddNodeAgrees(node.left, x);
    } else if x > node.element && node.right.Node? {
      AddNodeAgrees(node.right, x);
    }
  }

  // ----------------------------------------------------- removal by key

  /** `findMinNode`: the loop that walks left until there is no left
      child; it stops on the cell holding the least element. */
  method FindMinNode(node: Tree) returns (m: int)
    requires node.Node?
    ensures m == Min(node)
    ensures BST(node) ==> forall y :: y in Elems(node) ==> m <= y
  {
    var current := node;
    while current.left.Node?
      invariant current.Node? && Min(current) == Min(node)
      decreases current
    {
      current := current.left;
    }
    m := current.element;
  }

  /** `findMaxNode`: the loop that walks right until there is no right
      child; it stops on the cell holding the greatest element. */
  method FindMaxNode(node: Tree) returns (m: int)
    requires node.Node?
    ensures m == Max(node)
    ensures BST(node) ==> forall y :: y in Elems(node) ==> y <= m
  {
    var current := node;
    while current.right.Node?
      invariant current.Node? && Max(current) == Max(node)
      decreases current
    {
      current := current.right;
    }
    m := current.element;
  }

  /** `removeNode`: deletes `x` from the subtree and returns the new
      subtree. A cell with one child is replaced by that child; a cell with
      two children takes the least element of its right subtree, which is
      then deleted from there (in-order successor replacement). */
  function RemoveNode(node: Tree, x: int): (r: Tree)
    ensures x !in Elems(node) ==> r == node
    ensures node.Node? && x < node.element ==>
      r.Node? && r.element == node.element && r.right == node.right
    ensures node.Node? && x > node.element ==>
      r.Node? && r.element == node.element && r.left == node.left
    ensures Elems(r) <= Elems(node)
    ensures BST(node) ==> BST(r)
    ensures BST(node) ==> Elems(r) == Elems(node) - {x}
    ensures BST(node) ==> Count(r) == Count(node) - (if x in Elems(node) then 1 else 0)
  {
    match node
    case Leaf => Leaf
    case Node(l, v, rt) =>
      if x < v then
        SetLeft(node, RemoveNode(l, x))
      else if x > v then
        SetRight(node, RemoveNode(rt, x))
      else if l.Leaf? then
        rt
      else if rt.Leaf? then
        l
      else
        var successor := Min(rt);
        SetRight(SetElement(node, successor), RemoveNode(rt, successor))
  }

  /** `removeMin`: on an empty tree returns nothing and changes nothing;
      otherwise finds the least element, deletes it by key, returns it and
      decrements the size. */
  function RemoveMin(s: TreeState): (r: (TreeState, Option<int>))
    ensures s.root.Leaf? <==> r.1.None?
    ensures r.1.None? ==> r.0 == s
    ensures r.1.Some? ==> r.1.value in Elems(s.root) && r.0.size == s.size - 1
    ensures r.1.Some? && BST(s.root) ==> Count(r.0.root) == Count(s.root) - 1
    ensures r.1.Some? && BST(s.root) ==>
      && (forall y :: y in Elems(s.root) ==> r.1.value <= y)
      && Elems(r.0.root) == Elems(s.root) - {r.1.value}
    ensures Valid(s) ==> Valid(r.0)
  {
    if s.root.Leaf? then
      (s, None)
    else
      var m := Min(s.root);
      (TreeState(RemoveNode(s.root, m), s.size - 1), Some(m))
  }

  /** `removeMax`: the mirror image of `removeMin`, deleting and returning
      the greatest element. */
  function RemoveMax(s: TreeState): (r: (TreeState, Option<int>))
    ensures s.root.Leaf? <==> r.1.None?
    ensures r.1.None? ==> r.0 == s
    ensures r.1.Some? ==> r.1.value in Elems(s.root) && r.0.size == s.size - 1
    ensures r.1.Some? && BST(s.root) ==> Count(r.0.root) == Count(s.root) - 1
    ensures r.1.Some? && BST(s.root) ==>
      && (forall y :: y in Elems(s.root) ==> y <= r.1.value)
      && Elems(r.0.root) == Elems(s.root) - {r.1.value}
    ensures Valid(s) ==> Valid(r.0)
  {
    if s.root.Leaf? then
      (s, None)
    else
      var m := Max(s.root);
      (TreeState(RemoveNode(s.root, m), s.size - 1), Some(m))
  }

  // --------------------------------------------------------- traversals

  /** `inorderTraversal`: appends the subtree's elements in order. */
  function InorderTraversal(node: Tree, acc: seq<int>): (r: seq<int>)
    ensures r == acc + InOrder(node)
  {
    match node
    case Leaf => acc
    case Node(l, x, rt) => InorderTraversal(rt, InorderTraversal(l, acc) + [x])
  }

  /** `preorderTraversal`: appends the subtree's elements in pre-order. */
  function PreorderTraversal(node: Tree, acc: seq<int>): (r: seq<int>)
    ensures r == acc + PreOrder(node)
  {
    match node
    case Leaf => acc
    case Node(l, x, rt) => PreorderTraversal(rt, PreorderTraversal(l, acc + [x]))
  }

  /** `postorderTraversal`: appends the subtree's elements in post-order. */
  function PostorderTraversal(node: Tree, acc: seq<int>): (r: seq<int>)
    ensures r == acc + PostOrder(node)
  {
    match node
    case Leaf => acc
    case Node(l, x, rt) => PostorderTraversal(rt, PostorderTraversal(l, acc)) + [x]
  }

  /** `inorderIterator`: every stored element exactly once, strictly
      ascending. */
  function InorderIterator(s: TreeState): (out: seq<int>)
    ensures out == InOrder(s.root)
    ensures forall y :: y in out <==> y in Elems(s.root)
    ensures Valid(s) ==> |out| == s.size
    ensures BST(s.root) ==> StrictlyAscending(out)
  {
    InOrderAscending(s.root);
    InorderTraversal(s.root, [])
  }

  /** `preorderIterator`: the pre-order list, so root first, and a
      permutation of the in-order list. */
  function PreorderIterator(s: TreeState): (out: seq<int>)
    ensures out == PreOrder(s.root)
    ensures multiset(out) == multiset(InorderIterator(s))
    ensures Valid(s) ==> |out| == s.size
    ensures s.root.Node? ==> |out| > 0 && out[0] == s.root.element
  {
    TraversalsArePermutations(s.root);
    PreorderTraversal(s.root, [])
  }

  /** `postorderIterator`: the post-order list, so root last, and a
      permutation of the in-order list. */
  function PostorderIterator(s: TreeState): (out: seq<int>)
    ensures out == PostOrder(s.root)
    ensures multiset(out) == multiset(InorderIterator(s))
    ensures Valid(s) ==> |out| == s.size
    ensures s.root.Node? ==> |out| > 0 && out[|out| - 1] == s.root.element
  {
    TraversalsArePermutations(s.root);
    PostorderTraversal(s.root, [])
  }
}
