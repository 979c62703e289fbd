/** The shape both tree classes share.

    A `Tree` is a chain of owned cells: `Leaf` is the empty (null) link and
    `Node(left, element, right)` is one `BSTreeNode`. Elements are integers,
    whose `<` plays the part of `compareTo`. Both `BSTree` and `BSTreeADT`
    keep exactly the same two fields, a root link and a running size, which
    `TreeState` records.
 */
module Trees {

  datatype Tree = Leaf | Node(left: Tree, element: int, right: Tree)

  /** The root-plus-count record held by both tree classes. */
  datatype TreeState = TreeState(root: Tree, size: int)

  /** The set of elements stored in a tree. */
  ghost function Elems(t: Tree): set<int>
  {
    match t
    case Leaf => {}
    case Node(l, x, r) => Elems(l) + {x} + Elems(r)
  }

  /** The number of cells reachable from `t`. */
  function Count(t: Tree): nat
  {
    match t
    case Leaf => 0
    case Node(l, _, r) => Count(l) + 1 + Count(r)
  }

  /** Binary-search-tree ordering: everything left of a cell is strictly
      smaller than its element and everything right of it strictly larger. */
  ghost predicate BST(t: Tree)
  {
    match t
    case Leaf => true
    case Node(l, x, r) =>
      && BST(l) && BST(r)
      && (forall y :: y in Elems(l) ==> y < x)
      && (forall y :: y in Elems(r) ==> x < y)
  }

  /** The invariant both tree classes keep: the cells are ordered and the
      running size is the number of cells. */
  ghost predicate Valid(s: TreeState)
  {
    BST(s.root) && s.size == Count(s.root)
  }

  ghost predicate StrictlyAscending(s: seq<int>)
  {
    forall i, j :: 0 <= i < j < |s| ==> s[i] < s[j]
  }

  /** `n` is a cell reachable from `t`, together with everything below
      it: `t` itself or a subtree of one of its children. */
  ghost predicate Subtree(n: Tree, t: Tree)
  {
    n == t || (t.Node? && (Subtree(n, t.left) || Subtree(n, t.right)))
  }

  /** Reference in-order sequence: left subtree, cell, right subtree. */
  function InOrder(t: Tree): (s: seq<int>)
    ensures |s| == Count(t)
    ensures forall y :: y in s <==> y in Elems(t)
  {
    match t
    case Leaf => []
    case Node(l, x, r) => InOrder(l) + [x] + InOrder(r)
  }

  /** Reference pre-order sequence: cell, left subtree, right subtree. */
  function PreOrder(t: Tree): (s: seq<int>)
    ensures |s| == Count(t)
    ensures forall y :: y in s <==> y in Elems(t)
  {
    match t
    case Leaf => []
    case Node(l, x, r) => [x] + PreOrder(l) + PreOrder(r)
  }

  /** Reference post-order sequence: left subtree, right subtree, cell. */
  function PostOrder(t: Tree): (s: seq<int>)
    ensures |s| == Count(t)
    ensures forall y :: y in s <==> y in Elems(t)
  {
    match t
    case Leaf => []
    case Node(l, x, r) => PostOrder(l) + PostOrder(r) + [x]
  }

  /** The element reached by walking left from `t` as far as possible. */
  function Min(t: Tree): (m: int)
    requires t.Node?
    ensures m in Elems(t)
    ensures BST(t) ==> forall y :: y in Elems(t) ==> m <= y
  {
    if t.left.Leaf? then t.element else Min(t.left)
  }

  /** The element reached by walking right from `t` as far as possible. */
  function Max(t: Tree): (m: int)
    requires t.Node?
    ensures m in Elems(t)
    ensures BST(t) ==> forall y :: y in Elems(t) ==> y <= m
  {
    if t.right.Leaf? then t.element else Max(t.right)
  }

  /** The sequence read backwards. */
  function Reverse(s: seq<int>): (r: seq<int>)
    ensures |r| == |s|
    ensures forall i :: 0 <= i < |s| ==> r[i] == s[|s| - 1 - i]
  {
    if s == [] then [] else Reverse(s[1..]) + [s[0]]
  }

  /** In an ordered tree no element is stored twice, so the number of cells
      is the number of distinct elements. */
  lemma {:induction false} CountIsCardinality(t: Tree)
    ensures BST(t) ==> |Elems(t)| == Count(t)
  {
    if t.Node? && BST(t) {
      var (l, x, r) := (t.left, t.element, t.right);
      CountIsCardinality(l);
      CountIsCardinality(r);
      assert x !in Elems(l) && x !in Elems(r);
      assert Elems(l) * Elems(r) == {} by {
        forall y | y in Elems(l) ensures y !in Elems(r) {
          assert y < x;
        }
      }
      assert |Elems(l) + {x}| == |Elems(l)| + 1;
    }
  }

  /** The in-order sequence of an ordered tree is strictly ascending. */
  lemma {:induction false} InOrderAscending(t: Tree)
    ensures BST(t) ==> StrictlyAscending(InOrder(t))
  {
    if t.Node? && BST(t) {
      var (l, x, r) := (t.left, t.element, t.right);
      InOrderAscending(l);
      InOrderAscending(r);
      var a, b := InOrder(l), InOrder(r);
      var s := a + [x] + b;
      forall i, j | 0 <= i < j < |s| ensures s[i] < s[j] {
        if j < |a| {
          assert s[i] == a[i] && s[j] == a[j];
        } else if i < |a| {
          assert s[i] == a[i] && a[i] in Elems(l);
          if j > |a| {
            assert s[j] == b[j - |a| - 1] && b[j - |a| - 1] in Elems(r);
          }
        } else if i == |a| {
          assert s[j] == b[j - |a| - 1] && b[j - |a| - 1] in Elems(r);
        } else {
          assert s[i] == b[i - |a| - 1] && s[j] == b[j - |a| - 1];
        }
      }
    }
  }

  /** The three traversal orders visit the same cells: each is a
      permutation of the others. */
  lemma {:induction false} TraversalsArePermutations(t: Tree)
    ensures multiset(PreOrder(t)) == multiset(InOrder(t))
    ensures multiset(PostOrder(t)) == multiset(InOrder(t))
  {
    match t
    case Leaf =>
    case Node(l, x, r) =>
      TraversalsArePermutations(l);
      TraversalsArePermutations(r);
      assert PreOrder(t) == [x] + PreOrder(l) + PreOrder(r);
      assert PostOrder(t) == PostOrder(l) + PostOrder(r) + [x];
      assert InOrder(t) == InOrder(l) + [x] + InOrder(r);
  }
}
