/** One `BSTreeNode` cell: an element with an optional left and right child.

    Java mutates a cell in place; here a setter returns the updated cell and
    the caller stores it back in the parent's slot. Accessors take a
    non-empty link, as calling them on `null` is not possible in Java.
 */
module TreeNode {
  import opened Trees

  /** A new cell holds the given element and has no children. */
  function NewNode(e: int): (n: Tree)
    ensures n.Node? && n.element == e
    ensures n.left == Leaf && n.right == Leaf
    ensures Elems(n) == {e} && Count(n) == 1 && BST(n)
  {
    Node(Leaf, e, Leaf)
  }

  /** The stored element: writing it back with `SetElement` leaves the
      cell as it was. It belongs to the cell's subtree and, in an ordered
      subtree, separates the left elements from the right ones. */
  function GetElement(n: Tree): (e: int)
    requires n.Node?
    ensures SetElement(n, e) == n
    ensures e in Elems(n)
    ensures BST(n) ==> forall y :: y in Elems(n.left) ==> y < e
    ensures BST(n) ==> forall y :: y in Elems(n.right) ==> e < y
  {
    n.element
  }

  /** The left child: the cell is exactly its element between this link
      and its right link. It is a strictly smaller subtree whose elements,
      in an ordered tree, all precede the cell's element. */
  function GetLeft(n: Tree): (l: Tree)
    requires n.Node?
    ensures n == Node(l, n.element, n.right)
    ensures Count(l) < Count(n) && Elems(l) <= Elems(n)
    ensures BST(n) ==> BST(l) && forall y :: y in Elems(l) ==> y < n.element
  {
    n.left
  }

  /** The right child: the cell is exactly its left link and element
      followed by this link. It is a strictly smaller subtree whose
      elements, in an ordered tree, all follow the cell's element. */
  function GetRight(n: Tree): (r: Tree)
    requires n.Node?
    ensures n == Node(n.left, n.element, r)
    ensures Count(r) < Count(n) && Elems(r) <= Elems(n)
    ensures BST(n) ==> BST(r) && forall y :: y in Elems(r) ==> n.element < y
  {
    n.right
  }

  /** Replaces the element only; both child links are kept. */
  function SetElement(n: Tree, e: int): (m: Tree)
    requires n.Node?
    ensures m.Node? && m.element == e
    ensures m.left == n.left && m.right == n.right
    ensures Count(m) == Count(n)
  {
    n.(element := e)
  }

  /** Replaces the left link only; the element and the right link are kept.
      Hanging an ordered subtree of smaller elements there keeps an ordered
      cell ordered. */
  function SetLeft(n: Tree, l: Tree): (m: Tree)
    requires n.Node?
    ensures m.Node? && m.left == l
    ensures m.element == n.element && m.right == n.right
    ensures Elems(m) == Elems(l) + {n.element} + Elems(n.right)
    ensures Count(m) == Count(l) + 1 + Count(n.right)
    ensures BST(n) && BST(l) && (forall y :: y in Elems(l) ==> y < n.element) ==> BST(m)
  {
    n.(left := l)
  }

  /** Replaces the right link only; the element and the left link are kept.
      Hanging an ordered subtree of larger elements there keeps an ordered
      cell ordered. */
  function SetRight(n: Tree, r: Tree): (m: Tree)
    requires n.Node?
    ensures m.Node? && m.right == r
    ensures m.element == n.element && m.left == n.left
    ensures Elems(m) == Elems(n.left) + {n.element} + Elems(r)
    ensures Count(m) == Count(n.left) + 1 + Count(r)
    ensures BST(n) && BST(r) && (forall y :: y in Elems(r) ==> n.element < y) ==> BST(m)
  {
    n.(right := r)
  }

  /** Each getter reads back what its setter stored, and storing what a
      getter read leaves the cell unchanged. */
  lemma GetterSetterRoundTrips(n: Tree, e: int, t: Tree)
    requires n.Node?
    ensures GetElement(SetElement(n, e)) == e && SetElement(n, GetElement(n)) == n
    ensures GetLeft(SetLeft(n, t)) == t && SetLeft(n, GetLeft(n)) == n
    ensures GetRight(SetRight(n, t)) == t && SetRight(n, GetRight(n)) == n
  {
  }
}
