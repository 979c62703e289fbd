/** Properties that relate several operations of the two tree classes:
    repeated insertion, repeated extremum removal, the agreement of the two
    removal algorithms, and the degenerate shape that sorted insertion
    produces.
 */
module TreeProperties {
  import opened Results
  import opened Trees
  import opened TreeNode
  import BSTree
  import BSTreeADT

  /** Repeated `add` of the elements of `xs`, in order, as a caller
      rebuilding a tree element by element does. */
  function AddAll(s: TreeState, xs: seq<int>): (r: TreeState)
    ensures Elems(r.root) == Elems(s.root) + set x | x in xs
    ensures Valid(s) ==> Valid(r)
    decreases |xs|
  {
    if xs == [] then
      s
    else
      AddAll(BSTree.Add(s, Some(xs[0])).value.0, xs[1..])
  }

  /** After adding a sequence of elements to an empty tree, the tree is
      valid, holds exactly those elements, its size is the number of
      distinct ones, and it contains each of them. */
  lemma InsertingBuildsTheSet(xs: seq<int>)
    ensures Valid(AddAll(BSTree.New(), xs))
    ensures Elems(AddAll(BSTree.New(), xs).root) == set x | x in xs
    ensures BSTree.Size(AddAll(BSTree.New(), xs)) == |set x | x in xs|
    ensures forall x :: x in xs ==> BSTree.Contains(AddAll(BSTree.New(), xs), Some(x)) == Ok(true)
  {
  }

  /** Insertion hangs a new element as a leaf and moves no old cell:
      deleting it again by key gives back exactly the tree there was. */
  lemma {:induction false} AddThenRemoveNode(t: Tree, x: int)
    requires t.Node? && BST(t) && x !in Elems(t)
    ensures Subtree(NewNode(x), BSTree.AddRecursive(t, x).0)
    ensures BSTreeADT.RemoveNode(BSTree.AddRecursive(t, x).0, x) == t
  {
    if x < t.element && t.left.Node? {
      AddThenRemoveNode(t.left, x);
    } else if x > t.element && t.right.Node? {
      AddThenRemoveNode(t.right, x);
    }
  }

  // --------------------------------------------- draining by removeMin

  /** Calls `removeMin` until it returns nothing, collecting what it
      returns. */
  function DrainMin(s: TreeState): seq<int>
    decreases Count(s.root)
  {
    var (rest, m) := BSTree.RemoveMin(s);
    match m
    case None => []
    case Some(x) => [x] + DrainMin(rest)
  }

  /** Calls `removeMax` until it returns nothing, collecting what it
      returns. */
  function DrainMax(s: TreeState): seq<int>
    decreases Count(s.root)
  {
    var (rest, m) := BSTree.RemoveMax(s);
    match m
    case None => []
    case Some(x) => [x] + DrainMax(rest)
  }

  /** Repeated `removeMin` hands out the in-order sequence, on any tree. */
  lemma {:induction false} DrainMinIsInOrder(s: TreeState)
    ensures DrainMin(s) == InOrder(s.root)
    decreases Count(s.root)
  {
    if s.root.Node? {
      var (rest, m) := BSTree.RemoveMin(s);
      BSTree.DetachMinInOrder(s.root);
      DrainMinIsInOrder(rest);
    }
  }

  lemma ReverseSnoc(a: seq<int>, x: int)
    ensures Reverse(a + [x]) == [x] + Reverse(a)
  {
  }

  /** Repeated `removeMax` hands out the in-order sequence backwards. */
  lemma {:induction false} DrainMaxIsReverseInOrder(s: TreeState)
    ensures DrainMax(s) == Reverse(InOrder(s.root))
    decreases Count(s.root)
  {
    if s.root.Node? {
      var (rest, m) := BSTree.RemoveMax(s);
      BSTree.DetachMaxInOrder(s.root);
      DrainMaxIsReverseInOrder(rest);
      ReverseSnoc(InOrder(rest.root), m.value);
    }
  }

  /** On a valid tree, repeated `removeMin` returns strictly ascending
      elements, exactly `size` of them, and every stored element once. */
  lemma DrainMinAscending(s: TreeState)
    requires Valid(s)
    ensures StrictlyAscending(DrainMin(s))
    ensures |DrainMin(s)| == s.size
    ensures forall y :: y in DrainMin(s) <==> y in Elems(s.root)
  {
    DrainMinIsInOrder(s);
    InOrderAscending(s.root);
  }

  /** On a valid tree, repeated `removeMax` returns strictly descending
      elements, exactly `size` of them. */
  lemma DrainMaxDescending(s: TreeState)
    requires Valid(s)
    ensures forall i, j :: 0 <= i < j < |DrainMax(s)| ==> DrainMax(s)[i] > DrainMax(s)[j]
    ensures |DrainMax(s)| == s.size
  {
    DrainMaxIsReverseInOrder(s);
    InOrderAscending(s.root);
  }

  // ------------------------------ the two removal algorithms agree

  lemma {:induction false} RemoveNodeOfMinIsDetachMin(t: Tree)
    requires t.Node? && BST(t)
    ensures BSTreeADT.RemoveNode(t, Min(t)) == BSTree.DetachMin(t).0
  {
    if t.left.Node? {
      assert Min(t.left) in Elems(t.left);
      RemoveNodeOfMinIsDetachMin(t.left);
    }
  }

  lemma {:induction false} RemoveNodeOfMaxIsDetachMax(t: Tree)
    requires t.Node? && BST(t)
    ensures BSTreeADT.RemoveNode(t, Max(t)) == BSTree.DetachMax(t).0
  {
    if t.right.Node? {
      assert Max(t.right) in Elems(t.right);
      RemoveNodeOfMaxIsDetachMax(t.right);
    }
  }

  /** Deleting the element of an ordered cell with two children is
      in-order successor replacement: the left subtree stays, the cell takes
      the least element of the right subtree, and that element is spliced
      out of the right subtree. */
  lemma RemoveNodeUsesSuccessor(t: Tree)
    requires t.Node? && t.left.Node? && t.right.Node? && BST(t)
    ensures BSTreeADT.RemoveNode(t, t.element).left == t.left
    ensures BSTreeADT.RemoveNode(t, t.element).element == Min(t.right)
    ensures BSTreeADT.RemoveNode(t, t.element).right == BSTree.DetachMin(t.right).0
  {
    RemoveNodeOfMinIsDetachMin(t.right);
  }

  /** On an ordered tree, `BSTreeADT`'s delete-by-key removal of the
      extremes produces exactly the tree that `BSTree`'s parent-splice
      produces, and returns the same element. */
  lemma RemoveExtremesAgree(s: TreeState)
    requires BST(s.root)
    ensures BSTreeADT.RemoveMin(s) == BSTree.RemoveMin(s)
    ensures BSTreeADT.RemoveMax(s) == BSTree.RemoveMax(s)
  {
    if s.root.Node? {
      RemoveNodeOfMinIsDetachMin(s.root);
      RemoveNodeOfMaxIsDetachMax(s.root);
    }
  }

  // --------------------------------------------- sorted insertion

  /** Every cell lacks a left child: the tree is a chain leaning right. */
  predicate RightChain(t: Tree)
  {
    t.Leaf? || (t.left.Leaf? && RightChain(t.right))
  }

  lemma {:induction false} ChainHeightIsCount(t: Tree)
    requires RightChain(t)
    ensures BSTree.GetHeightRecursive(t) == Count(t)
  {
    if t.Node? {
      ChainHeightIsCount(t.right);
    }
  }

  lemma {:induction false} AddAboveChain(t: Tree, x: int)
    requires t.Node? && RightChain(t)
    requires forall y :: y in Elems(t) ==> y < x
    ensures RightChain(BSTree.AddRecursive(t, x).0)
  {
    if t.right.Node? {
      assert forall y :: y in Elems(t.right) ==> y in Elems(t);
      AddAboveChain(t.right, x);
    }
  }

  lemma {:induction false} AscendingInsertionBuildsChain(s: TreeState, xs: seq<int>)
    requires Valid(s) && RightChain(s.root)
    requires StrictlyAscending(xs)
    requires forall y, i :: y in Elems(s.root) && 0 <= i < |xs| ==> y < xs[i]
    ensures RightChain(AddAll(s, xs).root)
    ensures Count(AddAll(s, xs).root) == Count(s.root) + |xs|
    decreases |xs|
  {
    if xs != [] {
      var x := xs[0];
      if s.root.Node? {
        AddAboveChain(s.root, x);
      }
      var s' := BSTree.Add(s, Some(x)).value.0;
      assert x !in Elems(s.root);
      forall y, i | y in Elems(s'.root) && 0 <= i < |xs[1..]| ensures y < xs[1..][i] {
        assert xs[1..][i] == xs[i + 1];
      }
      AscendingInsertionBuildsChain(s', xs[1..]);
    }
  }

  /** Inserting k strictly increasing elements into an empty tree yields the
      fully degenerate chain: height k under `BSTree`'s convention and k-1
      under `BSTreeADT`'s. */
  lemma SortedInsertionHeight(xs: seq<int>)
    requires StrictlyAscending(xs)
    ensures BSTree.GetHeight(AddAll(BSTree.New(), xs)) == |xs|
    ensures BSTreeADT.GetHeight(AddAll(BSTree.New(), xs)) == |xs| - 1
  {
    var r := AddAll(BSTree.New(), xs);
    AscendingInsertionBuildsChain(BSTree.New(), xs);
    ChainHeightIsCount(r.root);
    BSTreeADT.HeightConventionsDifferByOne(r.root);
  }

  // --------------------------------------- rebuilding from in-order

  /** A strictly ascending sequence has no repeats. */
  lemma {:induction false} AscendingSetSize(a: seq<int>)
    requires StrictlyAscending(a)
    ensures |set y | y in a| == |a|
  {
    if a != [] {
      AscendingSetSize(a[1..]);
      assert (set y | y in a) == {a[0]} + set y | y in a[1..];
      assert a[0] !in a[1..];
    }
  }

  /** Two non-empty strictly ascending sequences with the same elements
      start alike, and what follows the start has the same elements. */
  lemma AscendingHeadAndTail(a: seq<int>, b: seq<int>)
    requires StrictlyAscending(a) && StrictlyAscending(b)
    requires forall y :: y in a <==> y in b
    requires a != [] && b != []
    ensures a[0] == b[0]
    ensures forall y :: y in a[1..] <==> y in b[1..]
  {
    assert a[0] in a && b[0] in b;
    forall y ensures y in a[1..] <==> y in b[1..] {
      if y in a[1..] {
        var i :| 1 <= i < |a| && a[i] == y;
        assert y in b && y != b[0];
      }
      if y in b[1..] {
        var j :| 1 <= j < |b| && b[j] == y;
        assert y in a && y != a[0];
      }
    }
  }

  /** Two strictly ascending sequences with the same elements are equal. */
  lemma {:induction false} AscendingIsUnique(a: seq<int>, b: seq<int>)
    requires StrictlyAscending(a) && StrictlyAscending(b)
    requires forall y :: y in a <==> y in b
    ensures a == b
    decreases |a|
  {
    assert (set y | y in a) == (set y | y in b);
    AscendingSetSize(a);
    AscendingSetSize(b);
    if a != [] {
      AscendingHeadAndTail(a, b);
      AscendingIsUnique(a[1..], b[1..]);
      assert a == [a[0]] + a[1..] && b == [b[0]] + b[1..];
    }
  }

  /** Rebuilding a valid tree by inserting its in-order sequence into an
      empty tree gives the same in-order sequence, and the rebuilt tree is
      the degenerate chain, whose height is the size and so at least the
      original height. */
  lemma RebuildFromInOrder(s: TreeState)
    requires Valid(s)
    ensures InOrder(AddAll(BSTree.New(), InOrder(s.root)).root) == InOrder(s.root)
    ensures BSTree.GetHeight(AddAll(BSTree.New(), InOrder(s.root))) == s.size
    ensures BSTree.GetHeight(s) <= BSTree.GetHeight(AddAll(BSTree.New(), InOrder(s.root)))
  {
    var xs := InOrder(s.root);
    var r := AddAll(BSTree.New(), xs);
    InOrderAscending(s.root);
    InOrderAscending(r.root);
    AscendingIsUnique(InOrder(r.root), xs);
    SortedInsertionHeight(xs);
  }
}
