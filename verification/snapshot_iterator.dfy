/** `BSTreeIterator`: the snapshot buffer a traversal is built into.

    It is an append-only list of elements with a separate `size` counter
    and a read cursor. The counter always equals the list's length and the
    cursor never passes it (`Valid`).
 */
module SnapshotIterator {
  import opened Results

  datatype Iterator = Iterator(size: int, currentIndex: int, elements: seq<int>)

  predicate Valid(it: Iterator)
  {
    it.size == |it.elements| && 0 <= it.currentIndex <= it.size
  }

  /** A fresh iterator: empty buffer, cursor at the start, nothing to read. */
  function New(): (it: Iterator)
    ensures Valid(it) && it.elements == [] && it.currentIndex == 0
    ensures !HasNext(it)
  {
    Iterator(0, 0, [])
  }

  /** Appends one element at the end of the buffer and counts it; the
      cursor does not move. */
  function AddElement(it: Iterator, e: int): (r: Iterator)
    ensures r.elements == it.elements + [e]
    ensures r.size == it.size + 1
    ensures r.currentIndex == it.currentIndex
    ensures Valid(it) ==> Valid(r)
  {
    Iterator(it.size + 1, it.currentIndex, it.elements + [e])
  }

  /** True exactly when the cursor has not yet passed the last buffered
      element. */
  function HasNext(it: Iterator): (b: bool)
    ensures Valid(it) ==> (b <==> it.currentIndex < |it.elements|)
  {
    it.currentIndex < it.size
  }

  /** Reads the element under the cursor and advances the cursor by one;
      fails without moving the cursor when there is no such element. */
  function Next(it: Iterator): (r: Result<(Iterator, int)>)
    ensures Valid(it) ==> (r.Ok? <==> HasNext(it))
    ensures r.Err? ==> r.error == IndexOutOfBounds
    ensures r.Ok? ==>
      && 0 <= it.currentIndex < |it.elements|
      && r.value.1 == it.elements[it.currentIndex]
      && r.value.0.currentIndex == it.currentIndex + 1
      && r.value.0.elements == it.elements
      && r.value.0.size == it.size
    ensures r.Ok? && Valid(it) ==> Valid(r.value.0)
  {
    if 0 <= it.currentIndex < |it.elements| then
      Ok((it.(currentIndex := it.currentIndex + 1), it.elements[it.currentIndex]))
    else
      Err(IndexOutOfBounds)
  }

  /** The caller's loop `while (hasNext()) next()`: it reads every element
      not yet read, in the order they were added, and stops with the cursor
      at the end of the buffer. */
  method Drain(it: Iterator) returns (out: seq<int>, rest: Iterator)
    requires Valid(it)
    ensures out == it.elements[it.currentIndex..]
    ensures rest.elements == it.elements && Valid(rest)
    ensures rest.currentIndex == rest.size && !HasNext(rest)
  {
    out := [];
    rest := it;
    while HasNext(rest)
      invariant Valid(rest) && rest.elements == it.elements
      invariant it.currentIndex <= rest.currentIndex
      invariant out == it.elements[it.currentIndex..rest.currentIndex]
      decreases rest.size - rest.currentIndex
    {
      var step := Next(rest);
      out := out + [step.value.1];
      rest := step.value.0;
    }
  }
}
