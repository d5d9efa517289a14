/** Index arithmetic of the array-backed complete binary tree. */
module HeapIndex {
  import opened Options

  /** Left child of node `i`, computed inline in `sink` as `i * 2 + 1`. */
  function Left(i: nat): nat { 2 * i + 1 }

  /** Right child of node `i`, computed inline in `sink` as `i * 2 + 1 + 1`. */
  function Right(i: nat): nat { 2 * i + 2 }

  /** Parent of node `index`, or `None` for the root. */
  function Parent(index: nat): (r: Option<nat>)
    ensures r.None? <==> index == 0
    ensures r.Some? ==> r.value < index
    ensures r.Some? ==> index == Left(r.value) || index == Right(r.value)
  {
    if index == 0 then None else Some((index + 1) / 2 - 1)
  }

  /** `Parent` inverts both child computations, so a node is the parent of
      exactly its two children. */
  lemma ParentOfChild(p: nat, c: nat)
    ensures Parent(c) == Some(p) <==> c == Left(p) || c == Right(p)
  {
  }
}
