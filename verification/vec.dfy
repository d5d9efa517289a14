/** Value-level effect of the two `Vec` operations the heap relies on. */
module VecOps {

  /** `Vec::swap(i, j)`: exchanges two elements and changes nothing else. */
  function Swap(a: seq<int>, i: nat, j: nat): (r: seq<int>)
    requires i < |a| && j < |a|
    ensures |r| == |a|
    ensures r[i] == a[j] && r[j] == a[i]
    ensures forall k :: 0 <= k < |a| && k != i && k != j ==> r[k] == a[k]
    ensures multiset(r) == multiset(a)
  {
    a[i := a[j]][j := a[i]]
  }

  /** `Vec::swap_remove(i)`: removes the element at `i` and fills the gap
      with the last element; the remaining order is otherwise kept. */
  function SwapRemove(a: seq<int>, i: nat): (r: seq<int>)
    requires i < |a|
    ensures |r| == |a| - 1
    ensures i < |r| ==> r[i] == a[|a| - 1]
    ensures forall k :: 0 <= k < |r| && k != i ==> r[k] == a[k]
    ensures multiset(r) == multiset(a) - multiset{a[i]}
  {
    var last := |a| - 1;
    assert a == a[..last] + [a[last]];
    if i == last then a[..last] else a[..last][i := a[last]]
  }
}
