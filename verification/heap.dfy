/** The array-backed min-heap `BinaryHeap<T: Ord>(Vec<T>)` with elements
    modelled as `int`. Every `&mut self` operation is modelled as a method
    that takes the current contents and returns the new ones. */
module Heap {
  import opened Options
  import opened HeapIndex
  import opened VecOps

  /** The min-heap property: every non-root element is at least its parent. */
  predicate IsHeap(a: seq<int>) {
    forall c :: 0 < c < |a| ==> a[Parent(c).value] <= a[c]
  }

  /** The invariant read from the other side: every node is no larger than
      the children it has. */
  lemma HeapIffChildrenAtLeast(a: seq<int>)
    ensures IsHeap(a) <==> forall p :: 0 <= p < |a| ==> ChildrenAtLeast(a, p, a[p])
  {
    if IsHeap(a) {
      forall p, c | 0 <= p < |a| && (c == Left(p) || c == Right(p)) && c < |a|
        ensures a[p] <= a[c]
      {
        ParentOfChild(p, c);
      }
    }
    if forall p :: 0 <= p < |a| ==> ChildrenAtLeast(a, p, a[p]) {
      forall c | 0 < c < |a|
        ensures a[Parent(c).value] <= a[c]
      {
        assert ChildrenAtLeast(a, Parent(c).value, a[Parent(c).value]);
      }
    }
  }

  /** Every edge whose parent index is at least `k` is ordered, that is,
      every index `>= k` roots a valid sub-heap. */
  predicate HeapFrom(a: seq<int>, k: nat) {
    forall c :: 0 < c < |a| && k <= Parent(c).value ==> a[Parent(c).value] <= a[c]
  }

  /** Every child of `i` that exists holds a value of at least `x`. */
  predicate ChildrenAtLeast(a: seq<int>, i: nat, x: int) {
    (Left(i) < |a| ==> x <= a[Left(i)]) && (Right(i) < |a| ==> x <= a[Right(i)])
  }

  /** `a` is a heap except that `a[i]` may be smaller than its parent; that
      parent is still no larger than the children of `i`. This is the shape
      left behind by appending a value, and the one `float` works on. */
  predicate HeapExceptAt(a: seq<int>, i: nat) {
    (forall c :: 0 < c < |a| && c != i ==> a[Parent(c).value] <= a[c]) &&
    (0 < i < |a| ==> ChildrenAtLeast(a, i, a[Parent(i).value]))
  }

  /** `j` lies in the subtree rooted at `r`: `r` is `j` itself or one of
      its ancestors. */
  predicate InSubtree(j: nat, r: nat)
    decreases j
  {
    j == r || (r < j && InSubtree(Parent(j).value, r))
  }

  /** Every edge inside the subtree rooted at `r` is ordered: that subtree
      is a heap. */
  predicate SubtreeHeap(a: seq<int>, r: nat) {
    forall c :: 0 < c < |a| && InSubtree(Parent(c).value, r) ==> a[Parent(c).value] <= a[c]
  }

  /** Both subtrees below `r` are heaps: every edge inside the subtree of `r`
      is ordered, except the edges leaving `r` itself. */
  predicate ChildSubtreesHeap(a: seq<int>, r: nat) {
    forall c :: 0 < c < |a| && InSubtree(Parent(c).value, r) && Parent(c).value != r
      ==> a[Parent(c).value] <= a[c]
  }

  /** The state while sinking from `root` with the moving element at `hole`:
      `hole` lies in the subtree of `root`, every edge of that subtree is
      ordered except the edges leaving `hole`, and the parent of `hole` (once
      `hole` has moved below `root`) is no larger than the children of `hole`. */
  predicate SinkInvariant(a: seq<int>, root: nat, hole: nat) {
    InSubtree(hole, root) &&
    (forall c :: 0 < c < |a| && InSubtree(Parent(c).value, root) && Parent(c).value != hole
       ==> a[Parent(c).value] <= a[c]) &&
    (root < hole ==> hole < |a| && InSubtree(Parent(hole).value, root)
                     && ChildrenAtLeast(a, hole, a[Parent(hole).value]))
  }

  /** The heap itself: the backing vector. */
  datatype BinaryHeap = BinaryHeap(elems: seq<int>) {
    predicate Valid() { IsHeap(elems) }
  }

  /** `BinaryHeap::new`: the empty heap. */
  function New(): (h: BinaryHeap)
    ensures h.elems == [] && h.Valid()
  {
    BinaryHeap([])
  }

  /** `BinaryHeap::with_capacity`: the reservation is a performance hint only,
      so the heap is indistinguishable from `new()`. */
  function WithCapacity(cap: nat): (h: BinaryHeap)
    ensures h == New()
  {
    BinaryHeap([])
  }

  /** `std::cmp::min`: the second argument only when it is strictly smaller,
      so on a tie the first argument wins. */
  function Min(x: int, y: int): (m: int)
    ensures m <= x && m <= y
    ensures m == x || m == y
  {
    if y < x then y else x
  }

  /** The child `sink` moves the element at `i` to, or `None` when it stops:
      the smaller existing child (the left one on a tie, or when it is the
      only child), provided that it is strictly smaller than `a[i]`. */
  function SinkTarget(a: seq<int>, i: nat): (r: Option<nat>)
    ensures r.Some? ==> i < r.value < |a| && (r.value == Left(i) || r.value == Right(i))
    ensures r.Some? ==> a[r.value] < a[i] && ChildrenAtLeast(a, i, a[r.value])
    ensures r == Some(Right(i)) ==> a[Right(i)] < a[Left(i)]
    ensures r.None? <==> i >= |a| || ChildrenAtLeast(a, i, a[i])
  {
    var left := Left(i);
    var right := Right(i);
    var candidate: Option<int> :=
      if right < |a| then Some(Min(a[left], a[right]))
      else if left < |a| then Some(a[left])
      else None;
    if candidate.Some? && candidate.value < a[i] then
      if candidate.value == a[left] then Some(left) else Some(right)
    else None
  }

  /** One iteration of `float` turns the gap at `k` into a gap at its parent. */
  lemma FloatStep(a: seq<int>, k: nat)
    requires 0 < k < |a| && HeapExceptAt(a, k)
    requires a[Parent(k).value] > a[k]
    ensures HeapExceptAt(Swap(a, Parent(k).value, k), Parent(k).value)
  {
    var p := Parent(k).value;
    var b := Swap(a, p, k);
    forall c | 0 < c < |b| && c != p
      ensures b[Parent(c).value] <= b[c]
    {
      var q := Parent(c).value;
      if c == k {
      } else if q == k {
        ParentOfChild(k, c);
      } else if q == p {
        assert a[p] <= a[c];
      } else {
        assert b[q] == a[q] && b[c] == a[c];
      }
    }
    if 0 < p {
      var g := Parent(p).value;
      assert a[g] <= a[p];
      forall c | c == Left(p) || c == Right(p)
        ensures c < |b| ==> b[g] <= b[c]
      {
        ParentOfChild(p, c);
      }
    }
  }

  /** `float(i)`: sift-up. While `i` has a parent that is strictly greater,
      swap the two and continue from the parent. */
  method Float(a: seq<int>, i: nat) returns (b: seq<int>)
    requires HeapExceptAt(a, i)
    ensures |b| == |a| && multiset(b) == multiset(a)
    ensures IsHeap(b)
    ensures forall j :: i < j < |a| ==> b[j] == a[j]
    ensures (i == 0 || i >= |a| || a[Parent(i).value] <= a[i]) ==> b == a
  {
    b := a;
    var cur: nat := i;
    while Parent(cur).Some?
      invariant |b| == |a| && multiset(b) == multiset(a)
      invariant cur <= i && (cur < i ==> cur < |b|)
      invariant HeapExceptAt(b, cur)
      invariant forall j :: i < j < |a| ==> b[j] == a[j]
      invariant (i == 0 || i >= |a| || a[Parent(i).value] <= a[i]) ==> cur == i && b == a
      decreases cur
    {
      var parent := Parent(cur).value;
      if parent < |b| && cur < |b| && b[parent] > b[cur] {
        FloatStep(b, cur);
        b := Swap(b, parent, cur);
        cur := parent;
      } else {
        break;
      }
    }
  }

  /** One iteration of `sink` moves the hole to the chosen child. */
  lemma SinkStep(a: seq<int>, root: nat, k: nat)
    requires SinkInvariant(a, root, k) && SinkTarget(a, k).Some?
    ensures SinkInvariant(Swap(a, k, SinkTarget(a, k).value), root, SinkTarget(a, k).value)
  {
    var t := SinkTarget(a, k).value;
    var b := Swap(a, k, t);
    ParentOfChild(k, t);
    assert InSubtree(t, root);
    forall c | 0 < c < |b| && InSubtree(Parent(c).value, root) && Parent(c).value != t
      ensures b[Parent(c).value] <= b[c]
    {
      var q := Parent(c).value;
      if c == k {
        assert a[q] <= a[t];
      } else if q == k {
        ParentOfChild(k, c);
      } else {
        assert b[q] == a[q] && b[c] == a[c];
      }
    }
    forall c | c == Left(t) || c == Right(t)
      ensures c < |b| ==> b[k] <= b[c]
    {
      ParentOfChild(t, c);
    }
  }

  /** Swapping two positions of the subtree of `root` keeps every position
      outside it. */
  lemma SwapInsideSubtree(a: seq<int>, b: seq<int>, root: nat, k: nat, t: nat)
    requires |b| == |a| && k < |b| && t < |b| && InSubtree(k, root) && InSubtree(t, root)
    requires forall j :: 0 <= j < |a| && !InSubtree(j, root) ==> b[j] == a[j]
    ensures forall j :: 0 <= j < |a| && !InSubtree(j, root) ==> Swap(b, k, t)[j] == a[j]
  {
  }

  /** When `sink` stops, the subtree rooted at `root` is a heap. */
  lemma SinkDone(a: seq<int>, root: nat, k: nat)
    requires SinkInvariant(a, root, k) && SinkTarget(a, k).None?
    ensures SubtreeHeap(a, root)
  {
  }

  /** An index outside the subtree of `r` has no descendant inside it other
      than through `r`, so its edges are ordered in `b` when `b` agrees with
      `a` outside the subtree and `a` was ordered above `r`. */
  lemma SubtreeHeapExtends(a: seq<int>, b: seq<int>, r: nat)
    requires |b| == |a| && HeapFrom(a, r + 1) && SubtreeHeap(b, r)
    requires forall j :: 0 <= j < |a| && !InSubtree(j, r) ==> b[j] == a[j]
    ensures HeapFrom(b, r)
  {
  }

  /** `sink(index)`: sift-down. While the chosen child is strictly smaller,
      swap it with the current element and continue from the child. */
  method Sink(a: seq<int>, index: nat) returns (b: seq<int>)
    requires ChildSubtreesHeap(a, index)
    ensures |b| == |a| && multiset(b) == multiset(a)
    ensures SubtreeHeap(b, index)
    ensures forall j :: 0 <= j < |a| && !InSubtree(j, index) ==> b[j] == a[j]
    ensures HeapFrom(a, index + 1) ==> HeapFrom(b, index)
    ensures SinkTarget(a, index).None? ==> b == a
  {
    b := a;
    var i: nat := index;
    while true
      invariant |b| == |a| && multiset(b) == multiset(a)
      invariant SinkInvariant(b, index, i)
      invariant forall j :: 0 <= j < |a| && !InSubtree(j, index) ==> b[j] == a[j]
      invariant SinkTarget(a, index).None? ==> i == index && b == a
      decreases |b| - i
    {
      match SinkTarget(b, i) {
        case None =>
          SinkDone(b, index, i);
          break;
        case Some(newIndex) =>
          SinkStep(b, index, i);
          SwapInsideSubtree(a, b, index, i, newIndex);
          b := Swap(b, i, newIndex);
          i := newIndex;
      }
    }
    if HeapFrom(a, index + 1) {
      SubtreeHeapExtends(a, b, index);
    }
  }

  /** In a heap the root is no larger than any element. */
  lemma {:induction false} RootIsMin(a: seq<int>, j: nat)
    requires IsHeap(a) && j < |a|
    ensures a[0] <= a[j]
    decreases j
  {
    if j > 0 {
      RootIsMin(a, Parent(j).value);
    }
  }

  /** `push(value)`: append, then float the new last element. */
  method Push(h: BinaryHeap, value: int) returns (h': BinaryHeap)
    requires h.Valid()
    ensures h'.Valid()
    ensures |h'.elems| == |h.elems| + 1
    ensures multiset(h'.elems) == multiset(h.elems) + multiset{value}
  {
    var a := h.elems + [value];
    var curIndex := |a| - 1;
    assert HeapExceptAt(a, curIndex) by {
      forall c | 0 < c < |a| && c != curIndex
        ensures a[Parent(c).value] <= a[c]
      {
        assert a[c] == h.elems[c];
      }
    }
    a := Float(a, curIndex);
    h' := BinaryHeap(a);
  }

  /** `pop()`: `None` on an empty heap; otherwise `swap_remove(0)` followed
      by `sink(0)`, returning the old root. */
  method Pop(h: BinaryHeap) returns (h': BinaryHeap, r: Option<int>)
    requires h.Valid()
    ensures h'.Valid()
    ensures r.None? <==> h.elems == []
    ensures r.None? ==> h' == h
    ensures r.Some? ==> r.value == h.elems[0] && forall x :: x in h.elems ==> r.value <= x
    ensures r.Some? ==> |h'.elems| == |h.elems| - 1
    ensures r.Some? ==> multiset(h'.elems) == multiset(h.elems) - multiset{r.value}
  {
    if |h.elems| == 0 {
      h' := h;
      r := None;
    } else {
      var top := h.elems[0];
      var a := SwapRemove(h.elems, 0);
      assert HeapFrom(a, 1) by {
        forall c | 0 < c < |a| && 1 <= Parent(c).value
          ensures a[Parent(c).value] <= a[c]
        {
          assert a[c] == h.elems[c] && a[Parent(c).value] == h.elems[Parent(c).value];
        }
      }
      a := Sink(a, 0);
      forall x | x in h.elems
        ensures top <= x
      {
        var j :| 0 <= j < |h.elems| && h.elems[j] == x;
        RootIsMin(h.elems, j);
      }
      h' := BinaryHeap(a);
      r := Some(top);
    }
  }

  /** `From<Vec<T>>::from`: bottom-up heapify, sinking every index from the
      last down to the first. */
  method From(v: seq<int>) returns (h: BinaryHeap)
    ensures h.Valid()
    ensures |h.elems| == |v| && multiset(h.elems) == multiset(v)
  {
    var a := v;
    var i: nat := |a|;
    while i > 0
      invariant i <= |a| == |v| && multiset(a) == multiset(v)
      invariant HeapFrom(a, i)
      decreases i
    {
      i := i - 1;
      a := Sink(a, i);
    }
    h := BinaryHeap(a);
  }
}
