/** Repeatedly popping a heap yields its elements in non-decreasing order;
    this is what the source's tests observe. */
module Drain {
  import opened Options
  import opened Heap

  predicate Sorted(s: seq<int>) {
    forall i, j :: 0 <= i < j < |s| ==> s[i] <= s[j]
  }

  /** Pops until `pop` returns `None`, collecting the popped values; `rest`
      is the heap left behind. */
  method DrainAll(h: BinaryHeap) returns (out: seq<int>, rest: BinaryHeap)
    requires h.Valid()
    ensures Sorted(out)
    ensures multiset(out) == multiset(h.elems)
    ensures rest.Valid() && rest.elems == []
  {
    out := [];
    var cur := h;
    while true
      invariant cur.Valid()
      invariant Sorted(out)
      invariant multiset(out) + multiset(cur.elems) == multiset(h.elems)
      invariant forall i, y :: 0 <= i < |out| && y in cur.elems ==> out[i] <= y
      decreases |cur.elems|
    {
      var next, r := Pop(cur);
      match r {
        case None =>
          break;
        case Some(x) =>
          forall y | y in next.elems
            ensures y in cur.elems
          {
            assert y in multiset(next.elems);
          }
          assert x == cur.elems[0] && x in cur.elems;
          out := out + [x];
          cur := next;
      }
    }
    rest := cur;
  }

  /** A sequence of `push` calls, starting from `h`. */
  method PushAll(h: BinaryHeap, vs: seq<int>) returns (h': BinaryHeap)
    requires h.Valid()
    ensures h'.Valid()
    ensures |h'.elems| == |h.elems| + |vs|
    ensures multiset(h'.elems) == multiset(h.elems) + multiset(vs)
  {
    h' := h;
    var k := 0;
    while k < |vs|
      invariant k <= |vs|
      invariant h'.Valid()
      invariant |h'.elems| == |h.elems| + k
      invariant multiset(h'.elems) == multiset(h.elems) + multiset(vs[..k])
    {
      assert vs[..k + 1] == vs[..k] + [vs[k]];
      h' := Push(h', vs[k]);
      k := k + 1;
    }
    assert vs[..k] == vs;
  }

  /** Pushing every value into a new heap and then draining it sorts them. */
  method SortByPush(vs: seq<int>) returns (out: seq<int>)
    ensures Sorted(out) && multiset(out) == multiset(vs)
  {
    var h := PushAll(WithCapacity(|vs|), vs);
    out, h := DrainAll(h);
  }

  /** Heapifying the values and then draining the heap sorts them. */
  method SortByFrom(vs: seq<int>) returns (out: seq<int>)
    ensures Sorted(out) && multiset(out) == multiset(vs)
  {
    var h := From(vs);
    out, h := DrainAll(h);
  }

  /** Heapifying and draining yields the one sorted arrangement of the
      input, whatever order the input came in. */
  method SortByFromIs(vs: seq<int>, sorted: seq<int>) returns (out: seq<int>)
    requires Sorted(sorted) && multiset(sorted) == multiset(vs)
    ensures out == sorted
  {
    out := SortByFrom(vs);
    SortedUnique(out, sorted);
  }

  /** `pop` is determined by the contents: it returns their least value. */
  method PopLeast(h: BinaryHeap, least: int) returns (h': BinaryHeap, r: Option<int>)
    requires h.Valid()
    requires least in multiset(h.elems) && forall y :: y in multiset(h.elems) ==> least <= y
    ensures r == Some(least)
    ensures h'.Valid() && multiset(h'.elems) == multiset(h.elems) - multiset{least}
  {
    assert h.elems[0] in multiset(h.elems) && least in h.elems;
    h', r := Pop(h);
  }

  /** The head of a sorted sequence is its least element. */
  lemma SortedHeadIsLeast(x: seq<int>, v: int)
    requires Sorted(x) && v in multiset(x)
    ensures x[0] <= v
  {
  }

  /** A multiset has exactly one sorted arrangement, so any drain of a heap
      is determined by the heap's contents alone. */
  lemma {:induction false} SortedUnique(x: seq<int>, y: seq<int>)
    requires Sorted(x) && Sorted(y) && multiset(x) == multiset(y)
    ensures x == y
    decreases |x|
  {
    assert |x| == |multiset(x)| == |multiset(y)| == |y|;
    if |x| > 0 {
      assert y[0] in multiset(y) && x[0] in multiset(x);
      SortedHeadIsLeast(x, y[0]);
      SortedHeadIsLeast(y, x[0]);
      assert x == [x[0]] + x[1..];
      assert y == [y[0]] + y[1..];
      assert multiset(x) == multiset{x[0]} + multiset(x[1..]);
      assert multiset(y) == multiset{y[0]} + multiset(y[1..]);
      assert x[0] == y[0];
      assert multiset(x[1..]) == multiset(x) - multiset{x[0]};
      assert multiset(y[1..]) == multiset(y) - multiset{y[0]};
      assert Sorted(x[1..]) && Sorted(y[1..]);
      SortedUnique(x[1..], y[1..]);
    }
  }
}
