/** The concrete scenarios of the source's test module, derived from the
    contracts of `push`, `pop` and `from` alone. */
module Examples {
  import opened Options
  import opened HeapIndex
  import opened Heap
  import opened Drain

  /** `push_test`, step 1: six pushes into a heap made with `with_capacity(5)`. */
  method PushSix() returns (bob: BinaryHeap)
    ensures bob.Valid() && multiset(bob.elems) == multiset{5, 11, 3, 7, 1, 7}
  {
    bob := PushAll(WithCapacity(5), [5, 11, 3, 7, 1, 7]);
    assert multiset([5, 11, 3, 7, 1, 7]) == multiset{5, 11, 3, 7, 1, 7};
  }

  /** `push_test`, step 2: the first pop returns 1. */
  method PopOne(bob: BinaryHeap) returns (bob': BinaryHeap, r: Option<int>)
    requires bob.Valid() && multiset(bob.elems) == multiset{5, 11, 3, 7, 1, 7}
    ensures r == Some(1)
    ensures bob'.Valid() && multiset(bob'.elems) == multiset{5, 11, 3, 7, 7}
  {
    bob', r := PopLeast(bob, 1);
  }

  /** `push_test`, step 3: the second pop returns 3. */
  method PopThree(bob: BinaryHeap) returns (bob': BinaryHeap, r: Option<int>)
    requires bob.Valid() && multiset(bob.elems) == multiset{5, 11, 3, 7, 7}
    ensures r == Some(3)
    ensures bob'.Valid() && multiset(bob'.elems) == multiset{5, 11, 7, 7}
  {
    bob', r := PopLeast(bob, 3);
  }

  /** `push_test`, step 4: push 2, pop until the heap is empty, then pop
      once more. */
  method PushTwoAndDrain(bob: BinaryHeap) returns (rest: seq<int>, last: Option<int>)
    requires bob.Valid() && multiset(bob.elems) == multiset{5, 11, 7, 7}
    ensures rest == [2, 5, 7, 7, 11]
    ensures last == None
  {
    var h := Push(bob, 2);
    rest, h := DrainAll(h);
    h, last := Pop(h);
    RestFacts(rest);
    SortedUnique(rest, [2, 5, 7, 7, 11]);
  }

  lemma RestFacts(rest: seq<int>)
    requires multiset(rest) == multiset{5, 11, 7, 7} + multiset{2}
    ensures Sorted([2, 5, 7, 7, 11]) && multiset(rest) == multiset([2, 5, 7, 7, 11])
  {
  }

  /** `push_test`: every value popped, in order, and the final pop that
      reports absence. */
  method PushTest() returns (popped: seq<int>, last: Option<int>)
    ensures popped == [1, 3, 2, 5, 7, 7, 11]
    ensures last == None
  {
    var bob := PushSix();
    var r1, r2;
    bob, r1 := PopOne(bob);
    bob, r2 := PopThree(bob);
    var rest;
    rest, last := PushTwoAndDrain(bob);
    popped := [r1.value, r2.value] + rest;
  }

  lemma SteveSorted()
    ensures Sorted([2, 2, 4, 5, 8, 9, 22])
  {
  }

  lemma SteveInputContents()
    ensures multiset([8, 4, 5, 2, 2, 9, 22]) == multiset{8, 4, 5, 2, 2, 9, 22}
  {
  }

  lemma SteveOutputContents()
    ensures multiset([2, 2, 4, 5, 8, 9, 22]) == multiset{2, 2, 4, 5, 8, 9, 22}
  {
  }

  lemma SteveSameContents()
    ensures multiset{2, 2, 4, 5, 8, 9, 22} == multiset{8, 4, 5, 2, 2, 9, 22}
  {
  }

  lemma JohnFacts()
    ensures Sorted([1, 2, 3]) && multiset([1, 2, 3]) == multiset([2, 3, 1])
  {
  }

  /** `from_test`: heapifying `[8, 4, 5, 2, 2, 9, 22]` and draining it. */
  method FromTestSteve() returns (steve: seq<int>)
    ensures steve == [2, 2, 4, 5, 8, 9, 22]
  {
    SteveSorted();
    SteveInputContents();
    SteveOutputContents();
    SteveSameContents();
    steve := SortByFromIs([8, 4, 5, 2, 2, 9, 22], [2, 2, 4, 5, 8, 9, 22]);
  }

  /** `from_test`: heapifying `[2, 3, 1]` and draining it. */
  method FromTestJohn() returns (john: seq<int>)
    ensures john == [1, 2, 3]
  {
    JohnFacts();
    john := SortByFromIs([2, 3, 1], [1, 2, 3]);
  }

  lemma OutsideSubtreeOfOne()
    ensures !InSubtree(0, 1) && !InSubtree(2, 1) && !InSubtree(5, 1) && !InSubtree(6, 1)
  {
  }

  lemma SubtreesOfOneAreHeaps()
    ensures ChildSubtreesHeap([0, 9, 5, 4, 4, 7, 1], 1)
  {
  }

  lemma NotHeapAboveOne()
    ensures !HeapFrom([0, 9, 5, 4, 4, 7, 1], 2)
  {
    assert Parent(6) == Some(2);
  }

  /** `sink(1)` needs only the two subtrees of 1 to be heaps: here the edge
      from 2 to 6 is out of order, yet the subtree of 1 becomes a heap and
      the positions outside it keep their values. */
  method SinkInsideSubtree() returns (b: seq<int>)
    ensures !HeapFrom([0, 9, 5, 4, 4, 7, 1], 2)
    ensures |b| == 7 && SubtreeHeap(b, 1)
    ensures b[0] == 0 && b[2] == 5 && b[5] == 7 && b[6] == 1
  {
    OutsideSubtreeOfOne();
    SubtreesOfOneAreHeaps();
    NotHeapAboveOne();
    b := Sink([0, 9, 5, 4, 4, 7, 1], 1);
  }

  /** Popping a new heap reports absence and leaves it empty. */
  method EmptyPopTest() returns (h: BinaryHeap, r: Option<int>)
    ensures r == None && h.elems == []
  {
    h, r := Pop(New());
  }
}
