/**
 * Repeated extraction of the minimum: what a caller sees by popping a heap
 * until it is empty, each pop reducing the root's children by the chunked
 * `mergePairs` (index.js, `Heap.pop`).
 */
module Extraction {
  import opened Wrappers
  import opened Lists
  import opened Heaps
  import opened MergePairsEngine

  /** No two distinct items compare equal. */
  ghost predicate Antisymmetric<T(!new)>(cmp: Comparator<T>)
  {
    forall x, y :: cmp(x, y) <= 0 && cmp(y, x) <= 0 ==> x == y
  }

  lemma NaturalOrderIsAntisymmetric()
    ensures Antisymmetric(NaturalOrder)
  {
  }

  /** Every item of `s` compares at most equal to every later one. */
  ghost predicate Sorted<T>(s: seq<T>, cmp: Comparator<T>)
  {
    forall i, j :: 0 <= i < j < |s| ==> cmp(s[i], s[j]) <= 0
  }

  /** The items in the order successive `getMin` and `pop` calls yield them. */
  function Drain<T(!new)>(h: Heap<T>, cmp: Comparator<T>): seq<T>
    decreases |Elements(h)|
  {
    if h.Empty? then []
    else
      PopShrinks(h, cmp);
      [h.item] + Drain(Popped(h, cmp), cmp)
  }

  /** The heap left after one pop of a non-empty heap. */
  function Popped<T(!new)>(h: Heap<T>, cmp: Comparator<T>): Heap<T>
    requires h.Node?
  {
    RunChunks(h.children, None, WorkUnitSize, cmp)
  }

  /** One pop removes exactly the root item. */
  lemma PopShrinks<T(!new)>(h: Heap<T>, cmp: Comparator<T>)
    requires h.Node?
    ensures Elements(Popped(h, cmp)) == Elements(h) - multiset{h.item}
    ensures |Elements(Popped(h, cmp))| < |Elements(h)|
  {
    RunChunksCorrect(h.children, None, WorkUnitSize, cmp);
  }

  /**
   * One pop: the drain is the root followed by the drain of what is left,
   * which holds every other item and is well formed when the heap was.
   */
  lemma PopStep<T(!new)>(h: Heap<T>, cmp: Comparator<T>)
    requires h.Node?
    ensures Drain(h, cmp) == [h.item] + Drain(Popped(h, cmp), cmp)
    ensures Elements(Popped(h, cmp)) == Elements(h) - multiset{h.item}
    ensures TotalPreorder(cmp) && WellFormed(h, cmp) ==> WellFormed(Popped(h, cmp), cmp)
  {
    RunChunksCorrect(h.children, None, WorkUnitSize, cmp);
  }

  /** Draining yields exactly the heap's items. */
  lemma {:induction false} DrainElements<T(!new)>(h: Heap<T>, cmp: Comparator<T>)
    ensures multiset(Drain(h, cmp)) == Elements(h)
    decreases |Elements(h)|
  {
    if h.Node? {
      PopStep(h, cmp);
      DrainElements(Popped(h, cmp), cmp);
      assert Elements(h) == multiset{h.item} + (Elements(h) - multiset{h.item});
    }
  }

  /** The root of a well-formed heap bounds everything a pop leaves behind. */
  lemma RootBoundsPopped<T(!new)>(h: Heap<T>, cmp: Comparator<T>)
    requires TotalPreorder(cmp) && h.Node? && WellFormed(h, cmp)
    ensures LowerBound(cmp, h.item, Elements(Popped(h, cmp)))
  {
    PopShrinks(h, cmp);
    GetMinIsLeast(h, cmp);
    forall y | y in Elements(Popped(h, cmp))
      ensures cmp(h.item, y) <= 0
    {
      assert y in Elements(h);
    }
  }

  /**
   * Draining a well-formed heap is a heap sort: it yields exactly the heap's
   * items, least first.
   */
  lemma {:induction false} DrainSorts<T(!new)>(h: Heap<T>, cmp: Comparator<T>)
    requires TotalPreorder(cmp) && WellFormed(h, cmp)
    ensures multiset(Drain(h, cmp)) == Elements(h)
    ensures Sorted(Drain(h, cmp), cmp)
    decreases |Elements(h)|
  {
    DrainElements(h, cmp);
    if h.Node? {
      var r := Popped(h, cmp);
      PopStep(h, cmp);
      DrainSorts(r, cmp);
      RootBoundsPopped(h, cmp);
      SortedCons(h.item, Drain(r, cmp), cmp);
    }
  }

  /** A lower bound of a sorted sequence's items can go in front of it. */
  lemma SortedCons<T>(x: T, t: seq<T>, cmp: Comparator<T>)
    requires Sorted(t, cmp) && LowerBound(cmp, x, multiset(t))
    ensures Sorted([x] + t, cmp)
  {
    var s := [x] + t;
    forall i, j | 0 <= i < j < |s|
      ensures cmp(s[i], s[j]) <= 0
    {
      assert s[j] == t[j - 1] && t[j - 1] in multiset(t);
      if i > 0 {
        assert s[i] == t[i - 1];
      }
    }
  }

  /**
   * Under an antisymmetric order the extraction sequence depends on the
   * items alone, not on the shape of the tree holding them.
   */
  lemma {:induction false} DrainDependsOnlyOnElements<T(!new)>(h1: Heap<T>, h2: Heap<T>, cmp: Comparator<T>)
    requires TotalPreorder(cmp) && Antisymmetric(cmp)
    requires WellFormed(h1, cmp) && WellFormed(h2, cmp) && Elements(h1) == Elements(h2)
    ensures Drain(h1, cmp) == Drain(h2, cmp)
    decreases |Elements(h1)|
  {
    if h1.Node? {
      SameLeastRoot(h1, h2, cmp);
      PopStep(h1, cmp);
      PopStep(h2, cmp);
      DrainDependsOnlyOnElements(Popped(h1, cmp), Popped(h2, cmp), cmp);
    }
  }

  /** Two well-formed heaps with the same items have the same root, when ties are impossible. */
  lemma SameLeastRoot<T(!new)>(h1: Heap<T>, h2: Heap<T>, cmp: Comparator<T>)
    requires TotalPreorder(cmp) && Antisymmetric(cmp) && h1.Node?
    requires WellFormed(h1, cmp) && WellFormed(h2, cmp) && Elements(h1) == Elements(h2)
    ensures h2.Node? && h1.item == h2.item
  {
    assert h1.item in Elements(h2);
    GetMinIsLeast(h1, cmp);
    GetMinIsLeast(h2, cmp);
  }

  /**
   * The chunked reduction is observably the one-pass reduction: draining
   * either gives the same sequence of items.
   */
  lemma ChunkedDrainsLikeSync<T(!new)>(list: List<Heap<T>>, cmp: Comparator<T>)
    requires TotalPreorder(cmp) && Antisymmetric(cmp) && AllWellFormed(list, cmp)
    ensures Drain(RunChunks(list, None, WorkUnitSize, cmp), cmp) == Drain(SyncMergePairs(list, cmp), cmp)
  {
    ChunkedAgreesWithSync(list, WorkUnitSize, cmp);
    DrainDependsOnlyOnElements(RunChunks(list, None, WorkUnitSize, cmp), SyncMergePairs(list, cmp), cmp);
  }
}
