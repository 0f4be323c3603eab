/**
 * The mutable priority queue (index.js, class PairingHeap). It owns the
 * current root and a size counter, and replaces the root wholesale on every
 * insert and pop. Calls are modelled one after another, so the busy flag is
 * only ever true inside `Pop`.
 */
module Queue {
  import opened Wrappers
  import opened Lists
  import opened Heaps
  import opened MergePairsEngine
  import opened Extraction

  /** The two errors the queue throws: `'empty insert'` and `'heap empty'`. */
  datatype Error = EmptyInsert | HeapEmpty

  class PairingHeap<T(!new)> {
    const comparitor: Comparator<T>
    var size: nat
    var heap: Heap<T>
    var busy: bool

    /** The queue invariant between calls. */
    ghost predicate Valid()
      reads this
    {
      && TotalPreorder(comparitor)
      && WellFormed(heap, comparitor)
      && size == |Elements(heap)|
      && !busy
    }

    /** The items the queue holds. */
    ghost function Contents(): multiset<T>
      reads this
    {
      Elements(heap)
    }

    constructor (comparitor: Comparator<T>)
      requires TotalPreorder(comparitor)
      ensures Valid()
      ensures this.comparitor == comparitor
      ensures size == 0 && heap == Empty && !busy
      ensures Contents() == multiset{}
    {
      this.comparitor := comparitor;
      size := 0;
      heap := Empty;
      busy := false;
    }

    /** The `length` getter: the number of items held. */
    function Length(): (n: nat)
      reads this
      requires Valid()
      ensures n == |Contents()|
    {
      size
    }

    /** The `isEmpty` getter: a zero size and an empty root go together. */
    function IsEmpty(): (b: bool)
      reads this
      requires Valid()
      ensures b <==> Contents() == multiset{}
      ensures b <==> heap.Empty?
    {
      size == 0
    }

    /**
     * `insert(item)`: an absent item is refused and nothing changes;
     * otherwise the root is merged with a new one-item heap on its right.
     */
    method Insert(item: Option<T>) returns (r: Outcome<Error>)
      requires Valid()
      modifies this
      ensures Valid()
      ensures item.None? ==> r == Fail(EmptyInsert) && size == old(size) && heap == old(heap)
      ensures item.Some? ==> && r == Pass
                             && size == old(size) + 1
                             && Contents() == old(Contents()) + multiset{item.value}
                             && heap == Merge(old(heap), Singleton(item.value), comparitor)
    {
      if item.None? {
        return Fail(EmptyInsert);
      }
      size := size + 1;
      MergeWellFormed(heap, Singleton(item.value), comparitor);
      MergeElements(heap, Singleton(item.value), comparitor);
      heap := Merge(heap, Singleton(item.value), comparitor);
      r := Pass;
    }

    /** `peek()`: one of the least items, read from the root; nothing changes. */
    method Peek() returns (r: Result<T, Error>)
      requires Valid()
      ensures r.Failure? <==> size == 0
      ensures r.Failure? ==> r.error == HeapEmpty
      ensures r.Success? ==> r.value == heap.item && IsLeast(comparitor, r.value, Contents())
    {
      if IsEmpty() {
        return Failure(HeapEmpty);
      }
      GetMinIsLeast(heap, comparitor);
      r := Success(GetMin(heap));
    }

    /**
     * `pop()`: removes and returns the root item, one of the least, and
     * replaces the root by the reduction of its children; the busy flag
     * is raised for the reduction and lowered again.
     */
    method Pop() returns (r: Result<T, Error>)
      requires Valid()
      modifies this
      ensures Valid()
      ensures r.Failure? <==> old(size) == 0
      ensures r.Failure? ==> r.error == HeapEmpty && size == old(size) && heap == old(heap)
      ensures r.Success? ==> && r.value == old(heap).item
                             && IsLeast(comparitor, r.value, old(Contents()))
                             && Contents() == old(Contents()) - multiset{r.value}
                             && size == old(size) - 1
                             && heap == RunChunks(old(heap).children, None, WorkUnitSize, comparitor)
                             && Drain(old(heap), comparitor) == [r.value] + Drain(heap, comparitor)
    {
      if IsEmpty() {
        return Failure(HeapEmpty);
      }
      busy := true;
      var result := GetMin(heap);
      GetMinIsLeast(heap, comparitor);
      heap := DeleteMin(heap, comparitor);
      size := size - 1;
      busy := false;
      r := Success(result);
    }
  }

  /**
   * The queue test with two items, for any comparator that ranks `lo`
   * strictly before `hi` (the test uses `'a'` and `'b'` under the default
   * comparator): repeated peeks agree and do not change the length, and the
   * pops come out in order.
   */
  method InsertPeekPopScenario<T(!new)>(cmp: Comparator<T>, lo: T, hi: T)
      returns (peeks: seq<T>, pops: seq<T>, lengths: seq<nat>)
    requires TotalPreorder(cmp) && cmp(hi, lo) > 0
    ensures peeks == [lo, lo, hi]
    ensures pops == [lo, hi]
    ensures lengths == [0, 1, 2, 2, 1, 0]
  {
    var p := new PairingHeap(cmp);
    var n0 := p.Length();
    var _ := p.Insert(Some(lo));
    var n1 := p.Length();
    var _ := p.Insert(Some(hi));
    var n2 := p.Length();
    assert p.Contents() == multiset{lo, hi};
    var a := p.Peek();
    var b := p.Peek();
    var n3 := p.Length();
    assert a.value == lo by {
      assert cmp(a.value, lo) <= 0;
    }
    var c := p.Pop();
    assert c.value == lo by {
      assert cmp(c.value, lo) <= 0;
    }
    var n4 := p.Length();
    assert p.Contents() == multiset{hi} by {
      assert multiset{lo, hi} - multiset{lo} == multiset{hi};
    }
    var d := p.Peek();
    var e := p.Pop();
    var n5 := p.Length();
    peeks := [a.value, b.value, d.value];
    pops := [c.value, e.value];
    lengths := [n0, n1, n2, n3, n4, n5];
  }

  /**
   * The error cases, on a fresh queue: pop and peek report an empty heap,
   * and inserting no item is refused without changing the length.
   */
  method ErrorScenario<T(!new)>(cmp: Comparator<T>)
      returns (popped: Result<T, Error>, peeked: Result<T, Error>, inserted: Outcome<Error>, length: nat)
    requires TotalPreorder(cmp)
    ensures popped == Failure(HeapEmpty) && peeked == Failure(HeapEmpty)
    ensures inserted == Fail(EmptyInsert) && length == 0
  {
    var p := new PairingHeap(cmp);
    popped := p.Pop();
    peeked := p.Peek();
    inserted := p.Insert(None);
    length := p.Length();
  }
}
