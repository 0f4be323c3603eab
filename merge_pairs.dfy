/**
 * The delete-min reduction (index.js, `mergePairs`), without its Promise and
 * setImmediate wrapper: one callback becomes the step `Chunk`, the chain of
 * callbacks becomes `RunChunks`, and both are implemented by loops.
 */
module MergePairsEngine {
  import opened Wrappers
  import opened Lists
  import opened Heaps

  /** The number of sibling pairs one chunk merges before it yields. */
  const WorkUnitSize: nat := 32

  /** What one chunk hands on: the final heap, or the unread tail and what was merged so far. */
  datatype Step<T> = Done(result: Heap<T>) | Continue(rest: List<Heap<T>>, acc: Heap<T>)

  /** The items a step still stands for. */
  ghost function StepElements<T>(s: Step<T>): multiset<T>
  {
    match s
    case Done(h) => Elements(h)
    case Continue(rest, acc) => Elements(acc) + ListElements(rest)
  }

  /** Every heap a step hands on is well formed. */
  ghost predicate StepWellFormed<T>(s: Step<T>, cmp: Comparator<T>)
  {
    match s
    case Done(h) => WellFormed(h, cmp)
    case Continue(rest, acc) => WellFormed(acc, cmp) && AllWellFormed(rest, cmp)
  }

  ghost function OptionElements<T>(o: Option<Heap<T>>): multiset<T>
  {
    if o.Some? then Elements(o.value) else multiset{}
  }

  ghost predicate OptionWellFormed<T>(o: Option<Heap<T>>, cmp: Comparator<T>)
  {
    o.Some? ==> WellFormed(o.value, cmp)
  }

  /** One turn of the chunk loop: the next sibling, merged with the one after it if there is one. */
  function TakePair<T>(l: List<Heap<T>>, cmp: Comparator<T>): (Heap<T>, List<Heap<T>>)
    requires l.Cons?
  {
    if l.tail.Nil? then (l.head, Nil)
    else (Merge(l.head, l.tail.head, cmp), l.tail.tail)
  }

  /** Folds at most `n` pairs of `l` into the accumulator `b`, left to right. */
  function FoldPairs<T>(l: List<Heap<T>>, b: Heap<T>, n: nat, cmp: Comparator<T>): (Heap<T>, List<Heap<T>>)
    decreases n
  {
    if l.Nil? || n == 0 then (b, l)
    else
      var p := TakePair(l, cmp);
      FoldPairs(p.1, Merge(b, p.0, cmp), n - 1, cmp)
  }

  /**
   * One scheduled callback of `mergePairs(list, comparitor, previousResult)`:
   * fold up to `w` pairs from an empty accumulator, merge the previous
   * result in on the left, and finish or continue with the unread tail.
   */
  function Chunk<T>(list: List<Heap<T>>, prev: Option<Heap<T>>, w: nat, cmp: Comparator<T>): Step<T>
  {
    var (b, l) := FoldPairs(list, Empty, w, cmp);
    var b' := if prev.Some? then Merge(prev.value, b, cmp) else b;
    if l.Nil? then Done(b') else Continue(l, b')
  }

  /** The heap the chain of callbacks started on `list` finally resolves to. */
  function RunChunks<T>(list: List<Heap<T>>, prev: Option<Heap<T>>, w: nat, cmp: Comparator<T>): Heap<T>
    requires w > 0
    decreases Length(list)
  {
    match Chunk(list, prev, w, cmp)
    case Done(h) => h
    case Continue(rest, acc) =>
      ChunkProgress(list, prev, w, cmp);
      RunChunks(rest, Some(acc), w, cmp)
  }

  /** The heap a step will end in. */
  function Resume<T>(s: Step<T>, w: nat, cmp: Comparator<T>): Heap<T>
    requires w > 0
  {
    match s
    case Done(h) => h
    case Continue(rest, acc) => RunChunks(rest, Some(acc), w, cmp)
  }

  /**
   * The same pairing pass done in one go, with no chunk boundaries: a left
   * fold of the merged sibling pairs, an odd last sibling merged alone.
   */
  function FoldAll<T>(l: List<Heap<T>>, b: Heap<T>, cmp: Comparator<T>): Heap<T>
    decreases l
  {
    match l
    case Nil => b
    case Cons(h, Nil) => Merge(b, h, cmp)
    case Cons(h1, Cons(h2, t)) => FoldAll(t, Merge(b, Merge(h1, h2, cmp), cmp), cmp)
  }

  function SyncMergePairs<T>(l: List<Heap<T>>, cmp: Comparator<T>): Heap<T>
  {
    FoldAll(l, Empty, cmp)
  }

  // ---------------------------------------------------------------------
  // Properties of the specification functions

  /** One pair turn keeps every item. */
  lemma TakePairElements<T>(l: List<Heap<T>>, cmp: Comparator<T>)
    requires l.Cons?
    ensures var p := TakePair(l, cmp); Elements(p.0) + ListElements(p.1) == ListElements(l)
  {
    if l.tail.Cons? {
      MergeElements(l.head, l.tail.head, cmp);
      assert ListElements(l) == Elements(l.head) + (Elements(l.tail.head) + ListElements(l.tail.tail));
    }
  }

  /** Folding pairs keeps every item. */
  lemma {:induction false} FoldPairsElements<T>(l: List<Heap<T>>, b: Heap<T>, n: nat, cmp: Comparator<T>)
    ensures var f := FoldPairs(l, b, n, cmp);
      Elements(f.0) + ListElements(f.1) == Elements(b) + ListElements(l)
    decreases n
  {
    if l.Cons? && n > 0 {
      var p := TakePair(l, cmp);
      var b' := Merge(b, p.0, cmp);
      TakePairElements(l, cmp);
      MergeElements(b, p.0, cmp);
      FoldPairsElements(p.1, b', n - 1, cmp);
    }
  }

  /**
   * Folding `n` pairs reads at most two siblings per pair, advances whenever
   * it may, and stops before `n` pairs only at the end of the list.
   */
  lemma {:induction false} FoldPairsLength<T>(l: List<Heap<T>>, b: Heap<T>, n: nat, cmp: Comparator<T>)
    ensures var rest := FoldPairs(l, b, n, cmp).1;
      && Length(rest) <= Length(l) <= Length(rest) + 2 * n
      && (n > 0 && l.Cons? ==> Length(rest) < Length(l))
      && (rest.Cons? ==> Length(l) == Length(rest) + 2 * n)
    decreases n
  {
    if l.Cons? && n > 0 {
      var p := TakePair(l, cmp);
      assert Length(l) == Length(p.1) + 2 || (p.1.Nil? && Length(l) == 1);
      FoldPairsLength(p.1, Merge(b, p.0, cmp), n - 1, cmp);
    }
  }

  /** One pair turn over well-formed heaps yields a well-formed heap and leaves a well-formed tail. */
  lemma TakePairWellFormed<T(!new)>(l: List<Heap<T>>, cmp: Comparator<T>)
    requires TotalPreorder(cmp) && l.Cons? && AllWellFormed(l, cmp)
    ensures var p := TakePair(l, cmp); WellFormed(p.0, cmp) && AllWellFormed(p.1, cmp)
  {
    if l.tail.Cons? {
      assert WellFormed(l.tail.head, cmp) && AllWellFormed(l.tail.tail, cmp);
      MergeWellFormed(l.head, l.tail.head, cmp);
    }
  }

  /** Folding well-formed heaps into a well-formed accumulator keeps them well formed. */
  lemma {:induction false} FoldPairsWellFormed<T(!new)>(l: List<Heap<T>>, b: Heap<T>, n: nat, cmp: Comparator<T>)
    requires TotalPreorder(cmp) && AllWellFormed(l, cmp) && WellFormed(b, cmp)
    ensures var f := FoldPairs(l, b, n, cmp); WellFormed(f.0, cmp) && AllWellFormed(f.1, cmp)
    decreases n
  {
    if l.Cons? && n > 0 {
      var p := TakePair(l, cmp);
      assert FoldPairs(l, b, n, cmp) == FoldPairs(p.1, Merge(b, p.0, cmp), n - 1, cmp);
      TakePairWellFormed(l, cmp);
      MergeWellFormed(b, p.0, cmp);
      FoldPairsWellFormed(p.1, Merge(b, p.0, cmp), n - 1, cmp);
    }
  }

  /**
   * A chunk that does not finish hands on a strictly shorter, non-empty tail,
   * having read exactly `2 * w` siblings; so the chain of chunks terminates.
   */
  lemma ChunkProgress<T>(list: List<Heap<T>>, prev: Option<Heap<T>>, w: nat, cmp: Comparator<T>)
    requires w > 0
    ensures var s := Chunk(list, prev, w, cmp);
      s.Continue? ==> 0 < Length(s.rest) < Length(list) == Length(s.rest) + 2 * w
  {
    FoldPairsLength(list, Empty, w, cmp);
  }

  /** A chunk loses no item. */
  lemma ChunkElements<T>(list: List<Heap<T>>, prev: Option<Heap<T>>, w: nat, cmp: Comparator<T>)
    ensures StepElements(Chunk(list, prev, w, cmp)) == OptionElements(prev) + ListElements(list)
  {
    FoldPairsElements(list, Empty, w, cmp);
    var f := FoldPairs(list, Empty, w, cmp);
    var b' := if prev.Some? then Merge(prev.value, f.0, cmp) else f.0;
    if prev.Some? {
      MergeElements(prev.value, f.0, cmp);
    }
    assert Elements(b') == OptionElements(prev) + Elements(f.0);
    assert Elements(f.0) + ListElements(f.1) == ListElements(list) by {
      assert Elements<T>(Empty) == multiset{};
    }
    assert Chunk(list, prev, w, cmp) == if f.1.Nil? then Done(b') else Continue(f.1, b');
    assert StepElements(Chunk(list, prev, w, cmp)) == Elements(b') + ListElements(f.1);
  }

  /** A chunk over well-formed inputs hands on only well-formed heaps. */
  lemma ChunkWellFormed<T(!new)>(list: List<Heap<T>>, prev: Option<Heap<T>>, w: nat, cmp: Comparator<T>)
    requires TotalPreorder(cmp) && AllWellFormed(list, cmp) && OptionWellFormed(prev, cmp)
    ensures StepWellFormed(Chunk(list, prev, w, cmp), cmp)
  {
    FoldPairsWellFormed(list, Empty, w, cmp);
    if prev.Some? {
      MergeWellFormed(prev.value, FoldPairs(list, Empty, w, cmp).0, cmp);
    }
  }

  /**
   * The chain of chunks yields one heap holding exactly the list's items and
   * the previous result's; it is well formed when its inputs are. On an
   * empty list with no previous result it is the empty heap.
   */
  lemma {:induction false} RunChunksCorrect<T(!new)>(list: List<Heap<T>>, prev: Option<Heap<T>>, w: nat, cmp: Comparator<T>)
    requires w > 0
    ensures Elements(RunChunks(list, prev, w, cmp)) == OptionElements(prev) + ListElements(list)
    ensures TotalPreorder(cmp) && AllWellFormed(list, cmp) && OptionWellFormed(prev, cmp) ==>
      WellFormed(RunChunks(list, prev, w, cmp), cmp)
    ensures list.Nil? && prev.None? ==> RunChunks(list, prev, w, cmp) == Empty
    decreases Length(list)
  {
    ChunkElements(list, prev, w, cmp);
    if TotalPreorder(cmp) && AllWellFormed(list, cmp) && OptionWellFormed(prev, cmp) {
      ChunkWellFormed(list, prev, w, cmp);
    }
    match Chunk(list, prev, w, cmp)
    case Done(h) =>
    case Continue(rest, acc) =>
      ChunkProgress(list, prev, w, cmp);
      RunChunksCorrect(rest, Some(acc), w, cmp);
  }

  /**
   * The previous result is merged in on the left, so it wins ties: when its
   * root is a lower bound of the list's items it stays the root.
   */
  lemma {:induction false} RunChunksKeepsPreviousRoot<T(!new)>(list: List<Heap<T>>, p: Heap<T>, w: nat, cmp: Comparator<T>)
    requires w > 0 && p.Node? && LowerBound(cmp, p.item, ListElements(list))
    ensures var r := RunChunks(list, Some(p), w, cmp); r.Node? && r.item == p.item
    decreases Length(list)
  {
    FoldPairsElements(list, Empty, w, cmp);
    var f := FoldPairs(list, Empty, w, cmp);
    var b, l := f.0, f.1;
    var acc := Merge(p, b, cmp);
    assert Elements<T>(Empty) == multiset{};
    assert Elements(b) + ListElements(l) == ListElements(list);
    assert acc.item == p.item by {
      if b.Node? {
        assert b.item in ListElements(list);
      }
    }
    ChunkElements(list, Some(p), w, cmp);
    if l.Cons? {
      ChunkProgress(list, Some(p), w, cmp);
      forall z | z in ListElements(l)
        ensures cmp(acc.item, z) <= 0
      {
        assert z in Elements(b) + ListElements(l);
      }
      RunChunksKeepsPreviousRoot(l, acc, w, cmp);
    }
  }

  /** The one-pass fold keeps every item. */
  lemma {:induction false} FoldAllElements<T>(l: List<Heap<T>>, b: Heap<T>, cmp: Comparator<T>)
    ensures Elements(FoldAll(l, b, cmp)) == Elements(b) + ListElements(l)
    decreases l
  {
    match l
    case Nil =>
    case Cons(h, Nil) =>
      MergeElements(b, h, cmp);
    case Cons(h1, Cons(h2, t)) =>
      var b' := Merge(b, Merge(h1, h2, cmp), cmp);
      MergeElements(h1, h2, cmp);
      MergeElements(b, Merge(h1, h2, cmp), cmp);
      assert Elements(b') == Elements(b) + (Elements(h1) + Elements(h2));
      assert ListElements(l) == Elements(h1) + (Elements(h2) + ListElements(t));
      FoldAllElements(t, b', cmp);
  }

  /** The one-pass fold keeps well-formed heaps well formed. */
  lemma {:induction false} FoldAllWellFormed<T(!new)>(l: List<Heap<T>>, b: Heap<T>, cmp: Comparator<T>)
    requires TotalPreorder(cmp) && AllWellFormed(l, cmp) && WellFormed(b, cmp)
    ensures WellFormed(FoldAll(l, b, cmp), cmp)
    decreases l
  {
    match l
    case Nil =>
    case Cons(h, Nil) =>
      MergeWellFormed(b, h, cmp);
    case Cons(h1, Cons(h2, t)) =>
      assert WellFormed(h1, cmp) && WellFormed(h2, cmp) && AllWellFormed(t, cmp);
      MergeWellFormed(h1, h2, cmp);
      MergeWellFormed(b, Merge(h1, h2, cmp), cmp);
      FoldAllWellFormed(t, Merge(b, Merge(h1, h2, cmp), cmp), cmp);
  }

  /**
   * Chunk boundaries are unobservable up to contents and order: the chunked
   * and the one-pass reduction hold the same items, both are well formed,
   * and their roots compare equal.
   */
  lemma ChunkedAgreesWithSync<T(!new)>(list: List<Heap<T>>, w: nat, cmp: Comparator<T>)
    requires w > 0 && TotalPreorder(cmp) && AllWellFormed(list, cmp)
    ensures var c, s := RunChunks(list, None, w, cmp), SyncMergePairs(list, cmp);
      && Elements(c) == Elements(s) == ListElements(list)
      && WellFormed(c, cmp) && WellFormed(s, cmp)
      && (c.Node? <==> s.Node?)
      && (c.Node? ==> cmp(c.item, s.item) <= 0 && cmp(s.item, c.item) <= 0)
  {
    RunChunksCorrect(list, None, w, cmp);
    FoldAllElements(list, Empty, cmp);
    FoldAllWellFormed(list, Empty, cmp);
    var c, s := RunChunks(list, None, w, cmp), SyncMergePairs(list, cmp);
    if c.Node? {
      GetMinIsLeast(c, cmp);
      GetMinIsLeast(s, cmp);
    }
  }

  /** The left part of the shape example: singletons 1 to 7. */
  function ShapeExample(): List<Heap<int>>
  {
    Cons(Singleton(1), Cons(Singleton(2), Cons(Singleton(3), Cons(Singleton(4),
      Cons(Singleton(5), Cons(Singleton(6), Cons(Singleton(7), Nil)))))))
  }

  /** With two pairs per chunk, the first chunk of the example folds 1 to 4 and hands on 5 to 7. */
  lemma ShapeExampleFirstChunk()
    ensures Chunk(ShapeExample(), None, 2, NaturalOrder)
         == Continue(ShapeExample().tail.tail.tail.tail,
                     Node(1, Cons(Node(3, Cons(Singleton(4), Nil)), Cons(Singleton(2), Nil))))
  {
    var l := ShapeExample();
    var p12 := Merge(Singleton(1), Singleton(2), NaturalOrder);
    assert p12 == Node(1, Cons(Singleton(2), Nil));
    var p34 := Merge(Singleton(3), Singleton(4), NaturalOrder);
    assert p34 == Node(3, Cons(Singleton(4), Nil));
    assert FoldPairs(l, Empty, 2, NaturalOrder) == FoldPairs(l.tail.tail, p12, 1, NaturalOrder);
    assert FoldPairs(l.tail.tail, p12, 1, NaturalOrder)
        == FoldPairs(l.tail.tail.tail.tail, Merge(p12, p34, NaturalOrder), 0, NaturalOrder);
  }

  /** The second chunk folds 5 to 7 and merges the first chunk's heap in on the left. */
  lemma ShapeExampleSecondChunk(c1: Heap<int>)
    requires c1 == Node(1, Cons(Node(3, Cons(Singleton(4), Nil)), Cons(Singleton(2), Nil)))
    ensures Chunk(ShapeExample().tail.tail.tail.tail, Some(c1), 2, NaturalOrder)
         == Done(Node(1, Cons(Node(5, Cons(Singleton(7), Cons(Singleton(6), Nil))), c1.children)))
  {
    var l := ShapeExample().tail.tail.tail.tail;
    var p56 := Merge(Singleton(5), Singleton(6), NaturalOrder);
    assert p56 == Node(5, Cons(Singleton(6), Nil));
    assert FoldPairs(l, Empty, 2, NaturalOrder) == FoldPairs(l.tail.tail, p56, 1, NaturalOrder);
    assert FoldPairs(l.tail.tail, p56, 1, NaturalOrder)
        == FoldPairs(Nil, Merge(p56, Singleton(7), NaturalOrder), 0, NaturalOrder);
  }

  /** The one-pass fold of the example merges 5-6 and then 7 into the heap of 1 to 4. */
  lemma ShapeExampleSync()
    ensures SyncMergePairs(ShapeExample(), NaturalOrder)
         == Node(1, Cons(Singleton(7), Cons(Node(5, Cons(Singleton(6), Nil)),
              Cons(Node(3, Cons(Singleton(4), Nil)), Cons(Singleton(2), Nil)))))
  {
    var l := ShapeExample();
    var c1 := Node(1, Cons(Node(3, Cons(Singleton(4), Nil)), Cons(Singleton(2), Nil)));
    var p12 := Merge(Singleton(1), Singleton(2), NaturalOrder);
    var p34 := Merge(Singleton(3), Singleton(4), NaturalOrder);
    var p56 := Merge(Singleton(5), Singleton(6), NaturalOrder);
    assert FoldAll(l, Empty, NaturalOrder) == FoldAll(l.tail.tail, p12, NaturalOrder);
    assert FoldAll(l.tail.tail, p12, NaturalOrder) == FoldAll(l.tail.tail.tail.tail, c1, NaturalOrder);
    assert FoldAll(l.tail.tail.tail.tail, c1, NaturalOrder)
        == FoldAll(Cons(Singleton(7), Nil), Merge(c1, p56, NaturalOrder), NaturalOrder);
  }

  /**
   * Chunk boundaries are visible in the shape of the result: with two pairs
   * per chunk, seven singletons reduce to a different tree than in one pass,
   * because each chunk folds from its own empty accumulator.
   */
  lemma ChunkBoundariesChangeShape()
    ensures RunChunks(ShapeExample(), None, 2, NaturalOrder) != SyncMergePairs(ShapeExample(), NaturalOrder)
  {
    var c1 := Node(1, Cons(Node(3, Cons(Singleton(4), Nil)), Cons(Singleton(2), Nil)));
    ShapeExampleFirstChunk();
    ShapeExampleSecondChunk(c1);
    ShapeExampleSync();
    var rest := ShapeExample().tail.tail.tail.tail;
    assert RunChunks(ShapeExample(), None, 2, NaturalOrder) == RunChunks(rest, Some(c1), 2, NaturalOrder);
    assert RunChunks(rest, Some(c1), 2, NaturalOrder).children.head.item == 5;
  }

  // ---------------------------------------------------------------------
  // The loops

  /** One callback of `mergePairs`, with its loop over at most `WorkUnitSize` pairs. */
  method MergePairsChunk<T>(list: List<Heap<T>>, cmp: Comparator<T>, prev: Option<Heap<T>>) returns (s: Step<T>)
    ensures s == Chunk(list, prev, WorkUnitSize, cmp)
    ensures s.Continue? ==> 0 < Length(s.rest) < Length(list) == Length(s.rest) + 2 * WorkUnitSize
  {
    var a: Heap<T> := Empty;
    var b: Heap<T> := Empty;
    var l := list;
    var n: nat := WorkUnitSize;
    while !Lists.IsEmpty(l) && n > 0
      invariant FoldPairs(l, b, n, cmp) == FoldPairs(list, Empty, WorkUnitSize, cmp)
    {
      a := l.head;
      l := l.tail;
      if !Lists.IsEmpty(l) {
        a := Merge(a, l.head, cmp);
        l := l.tail;
      }
      b := Merge(b, a, cmp);
      n := n - 1;
    }
    if prev.Some? {
      b := Merge(prev.value, b, cmp);
    }
    if Lists.IsEmpty(l) {
      s := Done(b);
    } else {
      s := Continue(l, b);
    }
    ChunkProgress(list, prev, WorkUnitSize, cmp);
  }

  /** `mergePairs(list, comparitor, previousResult)` run to completion, one chunk per turn. */
  method MergePairs<T>(list: List<Heap<T>>, cmp: Comparator<T>, prev: Option<Heap<T>>) returns (h: Heap<T>)
    ensures h == RunChunks(list, prev, WorkUnitSize, cmp)
  {
    var step := MergePairsChunk(list, cmp, prev);
    while step.Continue?
      invariant Resume(step, WorkUnitSize, cmp) == RunChunks(list, prev, WorkUnitSize, cmp)
      invariant step.Continue? ==> 0 < Length(step.rest)
      decreases if step.Continue? then Length(step.rest) else 0
    {
      step := MergePairsChunk(step.rest, cmp, Some(step.acc));
    }
    h := step.result;
  }

  /** `heap.pop(comparitor)`: the children of the root, reduced to one heap. */
  method DeleteMin<T(!new)>(h: Heap<T>, cmp: Comparator<T>) returns (r: Heap<T>)
    requires h.Node?
    ensures r == RunChunks(h.children, None, WorkUnitSize, cmp)
    ensures Elements(r) == Elements(h) - multiset{h.item}
    ensures TotalPreorder(cmp) && WellFormed(h, cmp) ==> WellFormed(r, cmp)
  {
    r := MergePairs(h.children, cmp, None);
    RunChunksCorrect(h.children, None, WorkUnitSize, cmp);
  }
}
