/**
 * The immutable pairing-heap node (index.js, class Heap): either the shared
 * empty sentinel or an item with a list of child heaps.
 */
module Heaps {
  import opened Lists

  /** A three-way comparator; `cmp(x, y) <= 0` means `x` may come out no later than `y`. */
  type Comparator<-T> = (T, T) -> int

  /** The comparator's "`<= 0`" relation is a total preorder. */
  ghost predicate TotalPreorder<T(!new)>(cmp: Comparator<T>)
  {
    && (forall x, y :: cmp(x, y) <= 0 || cmp(y, x) <= 0)
    && (forall x, y, z :: cmp(x, y) <= 0 && cmp(y, z) <= 0 ==> cmp(x, z) <= 0)
  }

  /** The default comparator `(a > b) - (b > a)`, on integers. */
  function NaturalOrder(a: int, b: int): (c: int)
    ensures c <= 0 <==> a <= b
    ensures c == 0 <==> a == b
  {
    (if a > b then 1 else 0) - (if b > a then 1 else 0)
  }

  lemma NaturalOrderIsTotalPreorder()
    ensures TotalPreorder(NaturalOrder)
  {
  }

  datatype Heap<T> = Empty | Node(item: T, children: List<Heap<T>>)

  /** The multiset of items held by a heap. */
  ghost function Elements<T>(h: Heap<T>): multiset<T>
    decreases h
  {
    match h
    case Empty => multiset{}
    case Node(x, cs) => multiset{x} + ListElements(cs)
  }

  /** The multiset of items held by all heaps of a list. */
  ghost function ListElements<T>(l: List<Heap<T>>): multiset<T>
    decreases l
  {
    match l
    case Nil => multiset{}
    case Cons(h, t) => Elements(h) + ListElements(t)
  }

  /** `x` comes out no later than any item of `m`. */
  ghost predicate LowerBound<T>(cmp: Comparator<T>, x: T, m: multiset<T>)
  {
    forall y | y in m :: cmp(x, y) <= 0
  }

  /** `x` is one of the items of `m` that come out first. */
  ghost predicate IsLeast<T>(cmp: Comparator<T>, x: T, m: multiset<T>)
  {
    x in m && LowerBound(cmp, x, m)
  }

  /**
   * The node invariants: heap order (every item is a lower bound of the items
   * below it) and no child is the empty sentinel.
   */
  ghost predicate WellFormed<T>(h: Heap<T>, cmp: Comparator<T>)
    decreases h
  {
    match h
    case Empty => true
    case Node(x, cs) => LowerBound(cmp, x, ListElements(cs)) && AllWellFormed(cs, cmp)
  }

  /** Every heap of the list is non-empty and well formed. */
  ghost predicate AllWellFormed<T>(l: List<Heap<T>>, cmp: Comparator<T>)
    decreases l
  {
    match l
    case Nil => true
    case Cons(h, t) => h.Node? && WellFormed(h, cmp) && AllWellFormed(t, cmp)
  }

  /** The `isEmpty` getter: the sentinel is the only heap without items. */
  function IsEmpty<T>(h: Heap<T>): (b: bool)
    ensures b <==> Elements(h) == multiset{}
  {
    h.Empty?
  }

  /** `new Heap(item)`: a node with no children. */
  function Singleton<T>(item: T): (h: Heap<T>)
    ensures Elements(h) == multiset{item}
  {
    Node(item, Nil)
  }

  /**
   * `this.merge(heap, comparitor)`: links two roots in O(1). The left operand
   * wins ties; the loser becomes the first child of the winner.
   */
  function Merge<T>(a: Heap<T>, b: Heap<T>, cmp: Comparator<T>): (r: Heap<T>)
    ensures a.Empty? ==> r == b
    ensures b.Empty? ==> r == a
  {
    if a.Empty? then b
    else if b.Empty? then a
    else if cmp(a.item, b.item) <= 0 then Node(a.item, Prepend(a.children, b))
    else Node(b.item, Prepend(b.children, a))
  }

  /** `getMin()`: the root item. */
  function GetMin<T>(h: Heap<T>): (x: T)
    requires h.Node?
    ensures x in Elements(h)
  {
    h.item
  }

  /** The root of a well-formed heap is one of its least items. */
  lemma GetMinIsLeast<T(!new)>(h: Heap<T>, cmp: Comparator<T>)
    requires TotalPreorder(cmp) && h.Node? && WellFormed(h, cmp)
    ensures IsLeast(cmp, GetMin(h), Elements(h))
  {
    assert cmp(h.item, h.item) <= 0;
  }

  /**
   * Merging two non-empty heaps: the new root is the left root unless the
   * right one compares strictly smaller, the loser is prepended to the
   * winner's children, and the winner's old children follow unchanged.
   */
  lemma MergeLinksRoots<T(!new)>(a: Heap<T>, b: Heap<T>, cmp: Comparator<T>)
    requires TotalPreorder(cmp) && a.Node? && b.Node?
    ensures var r := Merge(a, b, cmp);
      && r.Node?
      && cmp(r.item, a.item) <= 0 && cmp(r.item, b.item) <= 0
      && (cmp(a.item, b.item) <= 0 ==> r.item == a.item && r.children == Cons(b, a.children))
      && (cmp(a.item, b.item) > 0 ==> r.item == b.item && r.children == Cons(a, b.children))
  {
    assert cmp(a.item, a.item) <= 0 && cmp(b.item, b.item) <= 0;
  }

  /** Merging keeps exactly the items of both operands. */
  lemma MergeElements<T>(a: Heap<T>, b: Heap<T>, cmp: Comparator<T>)
    ensures Elements(Merge(a, b, cmp)) == Elements(a) + Elements(b)
  {
    if a.Node? && b.Node? {
      if cmp(a.item, b.item) <= 0 {
        assert Elements(Merge(a, b, cmp)) == multiset{a.item} + (Elements(b) + ListElements(a.children));
      } else {
        assert Elements(Merge(a, b, cmp)) == multiset{b.item} + (Elements(a) + ListElements(b.children));
      }
    }
  }

  /** Merging two well-formed heaps gives a well-formed heap. */
  lemma MergeWellFormed<T(!new)>(a: Heap<T>, b: Heap<T>, cmp: Comparator<T>)
    requires TotalPreorder(cmp) && WellFormed(a, cmp) && WellFormed(b, cmp)
    ensures WellFormed(Merge(a, b, cmp), cmp)
  {
    if a.Node? && b.Node? {
      if cmp(a.item, b.item) <= 0 {
        LinkUnder(a, b, cmp);
      } else {
        LinkUnder(b, a, cmp);
      }
    }
  }

  /** Hanging `loser` under the root of `winner` keeps the node invariants. */
  lemma LinkUnder<T(!new)>(winner: Heap<T>, loser: Heap<T>, cmp: Comparator<T>)
    requires TotalPreorder(cmp) && winner.Node? && loser.Node?
    requires WellFormed(winner, cmp) && WellFormed(loser, cmp)
    requires cmp(winner.item, loser.item) <= 0
    ensures WellFormed(Node(winner.item, Cons(loser, winner.children)), cmp)
  {
    var x, y := winner.item, loser.item;
    forall z | z in Elements(loser)
      ensures cmp(x, z) <= 0
    {
      if z != y {
        assert z in ListElements(loser.children);
      }
    }
  }
}
