/** The immutable cons list that holds a heap node's children (index.js, class List). */
module Lists {

  /** `Nil` is the shared `EmptyList`; `Cons` shares its tail with the list it was built from. */
  datatype List<T> = Nil | Cons(head: T, tail: List<T>)

  function Length<T>(l: List<T>): nat
  {
    match l
    case Nil => 0
    case Cons(_, t) => 1 + Length(t)
  }

  /** The `isEmpty` tag of a list. */
  function IsEmpty<T>(l: List<T>): (b: bool)
    ensures b <==> Length(l) == 0
  {
    l.Nil?
  }

  /** `list.prepend(head)`: a new cell in front, sharing the old list unchanged as its tail. */
  function Prepend<T>(l: List<T>, head: T): (r: List<T>)
    ensures r.Cons? && r.head == head && r.tail == l
    ensures Length(r) == Length(l) + 1
  {
    Cons(head, l)
  }
}
