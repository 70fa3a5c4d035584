/**
  The singly linked list of Basic/data_structures/src/linked_list.rs: a list
  is an optional boxed node, and a node holds a value and the rest of the
  list. Boxes own their contents, so the list is a value; `Search` hands back
  the node where the match is found, which in this model is the node value
  itself, together with everything after it.
*/
module LinkedList {
  import opened Wrappers

  datatype SingleLinkedList<T> = SingleLinkedList(head: Option<SingleLinkedNode<T>>)

  datatype SingleLinkedNode<T> = SingleLinkedNode(value: T, next: SingleLinkedList<T>)

  /** The values of a list from the head to the tail. */
  function Elements<T>(l: SingleLinkedList<T>): seq<T>
    decreases l
  {
    match l.head
    case None => []
    case Some(node) => [node.value] + Elements(node.next)
  }

  /** The values of the list that starts at `node`. */
  function NodeElements<T>(node: SingleLinkedNode<T>): (r: seq<T>)
    ensures |r| > 0 && r[0] == node.value
  {
    Elements(SingleLinkedList(Some(node)))
  }

  /**
    `SingleLinkedList::search`: walks from the head and returns the first
    node whose value equals `x`, or `None` when the walk reaches the end.
    The node returned starts the suffix of the list that begins at the first
    occurrence of `x`: no earlier value equals `x`.
  */
  function Search<T(==)>(l: SingleLinkedList<T>, x: T): (r: Option<SingleLinkedNode<T>>)
    ensures r.None? <==> x !in Elements(l)
    ensures r.Some? ==> r.value.value == x
    ensures r.Some? ==>
              var e, tail := Elements(l), NodeElements(r.value);
              |tail| <= |e| && e[|e| - |tail|..] == tail && x !in e[..|e| - |tail|]
    decreases l
  {
    match l.head
    case None => None
    case Some(node) =>
      if node.value == x then Some(node)
      else Search(node.next, x)
  }
}
