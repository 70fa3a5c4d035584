/**
  The `Queue` interface of Basic/data_structures/src/queue.rs, as implemented
  for a growable vector: the vector holds the queue from its front (index 0)
  to its back.
*/
module Queue {
  import opened Wrappers

  class VecQueue<T> {
    /** The vector's contents, front first. */
    var elems: seq<T>

    /** `Queue::new`: an empty vector. */
    constructor ()
      ensures elems == []
    {
      elems := [];
    }

    /** `enqueue`: pushes `x` at the back of the vector. */
    method Enqueue(x: T)
      modifies this
      ensures elems == old(elems) + [x]
    {
      elems := elems + [x];
    }

    /**
      `dequeue`: on a non-empty vector, removes and returns the element at
      index 0 (the others shift down); on an empty one, returns `None` and
      changes nothing.
    */
    method Dequeue() returns (r: Option<T>)
      modifies this
      ensures old(elems) == [] ==> r == None && elems == []
      ensures old(elems) != [] ==> r == Some(old(elems)[0]) && elems == old(elems)[1..]
    {
      if elems != [] {
        r := Some(elems[0]);
        elems := elems[1..];
      } else {
        r := None;
      }
    }

    /** `size`: the vector's length. */
    function Size(): (n: nat)
      reads this
      ensures n == |elems|
      ensures n == 0 <==> elems == []
    {
      |elems|
    }
  }

  /**
    The unit test `test_vec_queue`, for any sequence of values in place of
    0..10: after enqueuing every value the size is their number, dequeuing
    that many times yields them in the order they went in (first in, first
    out), and the queue is then empty.
  */
  method FifoScenario<T>(xs: seq<T>) returns (sizeFull: nat, out: seq<T>, sizeEmpty: nat)
    ensures sizeFull == |xs|
    ensures out == xs
    ensures sizeEmpty == 0
  {
    var q := new VecQueue<T>();
    var i := 0;
    while i < |xs|
      invariant 0 <= i <= |xs|
      invariant q.elems == xs[..i]
    {
      q.Enqueue(xs[i]);
      assert xs[..i + 1] == xs[..i] + [xs[i]];
      i := i + 1;
    }
    sizeFull := q.Size();
    assert q.elems == xs;
    out := [];
    i := 0;
    while i < |xs|
      invariant 0 <= i <= |xs|
      invariant q.elems == xs[i..]
      invariant out == xs[..i]
    {
      var r := q.Dequeue();
      out := out + [r.value];
      assert xs[..i + 1] == xs[..i] + [xs[i]];
      i := i + 1;
    }
    sizeEmpty := q.Size();
  }
}
