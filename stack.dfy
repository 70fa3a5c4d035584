/**
  The `Stack` interface of Basic/data_structures/src/stack.rs, as implemented
  for a growable vector: the top of the stack is the end of the vector.
*/
module Stack {
  import opened Wrappers

  class VecStack<T> {
    /** The vector's contents, bottom first, top last. */
    var elems: seq<T>

    /** `Stack::new`: an empty vector. */
    constructor ()
      ensures elems == []
    {
      elems := [];
    }

    /** `push`: appends `x`, which becomes the top. */
    method Push(x: T)
      modifies this
      ensures elems == old(elems) + [x]
    {
      elems := elems + [x];
    }

    /**
      `pop`: on a non-empty vector, removes and returns the last element;
      on an empty one, returns `None` and changes nothing.
    */
    method Pop() returns (r: Option<T>)
      modifies this
      ensures old(elems) == [] ==> r == None && elems == []
      ensures old(elems) != [] ==>
                r == Some(old(elems)[|old(elems)| - 1]) && elems == old(elems)[..|old(elems)| - 1]
    {
      if elems != [] {
        r := Some(elems[|elems| - 1]);
        elems := elems[..|elems| - 1];
      } else {
        r := None;
      }
    }

    /** `size`: the vector's length. */
    function Size(): (n: nat)
      reads this
      ensures n == |elems|
      ensures n == 0 <==> elems == []
    {
      |elems|
    }
  }

  /**
    The unit test `test_vec_stack`, for any sequence of values in place of
    0..10: after pushing every value the size is their number, popping that
    many times yields them in reverse order (last in, first out), and the
    stack is then empty.
  */
  method LifoScenario<T>(xs: seq<T>) returns (sizeFull: nat, out: seq<T>, sizeEmpty: nat)
    ensures sizeFull == |xs|
    ensures |out| == |xs| && forall k :: 0 <= k < |xs| ==> out[k] == xs[|xs| - 1 - k]
    ensures sizeEmpty == 0
  {
    var st := new VecStack<T>();
    var i := 0;
    while i < |xs|
      invariant 0 <= i <= |xs|
      invariant st.elems == xs[..i]
    {
      st.Push(xs[i]);
      assert xs[..i + 1] == xs[..i] + [xs[i]];
      i := i + 1;
    }
    sizeFull := st.Size();
    out := [];
    while i > 0
      invariant 0 <= i <= |xs|
      invariant st.elems == xs[..i]
      invariant |out| == |xs| - i
      invariant forall k :: 0 <= k < |out| ==> out[k] == xs[|xs| - 1 - k]
    {
      var r := st.Pop();
      out := out + [r.value];
      i := i - 1;
    }
    sizeEmpty := st.Size();
  }
}
