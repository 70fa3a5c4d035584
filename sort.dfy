/**
  `insert_sort` of Basic/sort_algos/src/lib.rs: insertion sort in place on a
  slice, by adjacent swaps, with a caller-supplied "is less" comparator.

  The functional reference `SortSpec` inserts each element, from the right,
  into the sorted prefix; the method is proved to compute it for every
  asymmetric comparator. What `SortSpec` promises is proved about it:
  a permutation always, sorted under a strict weak order, and the only sorted
  permutation under a strict total order.
*/
module Sort {

  /** `less(a, b)` and `less(b, a)` never hold together (so `less(a, a)` never holds). */
  ghost predicate Asymmetric<T(!new)>(less: (T, T) -> bool)
  {
    forall a, b :: less(a, b) ==> !less(b, a)
  }

  /** An asymmetric comparator whose "not less" relation is transitive. */
  ghost predicate StrictWeakOrder<T(!new)>(less: (T, T) -> bool)
  {
    && Asymmetric(less)
    && forall a, b, c :: !less(b, a) && !less(c, b) ==> !less(c, a)
  }

  /** Distinct values are always comparable. */
  ghost predicate Connected<T(!new)>(less: (T, T) -> bool)
  {
    forall a, b :: a != b ==> less(a, b) || less(b, a)
  }

  /** A strict weak order under which distinct values are always comparable. */
  ghost predicate StrictTotalOrder<T(!new)>(less: (T, T) -> bool)
  {
    StrictWeakOrder(less) && Connected(less)
  }

  /** No element is less than the one just before it. */
  ghost predicate AdjacentSorted<T>(s: seq<T>, less: (T, T) -> bool)
  {
    forall k :: 0 < k < |s| ==> !less(s[k], s[k - 1])
  }

  /** No element is less than any element before it. */
  ghost predicate Sorted<T>(s: seq<T>, less: (T, T) -> bool)
  {
    forall a, b :: 0 <= a < b < |s| ==> !less(s[b], s[a])
  }

  /**
    Inserts `x` into `s` from the right: `x` passes every element it is less
    than, and stops after the first one it is not less than.
  */
  function InsertFromRight<T>(s: seq<T>, x: T, less: (T, T) -> bool): (r: seq<T>)
    ensures |r| == |s| + 1
    ensures multiset(r) == multiset(s) + multiset{x}
  {
    if s == [] then [x]
    else if less(x, s[|s| - 1]) then
      assert s == s[..|s| - 1] + [s[|s| - 1]];
      InsertFromRight(s[..|s| - 1], x, less) + [s[|s| - 1]]
    else s + [x]
  }

  /** Insertion sort as a function: the last element is inserted into the sorted rest. */
  function SortSpec<T>(s: seq<T>, less: (T, T) -> bool): (r: seq<T>)
    ensures |r| == |s|
    ensures multiset(r) == multiset(s)
  {
    if s == [] then []
    else
      assert s == s[..|s| - 1] + [s[|s| - 1]];
      InsertFromRight(SortSpec(s[..|s| - 1], less), s[|s| - 1], less)
  }

  /** `SortSpec` of a longer prefix inserts the next element into `SortSpec` of the shorter one. */
  lemma SortSpecStep<T>(s: seq<T>, i: nat, less: (T, T) -> bool)
    requires i < |s|
    ensures SortSpec(s[..i + 1], less) == InsertFromRight(SortSpec(s[..i], less), s[i], less)
  {
    assert s[..i + 1][..i] == s[..i];
  }

  /**
    Where `x` lands: just after the last element it is not less than, with
    everything after that position greater than `x`. Elements before `pos`
    stay in place and those after it move one step right.
  */
  lemma {:induction false} InsertAt<T(!new)>(s: seq<T>, x: T, less: (T, T) -> bool, pos: nat)
    requires pos <= |s|
    requires pos == 0 || !less(x, s[pos - 1])
    requires forall k :: pos <= k < |s| ==> less(x, s[k])
    ensures var r := InsertFromRight(s, x, less);
            && r[pos] == x
            && (forall k :: 0 <= k < pos ==> r[k] == s[k])
            && (forall k :: pos < k < |r| ==> r[k] == s[k - 1])
  {
    if pos < |s| {
      var init := s[..|s| - 1];
      InsertAt(init, x, less, pos);
    }
  }

  /** The last element after an insertion is the old last element, if `x` passed it, or else `x`. */
  lemma InsertLast<T>(s: seq<T>, x: T, less: (T, T) -> bool)
    ensures var r := InsertFromRight(s, x, less);
            r[|r| - 1] == if s != [] && less(x, s[|s| - 1]) then s[|s| - 1] else x
  {
  }

  /** Under an asymmetric comparator, inserting into an adjacent-sorted sequence keeps it adjacent-sorted. */
  lemma {:induction false} InsertKeepsAdjacent<T(!new)>(s: seq<T>, x: T, less: (T, T) -> bool)
    requires Asymmetric(less) && AdjacentSorted(s, less)
    ensures AdjacentSorted(InsertFromRight(s, x, less), less)
  {
    if s != [] && less(x, s[|s| - 1]) {
      var init, last := s[..|s| - 1], s[|s| - 1];
      assert AdjacentSorted(init, less);
      InsertKeepsAdjacent(init, x, less);
      InsertLast(init, x, less);
      var r := InsertFromRight(init, x, less);
      assert !less(last, r[|r| - 1]);
      assert InsertFromRight(s, x, less) == r + [last];
    }
  }

  /** Under an asymmetric comparator, `SortSpec` is adjacent-sorted. */
  lemma {:induction false} SortSpecAdjacent<T(!new)>(s: seq<T>, less: (T, T) -> bool)
    requires Asymmetric(less)
    ensures AdjacentSorted(SortSpec(s, less), less)
  {
    if s != [] {
      SortSpecAdjacent(s[..|s| - 1], less);
      InsertKeepsAdjacent(SortSpec(s[..|s| - 1], less), s[|s| - 1], less);
    }
  }

  /** Under a strict weak order, adjacent order is full order. */
  lemma AdjacentToSorted<T(!new)>(s: seq<T>, less: (T, T) -> bool)
    requires StrictWeakOrder(less) && AdjacentSorted(s, less)
    ensures Sorted(s, less)
  {
    forall a, b | 0 <= a < b < |s|
      ensures !less(s[b], s[a])
    {
      var c := a + 1;
      while c < b
        invariant a < c <= b && !less(s[c], s[a])
      {
        c := c + 1;
      }
    }
  }

  /** Under a strict weak order, `SortSpec` is sorted. */
  lemma SortSpecSorted<T(!new)>(s: seq<T>, less: (T, T) -> bool)
    requires StrictWeakOrder(less)
    ensures Sorted(SortSpec(s, less), less)
  {
    SortSpecAdjacent(s, less);
    AdjacentToSorted(SortSpec(s, less), less);
  }

  /** When distinct values are always comparable, two sorted sequences with the same elements are equal. */
  lemma {:induction false} SortedUnique<T(!new)>(t: seq<T>, u: seq<T>, less: (T, T) -> bool)
    requires Connected(less)
    requires Sorted(t, less) && Sorted(u, less) && multiset(t) == multiset(u)
    ensures t == u
  {
    assert |t| == |multiset(t)| == |multiset(u)| == |u|;
    if t != [] {
      var a, b := t[0], u[0];
      assert a == b by {
        assert a in multiset(u) && b in multiset(t);
        var i :| 0 <= i < |u| && u[i] == a;
        var k :| 0 <= k < |t| && t[k] == b;
        assert i == 0 || !less(a, b);
        assert k == 0 || !less(b, a);
      }
      MultisetTail(t);
      MultisetTail(u);
      SortedUnique(t[1..], u[1..], less);
      assert t == [a] + t[1..] && u == [b] + u[1..];
    }
  }

  /** Dropping the head removes one occurrence of it. */
  lemma MultisetTail<T>(t: seq<T>)
    requires t != []
    ensures multiset(t[1..]) == multiset(t) - multiset{t[0]}
  {
    assert t == [t[0]] + t[1..];
  }

  /** Under a strict total order, `SortSpec` is the one sorted permutation of its input. */
  lemma SortSpecIsTheSort<T(!new)>(s: seq<T>, t: seq<T>, less: (T, T) -> bool)
    requires StrictTotalOrder(less)
    requires Sorted(t, less) && multiset(t) == multiset(s)
    ensures t == SortSpec(s, less)
  {
    SortSpecSorted(s, less);
    SortedUnique(t, SortSpec(s, less), less);
  }

  /**
    The state of the inner pass of `insert_sort` over the prefix `s[..i + 1]`:
    the sorted prefix `p` with `x` placed at `pos`, and `x` less than every
    element of `p` it has been moved past.
  */
  ghost predicate Passing<T>(s: seq<T>, i: nat, pos: nat, p: seq<T>, x: T, less: (T, T) -> bool)
  {
    && pos <= i < |s| && |p| == i
    && (forall k :: 0 <= k < pos ==> s[k] == p[k])
    && s[pos] == x
    && (forall k :: pos < k <= i ==> s[k] == p[k - 1])
    && (forall k :: pos <= k < i ==> less(x, p[k]))
  }

  /**
    One comparison of the inner pass at `j`: a swap happens only while `x`
    is still moving, and it moves `x` one place left; otherwise `x` has found
    its place.
  */
  lemma SwapStep<T(!new)>(s: seq<T>, i: nat, j: nat, pos: nat, p: seq<T>, x: T, less: (T, T) -> bool)
    requires Asymmetric(less) && AdjacentSorted(p, less)
    requires Passing(s, i, pos, p, x, less) && 0 < j <= pos
    requires pos > j ==> !less(x, p[pos - 1])
    ensures less(s[j], s[j - 1]) ==>
              pos == j && Passing(s[j := s[j - 1]][j - 1 := s[j]], i, j - 1, p, x, less)
    ensures !less(s[j], s[j - 1]) ==> pos > j - 1 && !less(x, p[pos - 1])
  {
    if pos > j {
      assert s[j] == p[j] && s[j - 1] == p[j - 1];
    }
  }

  /** Swapping two neighbours keeps the same elements. */
  lemma SwapPermutes<T>(s: seq<T>, j: nat)
    requires 0 < j < |s|
    ensures multiset(s[j := s[j - 1]][j - 1 := s[j]]) == multiset(s)
  {
  }

  /**
    What the inner pass keeps from one comparison to the next: the elements
    of `v0`, nothing after `i` touched, `j <= pos <= i`, and, when `asym`
    (the comparator is asymmetric and the prefix was sorted), the shape
    `Passing`, with `x` settled once the pass has gone below it.
  */
  ghost predicate PassState<T>(s: seq<T>, v0: seq<T>, i: nat, j: nat, pos: nat, p: seq<T>, x: T,
                               less: (T, T) -> bool, asym: bool)
  {
    && |s| == |v0| && j <= pos <= i < |s|
    && multiset(s) == multiset(v0)
    && (forall k :: i < k < |s| ==> s[k] == v0[k])
    && (asym ==> Passing(s, i, pos, p, x, less) && (pos > j ==> !less(x, p[pos - 1])))
  }

  /** One comparison of the inner pass, with or without its swap, keeps `PassState`. */
  lemma PassStep<T(!new)>(s: seq<T>, v0: seq<T>, i: nat, j: nat, pos: nat, p: seq<T>, x: T,
                          less: (T, T) -> bool, asym: bool)
    requires PassState(s, v0, i, j, pos, p, x, less, asym) && 0 < j
    requires asym ==> Asymmetric(less) && AdjacentSorted(p, less)
    ensures less(s[j], s[j - 1]) ==>
              PassState(s[j := s[j - 1]][j - 1 := s[j]], v0, i, j - 1, if asym then j - 1 else pos, p, x, less, asym)
    ensures !less(s[j], s[j - 1]) ==> PassState(s, v0, i, j - 1, pos, p, x, less, asym)
  {
    if asym {
      SwapStep(s, i, j, pos, p, x, less);
    }
    SwapPermutes(s, j);
  }

  /** When the inner pass ends, the prefix is `x` inserted into `p` from the right. */
  lemma Passed<T(!new)>(s: seq<T>, i: nat, pos: nat, p: seq<T>, x: T, less: (T, T) -> bool)
    requires Passing(s, i, pos, p, x, less)
    requires pos == 0 || !less(x, p[pos - 1])
    ensures s[..i + 1] == InsertFromRight(p, x, less)
  {
    InsertAt(p, x, less, pos);
  }

  /**
    What the outer loop of `insert_sort` keeps at `i`: the elements of `o`,
    nothing from `i` on touched, and, when `asym`, the prefix before `i`
    equal to `SortSpec` of the same prefix of `o`.
  */
  ghost predicate SortState<T>(s: seq<T>, o: seq<T>, i: nat, less: (T, T) -> bool, asym: bool)
  {
    && |s| == |o| && i <= |s|
    && multiset(s) == multiset(o)
    && (forall k :: i <= k < |s| ==> s[k] == o[k])
    && (asym ==> s[..i] == SortSpec(o[..i], less))
  }

  /** One inner pass, as `InsertPass` promises it, moves the outer loop from `i` to `i + 1`. */
  lemma SortStep<T(!new)>(before: seq<T>, after: seq<T>, o: seq<T>, i: nat, less: (T, T) -> bool, asym: bool)
    requires SortState(before, o, i, less, asym) && i < |before|
    requires asym ==> Asymmetric(less)
    requires |after| == |before| && multiset(after) == multiset(before)
    requires forall k :: i < k < |after| ==> after[k] == before[k]
    requires AdjacentSorted(before[..i], less) && asym ==>
               after[..i + 1] == InsertFromRight(before[..i], before[i], less)
    ensures SortState(after, o, i + 1, less, asym)
  {
    if asym {
      SortSpecAdjacent(o[..i], less);
      SortSpecStep(o, i, less);
    }
  }

  /**
    `insert_sort`: for `i` from 1 to the end, the element at `i` is moved left
    into the sorted prefix (`InsertPass`). Slices of length 0 or 1 are left
    alone.
  */
  method InsertSort<T(!new)>(v: array<T>, less: (T, T) -> bool)
    modifies v
    ensures multiset(v[..]) == multiset(old(v[..]))
    ensures v.Length <= 1 ==> v[..] == old(v[..])
    ensures Asymmetric(less) ==> v[..] == SortSpec(old(v[..]), less)
  {
    ghost var o := v[..];
    ghost var asym := Asymmetric(less);
    if v.Length > 1 {
      var i := 1;
      assert o[..1] == [] + [o[0]];
      while i < v.Length
        invariant 1 <= i <= v.Length
        invariant SortState(v[..], o, i, less, asym)
      {
        ghost var before := v[..];
        InsertPass(v, i, less);
        SortStep(before, v[..], o, i, less, asym);
        i := i + 1;
      }
      assert v[..] == v[..v.Length] && o == o[..v.Length];
    } else if v.Length == 1 {
      assert o == [] + [o[0]];
    }
  }

  /**
    The inner loop of `insert_sort` for one `i`: `j` runs from `i` down to 1,
    with no early exit, and the elements at `j` and `j - 1` are swapped
    whenever `less(v[j], v[j - 1])`. Only the prefix up to `i` is touched;
    when that prefix was sorted before `i`, the element at `i` ends up
    inserted into it from the right.
  */
  method InsertPass<T(!new)>(v: array<T>, i: nat, less: (T, T) -> bool)
    requires i < v.Length
    modifies v
    ensures multiset(v[..]) == multiset(old(v[..]))
    ensures forall k :: i < k < v.Length ==> v[k] == old(v[k])
    ensures Asymmetric(less) && AdjacentSorted(old(v[..i]), less) ==>
              v[..i + 1] == InsertFromRight(old(v[..i]), old(v[i]), less)
  {
    ghost var asym := Asymmetric(less) && AdjacentSorted(v[..i], less);
    ghost var v0, p, x := v[..], v[..i], v[i];
    ghost var pos := i;
    var j := i;
    while j > 0
      invariant PassState(v[..], v0, i, j, pos, p, x, less, asym)
    {
      ghost var s := v[..];
      PassStep(s, v0, i, j, pos, p, x, less, asym);
      if less(v[j], v[j - 1]) {
        v[j], v[j - 1] := v[j - 1], v[j];
        assert v[..] == s[j := s[j - 1]][j - 1 := s[j]];
        if asym {
          pos := j - 1;
        }
      }
      j := j - 1;
    }
    assert forall k :: i < k < v.Length ==> v[k] == v[..][k];
    if asym {
      Passed(v[..], i, pos, p, x, less);
      assert v[..i + 1] == v[..][..i + 1];
    }
  }

  /** The comparator `|a, b| a < b` of the unit test. */
  function IntLess(a: int, b: int): bool
  {
    a < b
  }

  /** `<` on integers is a strict total order, so the test's comparator meets every hypothesis above. */
  lemma IntLessIsTotal()
    ensures StrictTotalOrder(IntLess)
  {
  }

  /**
    The unit test `sort_result_ok`: a copy of `a` sorted by `insert_sort` with
    `<` agrees element by element with `ans`, any ascending arrangement of the
    same values (the test obtains it from the standard library's sort).
  */
  method SortResultOk(a: seq<int>, ans: seq<int>) returns (b: array<int>)
    requires multiset(ans) == multiset(a) && Sorted(ans, IntLess)
    ensures b[..] == ans
  {
    b := new int[|a|](k => if 0 <= k < |a| then a[k] else 0);
    assert b[..] == a;
    InsertSort(b, IntLess);
    IntLessIsTotal();
    SortSpecIsTheSort(a, ans, IntLess);
  }
}
