/**
  An unbalanced binary search tree of integers (`BinaryTree` in
  Basic/data_structures/src/tree.rs).

  Each node is an object whose `left` and `right` links the insertion loop
  rewrites in place, and which keeps a back-link to the node it hangs from.
  The tree keeps two pieces of ghost bookkeeping:
  - `Nodes`, every node in the order of insertion, from which the multiset
    of stored values is read;
  - `Path`, the position of each node, as the left (`false`) and right
    (`true`) turns taken from the root to reach it.
  Every invariant is stated pairwise over positions, so the insertion loop
  is proved without induction over the shape of the tree.
*/
module Tree {

  /**
    A tree node. Its value is set when the node is created; the model has no
    operation that writes it afterwards.
  */
  class TreeNode {
    const value: int
    var parent: TreeNode?
    var left: TreeNode?
    var right: TreeNode?

    /** `TreeNode::new`: a node with no parent and two empty subtrees. */
    constructor (x: int)
      ensures value == x && parent == null && left == null && right == null
    {
      value := x;
      parent := null;
      left := null;
      right := null;
    }

    /** `TreeNode::new_leaf`: a node with two empty subtrees that records `parent`. */
    constructor Leaf(x: int, parent: TreeNode?)
      ensures value == x && this.parent == parent && left == null && right == null
    {
      value := x;
      this.parent := parent;
      left := null;
      right := null;
    }
  }

  /** The values of a sequence of nodes, in the same order. */
  function ValuesOf(s: seq<TreeNode>): (r: seq<int>)
    ensures |r| == |s| && forall i :: 0 <= i < |s| ==> r[i] == s[i].value
  {
    if s == [] then [] else ValuesOf(s[..|s| - 1]) + [s[|s| - 1].value]
  }

  /**
    The index of the first node of `s` that holds `x`, or `|s|` when there is
    none: a plain left-to-right scan, used to say which node a search returns.
  */
  function FirstWith(s: seq<TreeNode>, x: int): (k: nat)
    ensures k <= |s|
    ensures k < |s| ==> s[k].value == x
  {
    if s == [] then 0
    else if s[0].value == x then 0
    else 1 + FirstWith(s[1..], x)
  }

  /** No node before the one `FirstWith` picks holds `x`. */
  lemma {:induction false} FirstWithIsFirst(s: seq<TreeNode>, x: int)
    ensures forall j :: 0 <= j < FirstWith(s, x) ==> s[j].value != x
  {
    if s != [] && s[0].value != x {
      FirstWithIsFirst(s[1..], x);
    }
  }

  /** Scanning a concatenation scans the first part, then the second. */
  lemma {:induction false} FirstWithConcat(a: seq<TreeNode>, b: seq<TreeNode>, x: int)
    ensures FirstWith(a + b, x) ==
              if FirstWith(a, x) < |a| then FirstWith(a, x) else |a| + FirstWith(b, x)
  {
    if a != [] {
      assert (a + b)[1..] == a[1..] + b;
      if a[0].value != x {
        FirstWithConcat(a[1..], b, x);
      }
    } else {
      assert a + b == b;
    }
  }

  /** Position `q` lies in the subtree reached from position `p` by the turn `b`. */
  predicate Beneath(p: seq<bool>, b: bool, q: seq<bool>)
  {
    p + [b] <= q
  }

  /** A position below `q + [e]` by a turn `b` is a position of the subtree `q` turns `e` into, or `q` itself turned by `b`. */
  lemma BeneathSnoc(p: seq<bool>, b: bool, q: seq<bool>, e: bool)
    ensures Beneath(p, b, q + [e]) <==> Beneath(p, b, q) || (p == q && b == e)
  {
    if |p| < |q| {
      assert (q + [e])[..|p| + 1] == q[..|p| + 1];
    } else if |p| == |q| {
      assert (q + [e])[..|p| + 1] == q + [e];
      if p + [b] == q + [e] {
        assert p == (p + [b])[..|p|] == (q + [e])[..|q|] == q;
      }
    }
  }

  /** What lies beneath a child's position lies beneath the parent's turn toward that child. */
  lemma BeneathShift(q: seq<bool>, e: bool, b: bool, r: seq<bool>)
    requires Beneath(q + [e], b, r)
    ensures Beneath(q, e, r)
  {
    assert r[..|q| + 1] == (q + [e] + [b])[..|q| + 1] == q + [e];
  }

  /** A proper prefix extends, by the next turn, to a prefix. */
  lemma PrefixStep(p: seq<bool>, q: seq<bool>)
    requires p <= q && p != q
    ensures p + [q[|p|]] <= q
  {
    assert (p + [q[|p|]]) == q[..|p| + 1];
  }

  lemma PrefixTrans(p: seq<bool>, q: seq<bool>, r: seq<bool>)
    requires p <= q && q <= r
    ensures p <= r
  {
    assert q[..|p|] == r[..|p|];
  }

  /** A node that does not hold `x` only shifts the scan by one. */
  lemma FirstWithAfter(n: TreeNode, s: seq<TreeNode>, x: int)
    requires n.value != x
    ensures FirstWith([n] + s, x) == 1 + FirstWith(s, x)
  {
    assert ([n] + s)[1..] == s;
  }

  /** Scanning `[n] + a + b` past a node `n` that does not hold `x`: first `a`, then `b`. */
  lemma ScanPastNode(n: TreeNode, a: seq<TreeNode>, b: seq<TreeNode>, x: int)
    requires n.value != x
    ensures var p := [n] + a + b;
            var k, ka, kb := FirstWith(p, x), FirstWith(a, x), FirstWith(b, x);
            && |p| == 1 + |a| + |b|
            && (ka < |a| ==> k == 1 + ka && p[k] == a[ka])
            && (ka == |a| ==> k == 1 + |a| + kb && (kb < |b| ==> p[k] == b[kb]))
  {
    var p := [n] + a + b;
    assert p == [n] + (a + b);
    FirstWithAfter(n, a + b, x);
    FirstWithConcat(a, b, x);
    var ka, kb := FirstWith(a, x), FirstWith(b, x);
    if ka < |a| {
      assert p[1 + ka] == a[ka];
    } else if kb < |b| {
      assert p[1 + |a| + kb] == b[kb];
    }
  }

  /** The child slot of `node` on the right side when `right` holds, on the left side otherwise. */
  datatype Slot = Slot(node: TreeNode, right: bool)
  {
    /** The node in the slot, if any. */
    function Child(): TreeNode?
      reads node
    {
      if right then node.right else node.left
    }
  }

  class BinaryTree {
    var root: TreeNode?
    ghost var Nodes: seq<TreeNode>
    ghost var Path: map<TreeNode, seq<bool>>

    /**
      The shape of the tree, read from positions alone: the root sits at the
      empty position, positions identify nodes, a child sits one turn below
      its parent, and an empty child slot has no node anywhere beneath it.
    */
    ghost predicate Shaped()
      reads this, Path.Keys
    {
      && (root != null ==> root in Path && Path[root] == [])
      && (forall n, m :: n in Path && m in Path && Path[n] == Path[m] ==> n == m)
      && (forall n :: n in Path && n.left != null ==> n.left in Path && Path[n.left] == Path[n] + [false])
      && (forall n :: n in Path && n.right != null ==> n.right in Path && Path[n.right] == Path[n] + [true])
      && (forall n, m {:trigger Beneath(Path[n], false, Path[m])} ::
            n in Path && m in Path && n.left == null ==> !Beneath(Path[n], false, Path[m]))
      && (forall n, m {:trigger Beneath(Path[n], true, Path[m])} ::
            n in Path && m in Path && n.right == null ==> !Beneath(Path[n], true, Path[m]))
    }

    /**
      Parent consistency: the root has no parent, a child links back to the
      node it hangs from, and every other node hangs from a node of the tree.
    */
    ghost predicate Linked()
      reads this, Path.Keys
    {
      && (root != null && root in Path ==> root.parent == null)
      && (forall n :: n in Path && n.left != null && n.left in Path ==> n.left.parent == n)
      && (forall n :: n in Path && n.right != null && n.right in Path ==> n.right.parent == n)
      && (forall n :: n in Path && n != root ==>
            n.parent != null && n.parent in Path && (n.parent.left == n || n.parent.right == n))
    }

    /** Search order: values beneath a left turn are smaller, values beneath a right turn are at least as large (ties go right). */
    ghost predicate Ordered()
      reads this
    {
      && (forall n, m {:trigger Beneath(Path[n], false, Path[m])} ::
            n in Path && m in Path && Beneath(Path[n], false, Path[m]) ==> m.value < n.value)
      && (forall n, m {:trigger Beneath(Path[n], true, Path[m])} ::
            n in Path && m in Path && Beneath(Path[n], true, Path[m]) ==> n.value <= m.value)
    }

    /** `Nodes` lists each node of the tree exactly once, and the tree is empty exactly when there is no root. */
    ghost predicate Listed()
      reads this
    {
      && (forall i, j :: 0 <= i < j < |Nodes| ==> Nodes[i] != Nodes[j])
      && (forall i :: 0 <= i < |Nodes| ==> Nodes[i] in Path)
      && (forall n :: n in Path ==> n in Nodes)
      && (root == null <==> Nodes == [])
    }

    ghost predicate Valid()
      reads this, Path.Keys
    {
      Shaped() && Linked() && Ordered() && Listed()
    }

    /** The stored values, one per node, in the order they were inserted. */
    ghost function Values(): seq<int>
      reads this
    {
      ValuesOf(Nodes)
    }

    /** The nodes of the subtree rooted at `n`. */
    ghost function Below(n: TreeNode): set<TreeNode>
      requires n in Path
      reads this
    {
      set m | m in Path && Path[n] <= Path[m]
    }

    /** A child's subtree is strictly smaller than its parent's. */
    lemma BelowChild(n: TreeNode)
      requires Shaped() && n in Path
      ensures n.left != null ==> n.left in Path && Below(n.left) < Below(n)
      ensures n.right != null ==> n.right in Path && Below(n.right) < Below(n)
    {
      assert n in Below(n);
      if n.left != null {
        forall m | m in Below(n.left) ensures m in Below(n) {
          PrefixTrans(Path[n], Path[n.left], Path[m]);
        }
        assert n !in Below(n.left);
      }
      if n.right != null {
        forall m | m in Below(n.right) ensures m in Below(n) {
          PrefixTrans(Path[n], Path[n.right], Path[m]);
        }
        assert n !in Below(n.right);
      }
    }

    /** A subtree is its root and the subtrees of its children. */
    lemma BelowSplit(n: TreeNode)
      requires Shaped() && n in Path
      ensures n in Below(n)
      ensures forall m :: m in Below(n) && m != n ==>
                (n.left != null && m in Below(n.left)) || (n.right != null && m in Below(n.right))
    {
      forall m | m in Below(n) && m != n
        ensures (n.left != null && m in Below(n.left)) || (n.right != null && m in Below(n.right))
      {
        var p, q := Path[n], Path[m];
        assert p != q;
        PrefixStep(p, q);
        assert Beneath(p, q[|p|], q);
      }
    }

    /** The nodes of the subtree rooted at `n` in pre-order: the node, then its left subtree, then its right subtree. */
    ghost function PreOrder(n: TreeNode?): seq<TreeNode>
      requires Shaped() && (n != null ==> n in Path)
      reads this, Path.Keys
      decreases if n == null then {} else Below(n)
    {
      if n == null then []
      else
        BelowChild(n);
        [n] + PreOrder(n.left) + PreOrder(n.right)
    }

    /** The pre-order traversal meets every node of the subtree and nothing else. */
    lemma {:induction false} PreOrderCovers(n: TreeNode)
      requires Shaped() && n in Path
      ensures forall m :: m in PreOrder(n) <==> m in Below(n)
      decreases Below(n)
    {
      BelowChild(n);
      BelowSplit(n);
      if n.left != null {
        forall m | m in Below(n.left) ensures m in Below(n) { PrefixTrans(Path[n], Path[n.left], Path[m]); }
      }
      if n.right != null {
        forall m | m in Below(n.right) ensures m in Below(n) { PrefixTrans(Path[n], Path[n.right], Path[m]); }
      }
      if n.left != null { PreOrderCovers(n.left); }
      if n.right != null { PreOrderCovers(n.right); }
    }

    /** `BinaryTree::is_empty`: the tree is empty exactly when it stores no value. */
    function IsEmpty(): (b: bool)
      requires Valid()
      reads this, Path.Keys
      ensures b <==> Values() == []
    {
      root == null
    }

    /**
      `BinaryTree::find` on the subtree rooted at `n`: the node itself when it
      holds `x`, otherwise the first hit in its left subtree, otherwise the
      hit in its right subtree. Search order is not used to prune, so the
      result is the first node holding `x` in pre-order.
    */
    function FindFrom(n: TreeNode?, x: int): (r: TreeNode?)
      requires Shaped() && (n != null ==> n in Path)
      reads this, Path.Keys
      ensures var p := PreOrder(n); var k := FirstWith(p, x);
              (r == null <==> k == |p|) && (r != null ==> r == p[k])
      decreases if n == null then {} else Below(n)
    {
      if n == null then null
      else
        BelowChild(n);
        if n.value == x then
          assert PreOrder(n)[0] == n;
          n
        else
          var leftRet := FindFrom(n.left, x);
          var rightRet := FindFrom(n.right, x);
          PreOrderScan(n, x);
          if leftRet != null then leftRet else rightRet
    }

    /**
      Scanning the pre-order of a node that does not hold `x` scans its left
      subtree, then its right subtree.
    */
    lemma PreOrderScan(n: TreeNode, x: int)
      requires Shaped() && n in Path && n.value != x
      ensures n.left != null ==> n.left in Path
      ensures n.right != null ==> n.right in Path
      ensures var p, pl, pr := PreOrder(n), PreOrder(n.left), PreOrder(n.right);
              var k, kl, kr := FirstWith(p, x), FirstWith(pl, x), FirstWith(pr, x);
              && |p| == 1 + |pl| + |pr|
              && (kl < |pl| ==> k == 1 + kl && p[k] == pl[kl])
              && (kl == |pl| ==> k == 1 + |pl| + kr && (kr < |pr| ==> p[k] == pr[kr]))
    {
      BelowChild(n);
      var pl, pr := PreOrder(n.left), PreOrder(n.right);
      assert PreOrder(n) == [n] + pl + pr;
      ScanPastNode(n, pl, pr, x);
    }

    /**
      `BinaryTree::find` on the whole tree: some node is returned exactly when
      `x` is stored, that node holds `x`, and it is the first such node in
      pre-order.
    */
    function Find(x: int): (r: TreeNode?)
      requires Valid()
      reads this, Path.Keys
      ensures r == null <==> x !in Values()
      ensures r != null ==> r in Nodes && r.value == x
      ensures var p := PreOrder(root); var k := FirstWith(p, x);
              r != null ==> k < |p| && r == p[k]
    {
      FindCovers(x);
      FindFrom(root, x)
    }

    /** The pre-order scan finds `x` exactly when `x` is among the stored values. */
    lemma FindCovers(x: int)
      requires Shaped() && Listed()
      ensures FirstWith(PreOrder(root), x) < |PreOrder(root)| <==> x in Values()
      ensures FirstWith(PreOrder(root), x) < |PreOrder(root)| ==>
                PreOrder(root)[FirstWith(PreOrder(root), x)] in Nodes
    {
      var p := PreOrder(root);
      var k := FirstWith(p, x);
      if root == null {
        assert Nodes == [];
        return;
      }
      PreOrderCovers(root);
      if k < |p| {
        var m := p[k];
        assert m in Below(root);
        assert m in Nodes;
        var i :| 0 <= i < |Nodes| && Nodes[i] == m;
        assert Values()[i] == x;
      }
      if x in Values() {
        var i :| 0 <= i < |Values()| && Values()[i] == x;
        var m := Nodes[i];
        assert m in Path;
        assert [] <= Path[m];
        assert m in Below(root);
        var j :| 0 <= j < |p| && p[j] == m;
        FirstWithIsFirst(p, x);
      }
    }

    /**
      `BinaryTree::insert`: when the tree is empty, `x` becomes the root;
      otherwise a cursor walks down from the root, turning left when `x` is
      smaller than the cursor's value and right otherwise, and `x` is hung as
      a new leaf in the first empty child slot it meets. Exactly one node is
      added, no existing node moves, and the search order (ties to the
      right) and the parent links are kept.
    */
    method Insert(x: int)
      requires Valid()
      modifies this, Path.Keys
      ensures Valid()
      ensures |Nodes| == |old(Nodes)| + 1 && Nodes[..|old(Nodes)|] == old(Nodes)
      ensures Values() == old(Values()) + [x]
      ensures multiset(Values()) == old(multiset(Values())) + multiset{x}
      ensures var leaf := Nodes[|Nodes| - 1];
              && fresh(leaf) && leaf.value == x && leaf.left == null && leaf.right == null
              && (old(root) == null ==> root == leaf && leaf.parent == null)
              && (old(root) != null ==>
                    && root == old(root) && leaf.parent != null && leaf.parent in old(Path)
                    && Path[leaf] == Path[leaf.parent] + [!(x < leaf.parent.value)]
                    && (if x < leaf.parent.value then leaf.parent.left == leaf else leaf.parent.right == leaf))
      ensures forall n :: n in old(Path) ==>
                && n in Path && Path[n] == old(Path[n]) && n.parent == old(n.parent)
                && (n.left == old(n.left) || (old(n.left) == null && n.left == Nodes[|Nodes| - 1]))
                && (n.right == old(n.right) || (old(n.right) == null && n.right == Nodes[|Nodes| - 1]))
    {
      if root == null {
        var node := new TreeNode(x);
        root := node;
        Nodes := [node];
        Path := map[node := []];
        SingletonValid();
      } else {
        var cursor, d := SlotFor(x);
        var leaf := Hang(cursor, d, x);
        HangEffects(Slot(cursor, d));
      }
    }

    /**
      The walk of `BinaryTree::insert` down a non-empty tree: from the root,
      turn left when `x` is smaller than the cursor's value and right
      otherwise, until the slot on that side is empty. That slot is where `x`
      keeps the search order.
    */
    method SlotFor(x: int) returns (cursor: TreeNode, d: bool)
      requires Valid() && root != null
      ensures cursor in Path && d == !(x < cursor.value)
      ensures (if d then cursor.right else cursor.left) == null
      ensures SlotIsFree(cursor, d, x)
    {
      cursor := root;
      d := !(x < cursor.value);
      while (if d then cursor.right else cursor.left) != null
        invariant cursor in Path && d == !(x < cursor.value)
        invariant forall n {:trigger Beneath(Path[n], false, Path[cursor])} ::
                    n in Path && Beneath(Path[n], false, Path[cursor]) ==> x < n.value
        invariant forall n {:trigger Beneath(Path[n], true, Path[cursor])} ::
                    n in Path && Beneath(Path[n], true, Path[cursor]) ==> n.value <= x
        decreases Below(cursor)
      {
        BelowChild(cursor);
        Descend(cursor, d, x);
        cursor := if d then cursor.right else cursor.left;
        d := !(x < cursor.value);
      }
      PrepareAttach(cursor, d, x);
    }

    /** Hangs a new leaf holding `x` in the free slot of `c` on side `d`. */
    method Hang(c: TreeNode, d: bool, x: int) returns (leaf: TreeNode)
      requires Valid() && c in Path && SlotIsFree(c, d, x)
      requires (if d then c.right else c.left) == null
      modifies this, c
      ensures Hung(Slot(c, d)) && Slot(c, d).Child() == leaf && leaf.value == x
      ensures Valid()
    {
      leaf := new TreeNode.Leaf(x, c);
      if d {
        c.right := leaf;
      } else {
        c.left := leaf;
      }
      Nodes := Nodes + [leaf];
      Path := Path[leaf := Path[c] + [d]];
      HangKeepsValid(Slot(c, d));
    }

    /** A tree holding one node, with no parent and no children, at the root position. */
    lemma SingletonValid()
      requires root != null && root.parent == null && root.left == null && root.right == null
      requires Path == map[root := []] && Nodes == [root]
      ensures Valid()
    {
      assert !Beneath([], false, []) && !Beneath([], true, []);
    }

    /** Turning from the cursor toward `x` keeps "`x` belongs beneath every turn on the way". */
    lemma Descend(c: TreeNode, d: bool, x: int)
      requires Shaped() && c in Path
      requires d == !(x < c.value)
      requires forall n {:trigger Beneath(Path[n], false, Path[c])} ::
                 n in Path && Beneath(Path[n], false, Path[c]) ==> x < n.value
      requires forall n {:trigger Beneath(Path[n], true, Path[c])} ::
                 n in Path && Beneath(Path[n], true, Path[c]) ==> n.value <= x
      ensures forall n {:trigger Beneath(Path[n], false, Path[c] + [d])} ::
                n in Path && Beneath(Path[n], false, Path[c] + [d]) ==> x < n.value
      ensures forall n {:trigger Beneath(Path[n], true, Path[c] + [d])} ::
                n in Path && Beneath(Path[n], true, Path[c] + [d]) ==> n.value <= x
    {
      forall n | n in Path
        ensures Beneath(Path[n], false, Path[c] + [d]) ==> x < n.value
        ensures Beneath(Path[n], true, Path[c] + [d]) ==> n.value <= x
      {
        BeneathSnoc(Path[n], false, Path[c], d);
        BeneathSnoc(Path[n], true, Path[c], d);
      }
    }

    /**
      The empty slot of `c` on side `d` is where `x` belongs: no node sits at
      or beneath it, `x` is in search order with every node above it, and
      every other turn on the way down leads to a non-empty slot.
    */
    ghost predicate SlotIsFree(c: TreeNode, d: bool, x: int)
      requires c in Path
      reads this, Path.Keys
    {
      && (forall m :: m in Path ==> Path[m] != Path[c] + [d])
      && (forall m, b {:trigger Beneath(Path[c] + [d], b, Path[m])} ::
            m in Path ==> !Beneath(Path[c] + [d], b, Path[m]))
      && (forall n {:trigger Beneath(Path[n], false, Path[c] + [d])} ::
            n in Path && Beneath(Path[n], false, Path[c] + [d]) ==>
              x < n.value && (n.left != null || (n == c && !d)))
      && (forall n {:trigger Beneath(Path[n], true, Path[c] + [d])} ::
            n in Path && Beneath(Path[n], true, Path[c] + [d]) ==>
              n.value <= x && (n.right != null || (n == c && d)))
    }

    /** The slot where the insertion loop stops is free for `x`. */
    lemma PrepareAttach(c: TreeNode, d: bool, x: int)
      requires Shaped() && c in Path
      requires d == !(x < c.value)
      requires (if d then c.right else c.left) == null
      requires forall n {:trigger Beneath(Path[n], false, Path[c])} ::
                 n in Path && Beneath(Path[n], false, Path[c]) ==> x < n.value
      requires forall n {:trigger Beneath(Path[n], true, Path[c])} ::
                 n in Path && Beneath(Path[n], true, Path[c]) ==> n.value <= x
      ensures SlotIsFree(c, d, x)
    {
      Descend(c, d, x);
      forall m | m in Path
        ensures Path[m] != Path[c] + [d]
      {
        if Path[m] == Path[c] + [d] {
          assert Beneath(Path[c], d, Path[m]);
          assert false;
        }
      }
      forall m, b | m in Path
        ensures !Beneath(Path[c] + [d], b, Path[m])
      {
        if Beneath(Path[c] + [d], b, Path[m]) {
          BeneathShift(Path[c], d, b, Path[m]);
          assert false;
        }
      }
      forall n | n in Path
        ensures Beneath(Path[n], false, Path[c] + [d]) ==> n.left != null || (n == c && !d)
        ensures Beneath(Path[n], true, Path[c] + [d]) ==> n.right != null || (n == c && d)
      {
        BeneathSnoc(Path[n], false, Path[c], d);
        BeneathSnoc(Path[n], true, Path[c], d);
      }
    }

    /**
      The step from the entry state to the current one hung a new leaf in
      the slot `s`, which was empty, and changed nothing else.
    */
    twostate predicate Hung(s: Slot)
      reads this, s.node, Path.Keys
    {
      && s.node in old(Path) && old(s.Child()) == null
      && s.Child() != null && fresh(s.Child())
      && Path == old(Path)[s.Child() := old(Path[s.node]) + [s.right]]
      && Nodes == old(Nodes) + [s.Child()]
      && root == old(root)
      && s.Child().parent == s.node && s.Child().left == null && s.Child().right == null
      && (if s.right then s.node.left else s.node.right) == old(if s.right then s.node.left else s.node.right)
      && (forall n :: n in old(Path) ==> n.parent == old(n.parent))
      && (forall n :: n in old(Path) && n != s.node ==> n.left == old(n.left) && n.right == old(n.right))
    }

    /** Hanging a value in a slot that is free for it keeps every invariant of the tree. */
    twostate lemma HangKeepsValid(s: Slot)
      requires Hung(s) && old(Valid()) && (var x := s.Child().value; old(SlotIsFree(s.node, s.right, x)))
      ensures Valid()
    {
      HangKeepsShaped(s);
      HangKeepsLinked(s);
      HangKeepsOrdered(s);
      HangKeepsListed(s);
    }

    /** What hanging a value in the slot `s` does to the stored nodes, in the terms `Insert` promises them. */
    twostate lemma HangEffects(s: Slot)
      requires old(root) != null && Hung(s) && s.right == !(s.Child().value < s.node.value)
      ensures var leaf := s.Child();
              |Nodes| == |old(Nodes)| + 1 && Nodes[..|old(Nodes)|] == old(Nodes) && Nodes[|Nodes| - 1] == leaf
      ensures Values() == old(Values()) + [s.Child().value]
      ensures multiset(Values()) == old(multiset(Values())) + multiset{s.Child().value}
      ensures var leaf, x := s.Child(), s.Child().value;
              && root == old(root) && leaf.parent != null && leaf.parent in old(Path)
              && Path[leaf] == Path[leaf.parent] + [!(x < leaf.parent.value)]
              && (if x < leaf.parent.value then leaf.parent.left == leaf else leaf.parent.right == leaf)
      ensures var leaf := s.Child();
              forall n :: n in old(Path) ==>
                && n in Path && Path[n] == old(Path[n]) && n.parent == old(n.parent)
                && (n.left == old(n.left) || (old(n.left) == null && n.left == leaf))
                && (n.right == old(n.right) || (old(n.right) == null && n.right == leaf))
    {
      assert Nodes[..|Nodes| - 1] == old(Nodes);
    }

    twostate lemma HangKeepsShaped(s: Slot)
      requires Hung(s) && old(Shaped()) && (var x := s.Child().value; old(SlotIsFree(s.node, s.right, x)))
      ensures Shaped()
    {
    }

    twostate lemma HangKeepsLinked(s: Slot)
      requires Hung(s) && old(Linked()) && old(root != null ==> root in Path)
      ensures Linked()
    {
      HangKeepsBackLinks(s);
      HangKeepsParents(s);
    }

    twostate lemma HangKeepsBackLinks(s: Slot)
      requires Hung(s) && old(Linked()) && old(root != null ==> root in Path)
      ensures root != null && root in Path ==> root.parent == null
      ensures forall n :: n in Path && n.left != null && n.left in Path ==> n.left.parent == n
      ensures forall n :: n in Path && n.right != null && n.right in Path ==> n.right.parent == n
    {
    }

    twostate lemma HangKeepsParents(s: Slot)
      requires Hung(s) && old(Linked())
      ensures forall n :: n in Path && n != root ==>
                n.parent != null && n.parent in Path && (n.parent.left == n || n.parent.right == n)
    {
      forall n | n in Path && n != root
        ensures n.parent != null && n.parent in Path && (n.parent.left == n || n.parent.right == n)
      {
        if n != s.Child() {
          assert old(n.parent != null && n.parent in Path && (n.parent.left == n || n.parent.right == n));
        }
      }
    }

    twostate lemma HangKeepsOrdered(s: Slot)
      requires Hung(s) && old(Ordered()) && (var x := s.Child().value; old(SlotIsFree(s.node, s.right, x)))
      ensures Ordered()
    {
    }

    twostate lemma HangKeepsListed(s: Slot)
      requires Hung(s) && old(Listed())
      ensures Listed()
    {
    }

    /** `BinaryTree::new`: the empty tree. */
    constructor ()
      ensures Valid() && root == null && Values() == []
    {
      root := null;
      Nodes := [];
      Path := map[];
    }
  }
}
