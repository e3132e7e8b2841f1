/**
 The bounded in-order walk of rbtree_to_array, on values.
 */
module Traversal {
  import opened Trees

  /** The nodes inorder_fill writes, in order, when the output already holds `idx` keys.
      The bound is checked on entry to a subtree, and not again after its left part. */
  function Visited<T>(t: Tree<T>, idx: nat, n: nat): seq<T> {
    if t.Leaf? || n <= idx then []
    else
      var l := Visited(t.left, idx, n);
      l + [t.id] + Visited(t.right, idx + |l| + 1, n)
  }

  lemma VisitedNone<T>(t: Tree<T>, idx: nat, n: nat)
    requires t.Leaf? || n <= idx
    ensures Visited(t, idx, n) == []
  {
  }

  lemma VisitedNode<T>(t: Tree<T>, idx: nat, n: nat)
    requires t.Node? && idx < n
    ensures var l := Visited(t.left, idx, n); Visited(t, idx, n) == l + [t.id] + Visited(t.right, idx + |l| + 1, n)
  {
  }

  /** The node at in-order position `k` is the root or reached from it by right links only. */
  predicate OnRightSpine<T>(t: Tree<T>, k: nat) {
    t.Node? &&
    (k == |Inorder(t.left)| || (|Inorder(t.left)| < k && OnRightSpine(t.right, k - |Inorder(t.left)| - 1)))
  }

  /** A room for `room` more keys suffices exactly when the walk ends, or stops on the right spine. */
  predicate Bounded<T>(t: Tree<T>, room: nat) {
    room == 0 || |Inorder(t)| <= room || OnRightSpine(t, room - 1)
  }

  /** As long as there is room for the whole subtree, the walk is the in-order walk. */
  lemma {:induction false} VisitedAll<T>(t: Tree<T>, idx: nat, n: nat)
    requires idx + |Inorder(t)| <= n
    ensures Visited(t, idx, n) == Inorder(t)
  {
    if t.Node? {
      VisitedAll(t.left, idx, n);
      VisitedAll(t.right, idx + |Inorder(t.left)| + 1, n);
    }
  }

  lemma CommonPrefix<T>(a: seq<T>, v: seq<T>, r: seq<T>, m: nat)
    requires m <= |v| && m <= |r| && v[..m] == r[..m]
    ensures (a + v)[..|a| + m] == (a + r)[..|a| + m]
  {
    assert (a + v)[..|a| + m] == a + v[..m];
    assert (a + r)[..|a| + m] == a + r[..m];
  }

  /** The first keys written are always the smallest ones, in order. */
  lemma {:induction false} VisitedPrefix<T>(t: Tree<T>, idx: nat, n: nat)
    requires idx <= n
    ensures var m := if |Inorder(t)| <= n - idx then |Inorder(t)| else n - idx;
      m <= |Visited(t, idx, n)| && Visited(t, idx, n)[..m] == Inorder(t)[..m]
  {
    if t.Node? && idx < n {
      var a, s, room := Inorder(t.left), Inorder(t), n - idx;
      if |a| < room {
        VisitedAll(t.left, idx, n);
        VisitedPrefix(t.right, idx + |a| + 1, n);
        var r, v := Inorder(t.right), Visited(t.right, idx + |a| + 1, n);
        var m := if |r| <= room - |a| - 1 then |r| else room - |a| - 1;
        assert Visited(t, idx, n) == (a + [t.id]) + v && s == (a + [t.id]) + r;
        CommonPrefix(a + [t.id], v, r, m);
      } else {
        VisitedPrefix(t.left, idx, n);
        assert Visited(t, idx, n)[..room] == Visited(t.left, idx, n)[..room];
        assert s[..room] == a[..room];
      }
    }
  }

  /** Exactly when the walk writes no more than `n` keys. */
  lemma {:induction false} VisitedFits<T>(t: Tree<T>, idx: nat, n: nat)
    requires idx <= n
    ensures idx + |Visited(t, idx, n)| <= n <==> Bounded(t, n - idx)
  {
    if t.Node? && idx < n {
      var a := Inorder(t.left);
      if idx + |a| < n {
        VisitedAll(t.left, idx, n);
        VisitedFits(t.right, idx + |a| + 1, n);
      } else {
        VisitedPrefix(t.left, idx, n);
      }
    }
  }

  /** How many keys the walk writes past its bound. */
  function Excess<T>(t: Tree<T>, n: nat): nat {
    var k := |Visited(t, 0, n)|;
    if k <= n then 0 else k - n
  }

  /** Every key past the bound is an ancestor of the node that filled it up. */
  lemma {:induction false} VisitedExcess<T>(t: Tree<T>, idx: nat, n: nat)
    requires idx <= n
    ensures idx + |Visited(t, idx, n)| <= n + if t.Leaf? then 0 else Height(t) - 1
  {
    if t.Node? && idx < n {
      VisitedExcess(t.left, idx, n);
      var i := idx + |Visited(t.left, idx, n)| + 1;
      if i <= n { VisitedExcess(t.right, i, n); } else { VisitedNone(t.right, i, n); }
    }
  }

  /** So an array with room for 2*log2(keys + 1) - 1 more than `n` is always big enough. */
  lemma ExcessBound<T>(t: Tree<T>, n: nat)
    requires RedBlack(t)
    ensures Excess(t, n) > 0 ==> Pow2((Excess(t, n) + 2) / 2) <= |Inorder(t)| + 1
  {
    VisitedExcess(t, 0, n);
    HeightBound(t);
    if Excess(t, n) > 0 { Pow2Monotone((Excess(t, n) + 2) / 2, (Height(t) + 1) / 2); }
  }

  /** Three keys, room for one: the walk writes twice. */
  lemma Overrun(a: int, b: int, c: int)
    ensures var t := Node(Node(Leaf, a, Red, Leaf), b, Black, Node(Leaf, c, Red, Leaf));
      RedBlack(t) && |Visited(t, 0, 1)| == 2
  {
    var l := Node(Leaf, a, Red, Leaf);
    assert Visited(l, 0, 1) == [a];
  }
}
