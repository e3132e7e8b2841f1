/**
 Post-order traversal of a linked binary tree with one stack: postOrderIterativeS1 of Q4_F_BST.c.

 A node is printed when it has no right child, or when its right child is the node printed last.
 */
module PostOrder {

  class BstNode {
    var item: int
    var left: BstNode?
    var right: BstNode?
  }

  datatype Shape = Empty | Fork(left: Shape, node: BstNode, right: Shape)

  /** The links from `n` on are the finite tree `t`. */
  ghost predicate Rep(ns: set<BstNode>, n: BstNode?, t: Shape)
    reads ns
  {
    match t
    case Empty => n == null
    case Fork(l, x, r) => n == x && x in ns && Rep(ns, x.left, l) && Rep(ns, x.right, r)
  }

  /** The recursive traversal. */
  ghost function Post(t: Shape): seq<BstNode> {
    match t
    case Empty => []
    case Fork(l, x, r) => Post(l) + Post(r) + [x]
  }

  ghost predicate NoDup(ns: seq<BstNode>) { forall i, j :: 0 <= i < j < |ns| ==> ns[i] != ns[j] }

  /** A node on the stack, its right subtree, and whether that has been entered. */
  datatype Frame = Frame(node: BstNode, right: Shape, entered: bool)

  /** What is still to be printed for the nodes on the stack, top first. */
  ghost function Pending(fs: seq<Frame>): seq<BstNode> {
    if fs == [] then []
    else
      var f := fs[|fs| - 1];
      (if f.entered then [f.node] else Post(f.right) + [f.node]) + Pending(fs[..|fs| - 1])
  }

  /** How many nodes below the stack have not been pushed. */
  ghost function Unpushed(fs: seq<Frame>): nat {
    if fs == [] then 0
    else
      var f := fs[|fs| - 1];
      (if f.entered then 0 else |Post(f.right)|) + Unpushed(fs[..|fs| - 1])
  }

  /** The stack, bottom first: an entered right subtree has its root next on the stack; if nothing is above, it is
      `node`, or the last node printed. */
  ghost predicate Stacked(ns: set<BstNode>, fs: seq<Frame>, stack: seq<BstNode>, node: BstNode?, prev: BstNode?)
    reads ns
  {
    |stack| == |fs| &&
    forall i {:trigger fs[i]} :: 0 <= i < |fs| ==>
      stack[i] == fs[i].node && fs[i].node in ns && Rep(ns, fs[i].node.right, fs[i].right) &&
      (fs[i].entered ==> fs[i].node.right == if i + 1 < |fs| then stack[i + 1] else if node != null then node else prev)
  }

  lemma PendingPush(fs: seq<Frame>, f: Frame)
    ensures Pending(fs + [f]) == (if f.entered then [f.node] else Post(f.right) + [f.node]) + Pending(fs)
    ensures Unpushed(fs + [f]) == (if f.entered then 0 else |Post(f.right)|) + Unpushed(fs)
  {
    assert (fs + [f])[..|fs|] == fs;
  }

  /** The root of a tree is printed with it. */
  lemma RootIn(ns: set<BstNode>, n: BstNode?, t: Shape)
    requires Rep(ns, n, t) && n != null
    ensures t.Fork? && n in Post(t)
  {
  }

  /** A node printed is not met again. */
  lemma NotAgain(done: seq<BstNode>, rest: seq<BstNode>, x: BstNode)
    requires NoDup(done + rest) && x in rest
    ensures x !in done
  {
    var j :| 0 <= j < |rest| && rest[j] == x;
    forall i | 0 <= i < |done| ensures done[i] != x {
      assert (done + rest)[i] == done[i] && (done + rest)[|done| + j] == x;
    }
  }

  /** What the loops keep: printed, in progress and pending nodes make up the recursive traversal. */
  ghost predicate Progress(ns: set<BstNode>, all: seq<BstNode>, done: seq<BstNode>, cur: Shape, fs: seq<Frame>,
      stack: seq<BstNode>, node: BstNode?, prev: BstNode?)
    reads ns
  {
    Rep(ns, node, cur) && Stacked(ns, fs, stack, node, prev) && done + (Post(cur) + Pending(fs)) == all &&
      (prev == null || prev in done)
  }

  /** push(&stack, node); node = node->left */
  lemma Pushed(ns: set<BstNode>, all: seq<BstNode>, done: seq<BstNode>, cur: Shape, fs: seq<Frame>,
      stack: seq<BstNode>, node: BstNode, prev: BstNode?)
    requires Progress(ns, all, done, cur, fs, stack, node, prev)
    ensures cur.Fork? && node == cur.node && node in ns
    ensures var fs' := fs + [Frame(node, cur.right, false)];
      Progress(ns, all, done, cur.left, fs', stack + [node], node.left, prev) &&
      |Post(cur.left)| + |Pending(fs')| == |Post(cur)| + |Pending(fs)| &&
        |Post(cur.left)| + Unpushed(fs') + 1 == |Post(cur)| + Unpushed(fs)
  {
    var f := Frame(node, cur.right, false);
    PendingPush(fs, f);
    assert Post(cur) + Pending(fs) == Post(cur.left) + ((Post(cur.right) + [node]) + Pending(fs));
  }

  /** The node on top is printed and popped. */
  lemma Printed(ns: set<BstNode>, all: seq<BstNode>, done: seq<BstNode>, fs: seq<Frame>, stack: seq<BstNode>,
      prev: BstNode?)
    requires Progress(ns, all, done, Empty, fs, stack, null, prev) && NoDup(all) && fs != []
    requires var x := fs[|fs| - 1].node; x in ns && (x.right == null || x.right == prev)
    ensures var x, fs' := fs[|fs| - 1].node, fs[..|fs| - 1];
      |stack| == |fs| && x == stack[|stack| - 1] &&
        Progress(ns, all, done + [x], Empty, fs', stack[..|stack| - 1], null, x) && |Pending(fs')| + 1 == |Pending(fs)|
  {
    var fs', f := fs[..|fs| - 1], fs[|fs| - 1];
    assert fs == fs' + [f];
    PendingPush(fs', f);
    if !f.entered && f.node.right != null {
      RootIn(ns, f.node.right, f.right);
      NotAgain(done, Post(Empty) + Pending(fs), f.node.right);
    }
    assert done + (Post(Empty) + Pending(fs)) == (done + [f.node]) + (Post(Empty) + Pending(fs'));
    assert Stacked(ns, fs', stack[..|stack| - 1], null, f.node);
  }

  /** The right subtree of the node on top is entered. */
  lemma Entered(ns: set<BstNode>, all: seq<BstNode>, done: seq<BstNode>, fs: seq<Frame>, stack: seq<BstNode>,
      prev: BstNode?)
    requires Progress(ns, all, done, Empty, fs, stack, null, prev) && fs != []
    requires var x := fs[|fs| - 1].node; x in ns && x.right != null && x.right != prev
    ensures var f := fs[|fs| - 1]; var fs' := fs[..|fs| - 1] + [f.(entered := true)];
      Progress(ns, all, done, f.right, fs', stack, f.node.right, prev) &&
      |Post(f.right)| + |Pending(fs')| == |Pending(fs)| && |Post(f.right)| + Unpushed(fs') == Unpushed(fs)
  {
    var fs0, f := fs[..|fs| - 1], fs[|fs| - 1];
    assert fs == fs0 + [f];
    assert !f.entered;
    PendingPush(fs0, f);
    PendingPush(fs0, f.(entered := true));
    assert Post(Empty) + Pending(fs) == Post(f.right) + ([f.node] + Pending(fs0));
  }

  /** postOrderIterativeS1: prints exactly what the recursive traversal prints, and terminates. */
  method PostOrderIterative(root: BstNode?, ghost ns: set<BstNode>, ghost t: Shape) returns (out: seq<int>)
    requires Rep(ns, root, t) && NoDup(Post(t))
    ensures |out| == |Post(t)| && forall i :: 0 <= i < |out| ==> out[i] == Post(t)[i].item
  {
    hide Rep, Post, Pending, Unpushed, Stacked, NoDup, Progress;
    var stack: seq<BstNode>, node, prev: BstNode? := [], root, null;
    ghost var all, done: seq<BstNode>, cur, fs: seq<Frame> := Post(t), [], t, [];
    out := [];
    Started(ns, root, t);
    while stack != [] || node != null
      invariant Progress(ns, all, done, cur, fs, stack, node, prev)
      invariant |out| == |done| && forall i :: 0 <= i < |out| ==> out[i] == done[i].item
      decreases |Post(cur)| + |Pending(fs)|, |Post(cur)| + Unpushed(fs), node == null
    {
      ghost var rest, free, none := |Post(cur)| + |Pending(fs)|, |Post(cur)| + Unpushed(fs), node == null;
      while node != null
        invariant Progress(ns, all, done, cur, fs, stack, node, prev)
        invariant |Post(cur)| + |Pending(fs)| == rest && |Post(cur)| + Unpushed(fs) <= free &&
          (none || |Post(cur)| + Unpushed(fs) < free || node != null)
        invariant |out| == |done| && forall i :: 0 <= i < |out| ==> out[i] == done[i].item
        invariant (none ==> node == null) && (stack != [] || node != null)
        decreases |Post(cur)| + Unpushed(fs)
      {
        Pushed(ns, all, done, cur, fs, stack, node, prev);
        fs := fs + [Frame(node, cur.right, false)];
        cur := cur.left;
        stack := stack + [node];
        node := node.left;
      }
      Peek(ns, all, done, cur, fs, stack, prev);
      node := stack[|stack| - 1];
      if node.right == null || node.right == prev {
        Printed(ns, all, done, fs, stack, prev);
        out := out + [node.item];
        done := done + [node];
        stack := stack[..|stack| - 1];
        fs := fs[..|fs| - 1];
        prev := node;
        node := null;
      } else {
        Entered(ns, all, done, fs, stack, prev);
        ghost var f := fs[|fs| - 1];
        fs := fs[..|fs| - 1] + [f.(entered := true)];
        cur := f.right;
        node := node.right;
      }
    }
    Finished(ns, all, done, cur, fs, stack, prev);
  }

  lemma Started(ns: set<BstNode>, root: BstNode?, t: Shape)
    requires Rep(ns, root, t)
    ensures Progress(ns, Post(t), [], t, [], [], root, null)
  {
    assert [] + (Post(t) + Pending([])) == Post(t);
  }

  lemma Peek(ns: set<BstNode>, all: seq<BstNode>, done: seq<BstNode>, cur: Shape, fs: seq<Frame>, stack: seq<BstNode>,
      prev: BstNode?)
    requires Progress(ns, all, done, cur, fs, stack, null, prev) && stack != []
    ensures cur == Empty && |Post(cur)| == 0 && fs != [] && |fs| == |stack| &&
      fs[|fs| - 1].node == stack[|stack| - 1] && stack[|stack| - 1] in ns
  {
  }

  lemma Finished(ns: set<BstNode>, all: seq<BstNode>, done: seq<BstNode>, cur: Shape, fs: seq<Frame>,
      stack: seq<BstNode>, prev: BstNode?)
    requires Progress(ns, all, done, cur, fs, stack, null, prev) && stack == []
    ensures done == all
  {
  }
}
