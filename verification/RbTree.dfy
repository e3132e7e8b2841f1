/**
 The pointer red-black tree of the rbtree lab (rbtree.h, rbtree.c).
 */
module RbTrees {
  import opened Trees
  import opened Links
  import opened Rebalance
  import Traversal

  class Node {
    var color: Color
    var key: int
    var parent: Node
    var left: Node
    var right: Node

    constructor Sentinel()
      ensures color == Black && left == this && right == this && parent == this
    {
      color := Black;
      key := 0;
      left, right, parent := this, this, this;
    }

    constructor (k: int, nil: Node)
      ensures color == Red && key == k && left == nil && right == nil && parent == nil
    {
      color := Red;
      key := k;
      left, right, parent := nil, nil, nil;
    }
  }

  /** Keys do not decrease along the sequence. */
  ghost predicate SortedBy(ns: seq<Node>, m: map<Node, int>) {
    forall i, j :: 0 <= i < j < |ns| && ns[i] in m && ns[j] in m ==> m[ns[i]] <= m[ns[j]]
  }

  lemma SortedDrop(ns: seq<Node>, k: nat, m: map<Node, int>, m': map<Node, int>)
    requires k < |ns| && SortedBy(ns, m) && m' == m - {ns[k]}
    ensures SortedBy(Drop(ns, k), m')
  {
  }

  ghost predicate AllAtMost(ns: seq<Node>, m: map<Node, int>, key: int) {
    forall i :: 0 <= i < |ns| && ns[i] in m ==> m[ns[i]] <= key
  }

  ghost predicate AllAbove(ns: seq<Node>, m: map<Node, int>, key: int) {
    forall i :: 0 <= i < |ns| && ns[i] in m ==> key < m[ns[i]]
  }

  lemma SortedInsert(a: seq<Node>, b: seq<Node>, z: Node, key: int, m: map<Node, int>)
    requires SortedBy(a + b, m) && z !in a + b
    requires AllAtMost(a, m, key) && AllAbove(b, m, key)
    ensures SortedBy(a + [z] + b, m[z := key])
  {
    var ns, s, m', k := a + b, a + [z] + b, m[z := key], |a|;
    forall i, j | 0 <= i < j < |s| && s[i] in m' && s[j] in m' ensures m'[s[i]] <= m'[s[j]] {
      assert i < k ==> s[i] == a[i] && ns[i] == a[i];
      assert i > k ==> s[i] == b[i - k - 1] && ns[i - 1] == b[i - k - 1];
      assert j < k ==> s[j] == a[j] && ns[j] == a[j];
      assert j > k ==> s[j] == b[j - k - 1] && ns[j - 1] == b[j - k - 1];
    }
  }

  ghost predicate AllBelow(ns: seq<Node>, m: map<Node, int>, key: int) {
    forall i :: 0 <= i < |ns| && ns[i] in m ==> m[ns[i]] < key
  }

  lemma NotBetween(a: seq<Node>, b: seq<Node>, m: map<Node, int>, key: int, n: Node)
    requires AllBelow(a, m, key) && AllAbove(b, m, key) && n in a + b && n in m
    ensures m[n] != key
  {
    var i :| 0 <= i < |a + b| && (a + b)[i] == n;
    if i < |a| { assert a[i] == n; } else { assert b[i - |a|] == n; }
  }

  /** The keys of a sequence of nodes. */
  ghost function KeySeq(ns: seq<Node>, m: map<Node, int>): seq<int> {
    seq(|ns|, i requires 0 <= i < |ns| => if ns[i] in m then m[ns[i]] else 0)
  }

  lemma SortedSplit(a: seq<Node>, n: Node, b: seq<Node>, m: map<Node, int>, key: int)
    requires SortedBy(a + [n] + b, m) && n in m
    ensures key < m[n] ==> AllAbove([n] + b, m, key)
    ensures m[n] <= key ==> AllAtMost(a + [n], m, key)
    ensures m[n] < key ==> AllBelow(a + [n], m, key)
  {
    var s := a + [n] + b;
    assert s[|a|] == n;
    forall i | 0 <= i < |a + [n]| ensures (a + [n])[i] == s[i] {}
    forall i | 0 <= i < |[n] + b| ensures ([n] + b)[i] == s[|a| + i] {}
  }

  class RbTree {
    var root: Node
    const nil: Node
    ghost var nodes: set<Node>    // all nodes but the sentinel
    ghost var tree: Tree<Node>    // the tree the links spell out, between calls

    ghost function CellOf(n: Node): Cell<Node>
      reads n
    {
      Cell(n.left, n.right, n.parent, n.color)
    }

    ghost function Cells(): Store<Node>
      reads nodes, `nodes
    {
      map n | n in nodes :: CellOf(n)
    }

    /** The pointers spell out exactly the zipper (c, t). */
    ghost predicate Zip(c: Ctx<Node>, t: Tree<Node>)
      reads this, nodes
    {
      nil !in nodes && nodes == CtxIds(c) + Ids(t) && Rep(Cells(), nil, root, c, t)
    }

    ghost function Keys(): map<Node, int>
      reads nodes, `nodes
    {
      map n | n in nodes :: n.key
    }

    ghost predicate Valid()
      reads this, nodes, nil
    {
      Zip(Top, tree) && RedBlack(tree) && SortedBy(Inorder(tree), Keys()) && Sentinel()
    }

    constructor ()
      ensures Valid() && tree == Leaf && nodes == {} && fresh(nil)
    {
      var sentinel := new Node.Sentinel();
      nil := sentinel;
      root := sentinel;
      nodes := {};
      tree := Leaf;
    }

    /** Hangs `v` where `x` hung: the first lines of both rotations and of transplant. */
    method ReplaceChild(x: Node, v: Node, ghost c: Ctx<Node>, ghost f: Tree<Node>)
      requires Zip(c, f) && f.Node? && f.id == x
      modifies `root, HoleIds(c)`left, HoleIds(c)`right
      ensures root == NewRoot(c, v, old(root))
      ensures c.InLeft? ==> c.id.left == v && c.id.right == old(c.id.right)
      ensures c.InRight? ==> c.id.right == v && c.id.left == old(c.id.left)
    {
      RootInCtx(Cells(), nil, root, c, x);
      if x == root {
        root := v;
      } else if x.parent.left == x {
        x.parent.left := v;
      } else {
        x.parent.right := v;
      }
    }

    /** Turns the edge between `x` and its right child `y`, moving `y`'s left subtree across. */
    method TurnLeft(x: Node, y: Node)
      requires x != y && y.left != x && y.left != y
      modifies x`right, x`parent, y`left, y`parent, (if y.left != nil then {y.left} else {})`parent
      ensures y.left == x && y.parent == old(x.parent) && x.right == old(y.left) && x.parent == y
      ensures old(y.left) != nil ==> old(y.left).parent == x
    {
      y.parent := x.parent;
      if y.left != nil {
        y.left.parent := x;
      }
      x.right := y.left;
      x.parent := y;
      y.left := x;
    }

    method LeftRotate(x: Node, ghost c: Ctx<Node>, ghost f: Tree<Node>)
      requires Zip(c, f) && f.Node? && f.id == x
      modifies `root, nodes`left, nodes`right, nodes`parent
      ensures Zip(c, if f.right.Node? then RotateLeft(f) else f)
    {
      hide Rep, RepTree, RepCtx, RotateLeft, RotateRight, CtxIds, Ids, NewRoot;
      LeftView(Cells(), nil, root, c, f);
      HoleView(Cells(), c, f);
      var right := x.right;
      if right == nil {
        return;
      }
      ghost var s := Cells();
      ReplaceChild(x, right, c, f);
      TurnLeft(x, right);
      assert CellOf(right) == Cell(x, s[right].right, s[x].parent, s[right].color);
      assert CellOf(x) == Cell(s[x].left, s[right].left, right, s[x].color);
      assert forall n :: n in nodes && n !in {x, right} + HoleIds(c) + TopIds(f.right.left) ==> CellOf(n) == s[n];
      LeftRotated(s, old(root), c, f);
    }

    lemma LeftRotated(s: Store<Node>, root0: Node, c: Ctx<Node>, f: Tree<Node>)
      requires Rep(s, nil, root0, c, f) && f.Node? && f.right.Node? && f.right.id in s
      requires nodes == s.Keys == CtxIds(c) + Ids(f) && nil !in nodes && root == NewRoot(c, f.right.id, root0)
      requires forall n ::
        n in nodes && n !in {f.id, f.right.id} + HoleIds(c) + TopIds(f.right.left) ==> CellOf(n) == s[n]
      requires c.InLeft? ==> c.id in s && CellOf(c.id) == s[c.id].(left := f.right.id)
      requires c.InRight? ==> c.id in s && CellOf(c.id) == s[c.id].(right := f.right.id)
      requires CellOf(f.right.id) == Cell(f.id, s[f.right.id].right, s[f.id].parent, s[f.right.id].color)
      requires CellOf(f.id) == Cell(s[f.id].left, s[f.right.id].left, f.right.id, s[f.id].color)
      requires f.right.left.Node? ==>
        f.right.left.id in s && CellOf(f.right.left.id) == s[f.right.left.id].(parent := f.id)
      ensures Zip(c, RotateLeft(f))
    {
      LeftView(s, nil, root0, c, f);
      assert SameOutside(s, Cells(), {f.id, f.right.id} + HoleIds(c) + TopIds(f.right.left));
      assert RotatedLeft(s, Cells(), nil, c, f);
      RotateLeftRep(s, Cells(), nil, root0, c, f);
      RotateLeftKeeps(f);
    }

    /** Turns the edge between `y` and its left child `x`, moving `x`'s right subtree across. */
    method TurnRight(y: Node, x: Node)
      requires x != y && x.right != x && x.right != y
      modifies y`left, y`parent, x`right, x`parent, (if x.right != nil then {x.right} else {})`parent
      ensures x.right == y && x.parent == old(y.parent) && y.left == old(x.right) && y.parent == x
      ensures old(x.right) != nil ==> old(x.right).parent == y
    {
      x.parent := y.parent;
      if x.right != nil {
        x.right.parent := y;
      }
      y.left := x.right;
      y.parent := x;
      x.right := y;
    }

    method RightRotate(y: Node, ghost c: Ctx<Node>, ghost f: Tree<Node>)
      requires Zip(c, f) && f.Node? && f.id == y
      modifies `root, nodes`left, nodes`right, nodes`parent
      ensures Zip(c, if f.left.Node? then RotateRight(f) else f)
    {
      hide Rep, RepTree, RepCtx, RotateLeft, RotateRight, CtxIds, Ids, NewRoot;
      RightView(Cells(), nil, root, c, f);
      HoleView(Cells(), c, f);
      var left := y.left;
      if left == nil {
        return;
      }
      ghost var s := Cells();
      ReplaceChild(y, left, c, f);
      TurnRight(y, left);
      assert CellOf(left) == Cell(s[left].left, y, s[y].parent, s[left].color);
      assert CellOf(y) == Cell(s[left].right, s[y].right, left, s[y].color);
      assert forall n :: n in nodes && n !in {left, y} + HoleIds(c) + TopIds(f.left.right) ==> CellOf(n) == s[n];
      RightRotated(s, old(root), c, f);
    }

    lemma RightRotated(s: Store<Node>, root0: Node, c: Ctx<Node>, f: Tree<Node>)
      requires Rep(s, nil, root0, c, f) && f.Node? && f.left.Node? && f.left.id in s
      requires nodes == s.Keys == CtxIds(c) + Ids(f) && nil !in nodes && root == NewRoot(c, f.left.id, root0)
      requires forall n ::
        n in nodes && n !in {f.left.id, f.id} + HoleIds(c) + TopIds(f.left.right) ==> CellOf(n) == s[n]
      requires c.InLeft? ==> c.id in s && CellOf(c.id) == s[c.id].(left := f.left.id)
      requires c.InRight? ==> c.id in s && CellOf(c.id) == s[c.id].(right := f.left.id)
      requires CellOf(f.left.id) == Cell(s[f.left.id].left, f.id, s[f.id].parent, s[f.left.id].color)
      requires CellOf(f.id) == Cell(s[f.left.id].right, s[f.id].right, f.left.id, s[f.id].color)
      requires f.left.right.Node? ==>
        f.left.right.id in s && CellOf(f.left.right.id) == s[f.left.right.id].(parent := f.id)
      ensures Zip(c, RotateRight(f))
    {
      RightView(s, nil, root0, c, f);
      assert SameOutside(s, Cells(), {f.left.id, f.id} + HoleIds(c) + TopIds(f.left.right));
      assert RotatedRight(s, Cells(), nil, c, f);
      RotateRightRep(s, Cells(), nil, root0, c, f);
      RotateRightKeeps(f);
    }

    /** `n->color = col`, for a node (or the sentinel) brought into focus. */
    method SetColor(n: Node, col: Color, ghost c: Ctx<Node>, ghost f: Tree<Node>)
      requires Zip(c, f) && n == RootId(f, nil)
      modifies n`color
      ensures Zip(c, Paint(f, col)) && n.color == col
    {
      ghost var s := Cells();
      n.color := col;
      if f.Node? {
        assert SameOutside(s, Cells(), {n});
        RecolorRep(s, Cells(), nil, root, c, f, col);
      } else {
        assert Cells() == s;
      }
    }

    /** The same pointers with the focus one level up. */
    lemma Up(c: Ctx<Node>, f: Tree<Node>)
      requires !c.Top?
      ensures Zip(c, f) <==> Zip(c.up, UpTree(c, f))
    {
      RepUp(Cells(), nil, root, c, f);
    }

    /** The same pointers with the focus on the sibling. */
    lemma Across(c: Ctx<Node>, f: Tree<Node>)
      requires !c.Top?
      ensures Zip(c, f) <==> Zip(SiblingCtx(c, f), Sibling(c))
    {
      Up(c, f);
      Up(SiblingCtx(c, f), Sibling(c));
    }

    lemma Whole(c: Ctx<Node>, f: Tree<Node>)
      ensures Zip(c, f) <==> Zip(Top, Plug(c, f))
    {
      ZipRep(Cells(), nil, root, c, f);
      PlugIds(c, f);
    }

    /** What the fields around the hole hold. */
    lemma Around(c: Ctx<Node>, f: Tree<Node>)
      requires Zip(c, f) && !c.Top?
      ensures c.id in nodes && c.id.color == c.color && c.id.parent == CtxId(c.up, nil)
      ensures f.Node? ==> f.id in nodes && f.id.parent == c.id && f.id.color == f.color
      ensures f.Node? ==> (c.id.left == f.id <==> c.InLeft?) && (c.id.right == f.id <==> c.InRight?)
      ensures c.InLeft? ==> c.id.left == RootId(f, nil) && c.id.right == RootId(c.right, nil)
      ensures c.InRight? ==> c.id.right == RootId(f, nil) && c.id.left == RootId(c.left, nil)
      ensures Sibling(c).Node? ==> Sibling(c).id in nodes && Sibling(c).id.color == Sibling(c).color
    {
    }

    /** Parent and uncle are red: recolour. */
    method RecolorUp(parent: Node, uncle: Node, grandparent: Node, ghost c: Ctx<Node>, ghost f: Tree<Node>)
      requires Zip(c, f) && !c.Top? && !c.up.Top? && Sibling(c.up).Node?
      requires parent == c.id && grandparent == c.up.id && uncle == Sibling(c.up).id
      modifies nodes`color
      ensures Zip(c.up.up, RecolorStep(c, f))
    {
      ghost var p := UpTree(c, f);
      Up(c, f);
      SetColor(parent, Black, c.up, p);
      p := Paint(p, Black);
      ghost var u, cu := Sibling(c.up), SiblingCtx(c.up, p);
      Across(c.up, p);
      SetColor(uncle, Black, cu, u);
      u := Paint(u, Black);
      Up(cu, u);
      SetColor(grandparent, Red, c.up.up, UpTree(cu, u));
    }

    /** An outer grandchild under a black uncle: exchange colours, ready for the rotation. */
    method RecolorLift(parent: Node, grandparent: Node, ghost c: Ctx<Node>, ghost f: Tree<Node>)
      requires Zip(c, f) && !c.Top? && !c.up.Top? && parent == c.id && grandparent == c.up.id
      modifies nodes`color
      ensures Zip(c.up.up, LiftTree(c, f))
    {
      ghost var p := UpTree(c, f);
      Up(c, f);
      SetColor(parent, Black, c.up, p);
      p := Paint(p, Black);
      Up(c.up, p);
      SetColor(grandparent, Red, c.up.up, UpTree(c.up, p));
    }

    method PaintRoot(ghost c: Ctx<Node>, ghost f: Tree<Node>)
      requires Zip(c, f)
      modifies root`color
      ensures Zip(Top, Paint(Plug(c, f), Black)) && root.color == Black
    {
      Whole(c, f);
      ghost var t := Plug(c, f);
      SetColor(root, Black, Top, t);
    }

    /** Cases 2 and 3, the parent being a left child. */
    method LiftLeftSide(z: Node, p: Node, grandparent: Node, ghost c0: Ctx<Node>, ghost f0: Tree<Node>)
      returns (node: Node, ghost c: Ctx<Node>, ghost f: Tree<Node>)
      requires Zip(c0, f0) && InsertOk(c0, f0) && RedTop(c0) && c0.up.InLeft? && !IsRed(c0.up.right)
      requires z == f0.id && p == c0.id && grandparent == c0.up.id
      modifies `root, nodes`left, nodes`right, nodes`parent, nodes`color
      ensures Zip(c, f) && InsertOk(c, f) && !RedTop(c) && !c.Top? && f.id == node && Depth(c) < Depth(c0)
      ensures Inorder(Plug(c, f)) == Inorder(Plug(c0, f0))
    {
      var parent := p;
      node := z;
      c, f := c0, f0;
      if node == parent.right {
        StraightenLeftOk(c, f);
        Up(c, f);
        node := parent;
        LeftRotate(node, c.up, UpTree(c, f));
        f, c := RotateLeft(UpTree(c, f)).left, InLeft(c.up, f.id, Red, f.right);
        Up(c, f);
        parent := node.parent;
      }
      LiftRightOk(c, f);
      RecolorLift(parent, grandparent, c, f);
      RightRotate(grandparent, c.up.up, LiftTree(c, f));
      c := InLeft(c.up.up, parent, Black, RotateRight(LiftTree(c, f)).right);
      Up(c, f);
    }

    /** Cases 2 and 3, the parent being a right child. */
    method LiftRightSide(z: Node, p: Node, grandparent: Node, ghost c0: Ctx<Node>, ghost f0: Tree<Node>)
      returns (node: Node, ghost c: Ctx<Node>, ghost f: Tree<Node>)
      requires Zip(c0, f0) && InsertOk(c0, f0) && RedTop(c0) && c0.up.InRight? && !IsRed(c0.up.left)
      requires z == f0.id && p == c0.id && grandparent == c0.up.id
      modifies `root, nodes`left, nodes`right, nodes`parent, nodes`color
      ensures Zip(c, f) && InsertOk(c, f) && !RedTop(c) && !c.Top? && f.id == node && Depth(c) < Depth(c0)
      ensures Inorder(Plug(c, f)) == Inorder(Plug(c0, f0))
    {
      var parent := p;
      node := z;
      c, f := c0, f0;
      if node == parent.left {
        StraightenRightOk(c, f);
        Up(c, f);
        node := parent;
        RightRotate(node, c.up, UpTree(c, f));
        f, c := RotateRight(UpTree(c, f)).right, InRight(c.up, f.left, f.id, Red);
        Up(c, f);
        parent := node.parent;
      }
      LiftLeftOk(c, f);
      RecolorLift(parent, grandparent, c, f);
      LeftRotate(grandparent, c.up.up, LiftTree(c, f));
      c := InRight(c.up.up, RotateLeft(LiftTree(c, f)).left, parent, Black);
      Up(c, f);
    }

    method InsertFixup(z: Node, ghost c0: Ctx<Node>, ghost f0: Tree<Node>) returns (ghost t: Tree<Node>)
      requires Zip(c0, f0) && InsertOk(c0, f0) && f0.id == z && nil.color == Black
      modifies `root, nodes`left, nodes`right, nodes`parent, nodes`color
      ensures Zip(Top, t) && RedBlack(t) && Inorder(t) == Inorder(Plug(c0, f0))
    {
      hide Fits;
      var node := z;
      ghost var c, f := c0, f0;
      while node.parent != nil && node.parent.color == Red
        invariant Zip(c, f) && InsertOk(c, f) && f.id == node && Inorder(Plug(c, f)) == Inorder(Plug(c0, f0))
        decreases Depth(c)
      {
        Around(c, f);
        var parent := node.parent;
        var grandparent := parent.parent;
        RedParent(c, f);
        Up(c, f);
        Around(c.up, UpTree(c, f));
        if grandparent == nil { break; }
        if parent == grandparent.left {
          var uncle := grandparent.right;
          if uncle.color == Red {
            RecolorStepOk(c, f);
            RecolorUp(parent, uncle, grandparent, c, f);
            c, f := c.up.up, RecolorStep(c, f);
            node := grandparent;
            continue;
          }
          node, c, f := LiftLeftSide(node, parent, grandparent, c, f);
        } else {
          var uncle := grandparent.left;
          if uncle.color == Red {
            RecolorStepOk(c, f);
            RecolorUp(parent, uncle, grandparent, c, f);
            c, f := c.up.up, RecolorStep(c, f);
            node := grandparent;
            continue;
          }
          node, c, f := LiftRightSide(node, parent, grandparent, c, f);
        }
      }
      InsertDone(c, f);
      RootInCtx(Cells(), nil, root, c, node);
      PaintRoot(c, f);
      t := Paint(Plug(c, f), Black);
    }

    // ------------------------------------------------------------- erasing

    /** `bro->color = col` */
    method PaintSibling(bro: Node, col: Color, ghost c: Ctx<Node>, ghost f: Tree<Node>)
      requires Zip(c, f) && !c.Top? && Sibling(c).Node? && Sibling(c).id == bro
      modifies bro`color
      ensures Zip(WithSibling(c, Paint(Sibling(c), col)), f)
    {
      Across(c, f);
      SetColor(bro, col, SiblingCtx(c, f), Sibling(c));
      Across(WithSibling(c, Paint(Sibling(c), col)), f);
    }

    /** `node->parent->color = col` */
    method PaintParent(p: Node, col: Color, ghost c: Ctx<Node>, ghost f: Tree<Node>) returns (ghost c': Ctx<Node>)
      requires Zip(c, f) && !c.Top? && c.id == p
      modifies p`color
      ensures c' == (if c.InLeft? then InLeft(c.up, c.id, col, c.right) else InRight(c.up, c.left, c.id, col))
      ensures Zip(c', f)
    {
      c' := if c.InLeft? then InLeft(c.up, c.id, col, c.right) else InRight(c.up, c.left, c.id, col);
      Up(c, f);
      SetColor(p, col, c.up, UpTree(c, f));
      Up(c', f);
    }

    /** `bro->left->color = col` */
    method PaintLeftNephew(n: Node, col: Color, ghost c: Ctx<Node>, ghost f: Tree<Node>)
      requires Zip(c, f) && !c.Top? && Sibling(c).Node? && Sibling(c).left.Node? && n == Sibling(c).left.id
      modifies n`color
      ensures Zip(WithSibling(c, Sibling(c).(left := Paint(Sibling(c).left, col))), f)
    {
      ghost var s, k := Sibling(c), SiblingCtx(c, f);
      ghost var kn := InLeft(k, s.id, s.color, s.right);
      Across(c, f);
      Up(kn, s.left);
      SetColor(n, col, kn, s.left);
      Up(kn, Paint(s.left, col));
      Across(WithSibling(c, s.(left := Paint(s.left, col))), f);
    }

    /** `bro->right->color = col` */
    method PaintRightNephew(n: Node, col: Color, ghost c: Ctx<Node>, ghost f: Tree<Node>)
      requires Zip(c, f) && !c.Top? && Sibling(c).Node? && Sibling(c).right.Node? && n == Sibling(c).right.id
      modifies n`color
      ensures Zip(WithSibling(c, Sibling(c).(right := Paint(Sibling(c).right, col))), f)
    {
      ghost var s, k := Sibling(c), SiblingCtx(c, f);
      ghost var kn := InRight(k, s.left, s.id, s.color);
      Across(c, f);
      Up(kn, s.right);
      SetColor(n, col, kn, s.right);
      Up(kn, Paint(s.right, col));
      Across(WithSibling(c, s.(right := Paint(s.right, col))), f);
    }

    /** The sentinel's parent field names the parent of an empty focus. */
    ghost predicate At(node: Node, c: Ctx<Node>, f: Tree<Node>)
      reads this, nodes, nil
    {
      Zip(c, f) && node == RootId(f, nil) && node.parent == CtxId(c, nil)
    }

    ghost predicate Sentinel()
      reads nil
    {
      nil.color == Black && nil.left == nil && nil.right == nil
    }

    /** Case 1: the sibling is red. */
    method BorrowRedLeft(node: Node, bro: Node, ghost c: Ctx<Node>, ghost f: Tree<Node>)
      returns (ghost c': Ctx<Node>)
      requires At(node, c, f) && c.InLeft? && c.right.Node? && bro == c.right.id
      modifies `root, nodes`left, nodes`right, nodes`parent, nodes`color
      ensures c' == InLeft(InLeft(c.up, c.right.id, Black, c.right.right), c.id, Red, c.right.left) && At(node, c', f)
    {
      hide RB, Fits, BlackRoot, Inorder, Plug, RepTree, RepCtx, Distinct, CtxDistinct;
      Around(c, f);
      PaintSibling(bro, Black, c, f);
      ghost var c1 := PaintParent(node.parent, Red, WithSibling(c, Paint(c.right, Black)), f);
      Up(c1, f);
      LeftRotate(node.parent, c.up, UpTree(c1, f));
      c' := InLeft(InLeft(c.up, c.right.id, Black, c.right.right), c.id, Red, c.right.left);
      assert RotateLeft(UpTree(c1, f)) == UpTree(c'.up, UpTree(c', f));
      Up(c'.up, UpTree(c', f));
      Up(c', f);
      Around(c', f);
    }

    /** Case 3: the inner nephew is red, the outer one black. */
    method TurnNephewLeft(bro: Node, ghost c: Ctx<Node>, ghost f: Tree<Node>)
      requires Zip(c, f) && c.InLeft? && c.right.Node? && c.right.left.Node? && bro == c.right.id
      requires c.right.left.id == bro.left
      modifies `root, nodes`left, nodes`right, nodes`parent, nodes`color
      ensures Zip(WithSibling(c, Case3Left(c.right)), f)
    {
      ghost var s := c.right.(left := Paint(c.right.left, Black));
      PaintLeftNephew(bro.left, Black, c, f);
      PaintSibling(bro, Red, WithSibling(c, s), f);
      s := Paint(s, Red);
      ghost var c1 := WithSibling(c, s);
      Across(c1, f);
      RightRotate(bro, SiblingCtx(c1, f), s);
      Across(WithSibling(c, Case3Left(c.right)), f);
    }

    /** Case 4: the outer nephew is red; the rotation settles the debt. */
    method SettleLeft(node: Node, bro: Node, ghost c: Ctx<Node>, ghost f: Tree<Node>)
      requires At(node, c, f) && c.InLeft? && c.right.Node? && c.right.right.Node? && bro == c.right.id
      modifies `root, nodes`left, nodes`right, nodes`parent, nodes`color
      ensures Zip(Top, Plug(c.up, RotateLeft(Case4Left(c, f))))
    {
      Around(c, f);
      Across(c, f);
      ghost var s := Paint(c.right, c.color);
      PaintSibling(bro, node.parent.color, c, f);
      ghost var c1 := PaintParent(node.parent, Black, WithSibling(c, s), f);
      Around(c1, f);
      RightOf(SiblingCtx(c1, f), s);
      Across(c1, f);
      PaintRightNephew(bro.right, Black, c1, f);
      c1 := WithSibling(c1, s.(right := Paint(s.right, Black)));
      Up(c1, f);
      LeftRotate(node.parent, c.up, UpTree(c1, f));
      Whole(c.up, RotateLeft(Case4Left(c, f)));
    }

    lemma RightOf(c: Ctx<Node>, f: Tree<Node>)
      requires Zip(c, f) && f.Node?
      ensures f.id in nodes && f.id.right == RootId(f.right, nil) && f.id.left == RootId(f.left, nil) &&
        f.id.color == f.color
      ensures f.right.Node? ==> f.right.id in nodes && f.right.id.color == f.right.color
      ensures f.left.Node? ==> f.left.id in nodes && f.left.id.color == f.left.color
    {
      if f.right.Node? {
        assert RepTree(Cells(), nil, f.right, f.id);
        assert CellIs(Cells(), f.right.id, CellOf(f.right.id));
      }
      if f.left.Node? {
        assert RepTree(Cells(), nil, f.left, f.id);
        assert CellIs(Cells(), f.left.id, CellOf(f.left.id));
      }
    }

    /** Case 2: both nephews are black; the debt moves up. */
    method PushDebtUp(node: Node, bro: Node, ghost c: Ctx<Node>, ghost f: Tree<Node>) returns (next: Node)
      requires At(node, c, f) && !c.Top? && Sibling(c).Node? && bro == Sibling(c).id
      modifies nodes`color
      ensures At(next, c.up, Case2Tree(c, f))
    {
      Around(c, f);
      PaintSibling(bro, Red, c, f);
      next := node.parent;
      Up(WithSibling(c, Paint(Sibling(c), Red)), f);
    }

    /** Cases 3 and 4, the focus being a left child. */
    method SettleDebtLeft(node: Node, sibling: Node, ghost c0: Ctx<Node>, ghost f: Tree<Node>)
      returns (next: Node, ghost t: Tree<Node>)
      requires At(node, c0, f) && Sentinel() && DeleteOk(c0, f) && !IsRed(f) && c0.InLeft? && sibling == c0.right.id
      requires !IsRed(c0.right) && (IsRed(c0.right.left) || IsRed(c0.right.right))
      modifies `root, nodes`left, nodes`right, nodes`parent, nodes`color
      ensures At(next, Top, t) && DeleteOk(Top, t) && !IsRed(t) && t.Node? && Inorder(t) == Inorder(Plug(c0, f))
    {
      var bro := sibling;
      ghost var c := c0;
      Across(c, f);
      RightOf(SiblingCtx(c, f), Sibling(c));
      ChildColors(SiblingCtx(c, f), Sibling(c));
      if bro.right.color == Black {
        Case3LeftOk(c, f);
        TurnNephewLeft(bro, c, f);
        c := WithSibling(c, Case3Left(c.right));
        Around(c, f);
        bro := node.parent.right;
      }
      Case4LeftOk(c, f);
      SettleLeft(node, bro, c, f);
      t := Plug(c.up, RotateLeft(Case4Left(c, f)));
      next := root;
      RootOf(t);
    }

    lemma RootOf(t: Tree<Node>)
      requires Zip(Top, t)
      ensures root == RootId(t, nil) && (t.Node? ==> root.parent == nil)
    {
    }

    lemma ChildColors(c: Ctx<Node>, f: Tree<Node>)
      requires Zip(c, f) && f.Node? && Sentinel()
      ensures f.id.left.color == Red <==> IsRed(f.left)
      ensures f.id.right.color == Red <==> IsRed(f.right)
    {
      RightOf(c, f);
    }

    /** Cases 2 to 4: the sibling is black. */
    method EraseBlackLeft(node: Node, bro: Node, ghost c: Ctx<Node>, ghost f: Tree<Node>)
      returns (next: Node, ghost c': Ctx<Node>, ghost f': Tree<Node>)
      requires At(node, c, f) && Sentinel() && DeleteOk(c, f) && !IsRed(f) && c.InLeft?
      requires c.right.Node? && bro == c.right.id && !IsRed(c.right)
      modifies `root, nodes`left, nodes`right, nodes`parent, nodes`color
      ensures At(next, c', f') && DeleteOk(c', f') && f'.Node? && Inorder(Plug(c', f')) == Inorder(Plug(c, f))
      ensures (c' == Top && !IsRed(f')) || (c' == c.up && f'.color == c.color)
    {
      Across(c, f);
      ChildColors(SiblingCtx(c, f), Sibling(c));
      if bro.left.color == Black && bro.right.color == Black {
        Case2Ok(c, f);
        next := PushDebtUp(node, bro, c, f);
        c', f' := c.up, Case2Tree(c, f);
      } else {
        next, f' := SettleDebtLeft(node, bro, c, f);
        c' := Top;
      }
    }

    /** One pass of the loop, for a focus that is a left child. */
    method EraseStepLeft(node: Node, ghost c0: Ctx<Node>, ghost f: Tree<Node>)
      returns (next: Node, ghost c': Ctx<Node>, ghost f': Tree<Node>)
      requires At(node, c0, f) && Sentinel() && DeleteOk(c0, f) && !IsRed(f) && c0.InLeft?
      modifies `root, nodes`left, nodes`right, nodes`parent, nodes`color
      ensures At(next, c', f') && DeleteOk(c', f') && f'.Node? && Debt(c', f') < Debt(c0, f)
      ensures Inorder(Plug(c', f')) == Inorder(Plug(c0, f))
    {
      ghost var c := c0;
      SiblingExists(c, f);
      Around(c, f);
      var bro := node.parent.right;
      if bro.color == Red {
        Case1LeftOk(c, f);
        c := BorrowRedLeft(node, bro, c, f);
        SiblingExists(c, f);
        Around(c, f);
        bro := node.parent.right;
      }
      next, c', f' := EraseBlackLeft(node, bro, c, f);
    }

    /** Case 1: the sibling is red. */
    method BorrowRedRight(node: Node, bro: Node, ghost c: Ctx<Node>, ghost f: Tree<Node>)
      returns (ghost c': Ctx<Node>)
      requires At(node, c, f) && c.InRight? && c.left.Node? && bro == c.left.id
      modifies `root, nodes`left, nodes`right, nodes`parent, nodes`color
      ensures c' == InRight(InRight(c.up, c.left.left, c.left.id, Black), c.left.right, c.id, Red) && At(node, c', f)
    {
      hide RB, Fits, BlackRoot, Inorder, Plug, RepTree, RepCtx, Distinct, CtxDistinct;
      Around(c, f);
      PaintSibling(bro, Black, c, f);
      ghost var c1 := PaintParent(node.parent, Red, WithSibling(c, Paint(c.left, Black)), f);
      Up(c1, f);
      RightRotate(node.parent, c.up, UpTree(c1, f));
      c' := InRight(InRight(c.up, c.left.left, c.left.id, Black), c.left.right, c.id, Red);
      assert RotateRight(UpTree(c1, f)) == UpTree(c'.up, UpTree(c', f));
      Up(c'.up, UpTree(c', f));
      Up(c', f);
      Around(c', f);
    }

    /** Case 3: the inner nephew is red, the outer one black. */
    method TurnNephewRight(bro: Node, ghost c: Ctx<Node>, ghost f: Tree<Node>)
      requires Zip(c, f) && c.InRight? && c.left.Node? && c.left.right.Node? && bro == c.left.id
      requires c.left.right.id == bro.right
      modifies `root, nodes`right, nodes`left, nodes`parent, nodes`color
      ensures Zip(WithSibling(c, Case3Right(c.left)), f)
    {
      ghost var s := c.left.(right := Paint(c.left.right, Black));
      PaintRightNephew(bro.right, Black, c, f);
      PaintSibling(bro, Red, WithSibling(c, s), f);
      s := Paint(s, Red);
      ghost var c1 := WithSibling(c, s);
      Across(c1, f);
      LeftRotate(bro, SiblingCtx(c1, f), s);
      Across(WithSibling(c, Case3Right(c.left)), f);
    }

    /** Case 4: the outer nephew is red; the rotation settles the debt. */
    method SettleRight(node: Node, bro: Node, ghost c: Ctx<Node>, ghost f: Tree<Node>)
      requires At(node, c, f) && c.InRight? && c.left.Node? && c.left.left.Node? && bro == c.left.id
      modifies `root, nodes`right, nodes`left, nodes`parent, nodes`color
      ensures Zip(Top, Plug(c.up, RotateRight(Case4Right(c, f))))
    {
      Around(c, f);
      Across(c, f);
      ghost var s := Paint(c.left, c.color);
      PaintSibling(bro, node.parent.color, c, f);
      ghost var c1 := PaintParent(node.parent, Black, WithSibling(c, s), f);
      Around(c1, f);
      RightOf(SiblingCtx(c1, f), s);
      Across(c1, f);
      PaintLeftNephew(bro.left, Black, c1, f);
      c1 := WithSibling(c1, s.(left := Paint(s.left, Black)));
      Up(c1, f);
      RightRotate(node.parent, c.up, UpTree(c1, f));
      Whole(c.up, RotateRight(Case4Right(c, f)));
    }

    /** Cases 3 and 4, the focus being a right child. */
    method SettleDebtRight(node: Node, sibling: Node, ghost c0: Ctx<Node>, ghost f: Tree<Node>)
      returns (next: Node, ghost t: Tree<Node>)
      requires At(node, c0, f) && Sentinel() && DeleteOk(c0, f) && !IsRed(f) && c0.InRight? && sibling == c0.left.id
      requires !IsRed(c0.left) && (IsRed(c0.left.right) || IsRed(c0.left.left))
      modifies `root, nodes`right, nodes`left, nodes`parent, nodes`color
      ensures At(next, Top, t) && DeleteOk(Top, t) && !IsRed(t) && t.Node? && Inorder(t) == Inorder(Plug(c0, f))
    {
      var bro := sibling;
      ghost var c := c0;
      Across(c, f);
      RightOf(SiblingCtx(c, f), Sibling(c));
      ChildColors(SiblingCtx(c, f), Sibling(c));
      if bro.left.color == Black {
        Case3RightOk(c, f);
        TurnNephewRight(bro, c, f);
        c := WithSibling(c, Case3Right(c.left));
        Around(c, f);
        bro := node.parent.left;
      }
      Case4RightOk(c, f);
      SettleRight(node, bro, c, f);
      t := Plug(c.up, RotateRight(Case4Right(c, f)));
      next := root;
      RootOf(t);
    }

    /** Cases 2 to 4: the sibling is black. */
    method EraseBlackRight(node: Node, bro: Node, ghost c: Ctx<Node>, ghost f: Tree<Node>)
      returns (next: Node, ghost c': Ctx<Node>, ghost f': Tree<Node>)
      requires At(node, c, f) && Sentinel() && DeleteOk(c, f) && !IsRed(f) && c.InRight?
      requires c.left.Node? && bro == c.left.id && !IsRed(c.left)
      modifies `root, nodes`right, nodes`left, nodes`parent, nodes`color
      ensures At(next, c', f') && DeleteOk(c', f') && f'.Node? && Inorder(Plug(c', f')) == Inorder(Plug(c, f))
      ensures (c' == Top && !IsRed(f')) || (c' == c.up && f'.color == c.color)
    {
      Across(c, f);
      ChildColors(SiblingCtx(c, f), Sibling(c));
      if bro.right.color == Black && bro.left.color == Black {
        Case2Ok(c, f);
        next := PushDebtUp(node, bro, c, f);
        c', f' := c.up, Case2Tree(c, f);
      } else {
        next, f' := SettleDebtRight(node, bro, c, f);
        c' := Top;
      }
    }

    /** One pass of the loop, for a focus that is a right child. */
    method EraseStepRight(node: Node, ghost c0: Ctx<Node>, ghost f: Tree<Node>)
      returns (next: Node, ghost c': Ctx<Node>, ghost f': Tree<Node>)
      requires At(node, c0, f) && Sentinel() && DeleteOk(c0, f) && !IsRed(f) && c0.InRight?
      modifies `root, nodes`right, nodes`left, nodes`parent, nodes`color
      ensures At(next, c', f') && DeleteOk(c', f') && f'.Node? && Debt(c', f') < Debt(c0, f)
      ensures Inorder(Plug(c', f')) == Inorder(Plug(c0, f))
    {
      ghost var c := c0;
      SiblingExists(c, f);
      Around(c, f);
      var bro := node.parent.left;
      if bro.color == Red {
        Case1RightOk(c, f);
        c := BorrowRedRight(node, bro, c, f);
        SiblingExists(c, f);
        Around(c, f);
        bro := node.parent.left;
      }
      next, c', f' := EraseBlackRight(node, bro, c, f);
    }

    method EraseFixup(start: Node, ghost c0: Ctx<Node>, ghost f0: Tree<Node>) returns (ghost t: Tree<Node>)
      requires At(start, c0, f0) && Sentinel() && DeleteOk(c0, f0)
      modifies `root, nodes`left, nodes`right, nodes`parent, nodes`color, nil`color
      ensures Zip(Top, t) && RedBlack(t) && Inorder(t) == Inorder(Plug(c0, f0)) && Sentinel()
    {
      hide RB, Fits, BlackRoot, Plug, Inorder, RepTree, RepCtx;
      var node := start;
      ghost var c, f := c0, f0;
      while node != root && node.color == Black
        invariant At(node, c, f) && Sentinel() && DeleteOk(c, f) && Inorder(Plug(c, f)) == Inorder(Plug(c0, f0))
        decreases Debt(c, f)
      {
        FocusColor(node, c, f);
        Around(c, f);
        EmptySide(c, f);
        if node == node.parent.left {
          node, c, f := EraseStepLeft(node, c, f);
        } else {
          node, c, f := EraseStepRight(node, c, f);
        }
      }
      FocusColor(node, c, f);
      DeleteDone(c, f);
      SetColor(node, Black, c, f);
      t := Plug(c, Paint(f, Black));
      Whole(c, Paint(f, Black));
      RootOf(t);
      SetColor(root, Black, Top, t);
      assert Paint(t, Black) == t;
    }

    lemma FocusColor(node: Node, c: Ctx<Node>, f: Tree<Node>)
      requires At(node, c, f) && Sentinel()
      ensures node.color == Red <==> IsRed(f)
      ensures f.Node? ==> node in nodes
      ensures c.Top? <==> node == root
    {
      RootInCtx(Cells(), nil, root, c, node);
      if f.Node? { RightOf(c, f); }
    }

    /** A short empty focus has a non-empty sibling, so the side test finds the right side. */
    lemma EmptySide(c: Ctx<Node>, f: Tree<Node>)
      requires Zip(c, f) && DeleteOk(c, f) && !c.Top?
      ensures RootId(f, nil) == c.id.left <==> c.InLeft?
    {
      SiblingExists(c, f);
      Around(c, f);
    }

    /** Puts `v` where `u` hangs; `v` may be the sentinel. */
    method Transplant(u: Node, v: Node, ghost c: Ctx<Node>)
      requires u.parent == CtxId(c, nil) && (!c.Top? ==> c.id != nil && c.id != u)
      requires c.InLeft? ==> c.id.left == u
      requires c.InRight? ==> c.id.right == u && c.id.left != u
      modifies `root, HoleIds(c)`left, HoleIds(c)`right, v`parent
      ensures root == NewRoot(c, v, old(root))
      ensures c.InLeft? ==> c.id.left == v && c.id.right == old(c.id.right)
      ensures c.InRight? ==> c.id.right == v && c.id.left == old(c.id.left)
      ensures v.parent == old(u.parent)
    {
      if u.parent == nil {
        root := v;
      } else if u == u.parent.left {
        u.parent.left := v;
      } else {
        u.parent.right := v;
      }
      v.parent := u.parent;
    }

    /** The pointers around a node with at most one child, whose subtree is `v`. */
    lemma SpliceView(c: Ctx<Node>, f: Tree<Node>, v: Tree<Node>)
      requires Zip(c, f) && f.Node? && ((f.left.Leaf? && v == f.right) || (f.right.Leaf? && v == f.left))
      ensures f.id in nodes && f.id.parent == CtxId(c, nil)
      ensures !c.Top? ==> c.id in nodes && c.id != nil && c.id != f.id && RootId(v, nil) != c.id
      ensures c.InLeft? ==> c.id.left == f.id
      ensures c.InRight? ==> c.id.right == f.id && c.id.left != f.id
      ensures v.Node? ==> v.id in nodes && v.id != f.id
      ensures nodes == CtxIds(c) + Ids(v) + {f.id} && f.id !in CtxIds(c) && f.id !in Ids(v)
    {
      hide RepTree, RepCtx;
      if !c.Top? { Around(c, f); }
      RightOf(c, f);
      HoleView(Cells(), c, f);
      assert v.Node? ==> v.id in Ids(v);
    }

    /** Cases 1 and 2 of the erasure: `p` has at most one child, which takes its place. */
    method SpliceOut(p: Node, x: Node, ghost c: Ctx<Node>, ghost f: Tree<Node>, ghost v: Tree<Node>)
      requires Zip(c, f) && f.Node? && f.id == p && x == RootId(v, nil)
      requires (f.left.Leaf? && v == f.right) || (f.right.Leaf? && v == f.left)
      modifies `root, `nodes, nodes`left, nodes`right, nodes`parent, nil`parent
      ensures nodes == old(nodes) - {p} && At(x, c, v)
    {
      hide RepTree, RepCtx, Ids, CtxIds;
      ghost var s := Cells();
      SpliceView(c, f, v);
      Transplant(p, x, c);
      Transplanted(s, old(root), c, f, v);
      Forget(c, v, p);
    }

    lemma Transplanted(s: Store<Node>, root0: Node, c: Ctx<Node>, f: Tree<Node>, v: Tree<Node>)
      requires Rep(s, nil, root0, c, f) && f.Node? && (v == f.left || v == f.right)
      requires nodes == s.Keys && nil !in nodes && root == NewRoot(c, RootId(v, nil), root0)
      requires forall n :: n in nodes && n !in TopIds(v) + HoleIds(c) ==> CellOf(n) == s[n]
      requires c.InLeft? ==> c.id in s && CellOf(c.id) == s[c.id].(left := RootId(v, nil))
      requires c.InRight? ==> c.id in s && CellOf(c.id) == s[c.id].(right := RootId(v, nil))
      requires v.Node? ==> v.id in s && CellOf(v.id) == s[v.id].(parent := CtxId(c, nil))
      ensures Rep(Cells(), nil, root, c, v)
    {
      assert SameOutside(s, Cells(), TopIds(v) + HoleIds(c));
      TransplantRep(s, Cells(), nil, root0, c, f, v);
    }

    /** Drops `p` from the node set once the links avoid it. */
    ghost method Forget(c: Ctx<Node>, f: Tree<Node>, p: Node)
      requires Rep(Cells(), nil, root, c, f) && nil !in nodes && nodes == CtxIds(c) + Ids(f) + {p}
      requires p !in CtxIds(c) && p !in Ids(f)
      modifies `nodes
      ensures nodes == old(nodes) - {p} && Zip(c, f)
    {
      ghost var s := Cells();
      nodes := nodes - {p};
      assert SameOutside(s, Cells(), {p});
      ForgetRep(s, Cells(), nil, root, c, f, p);
    }

    /** The pointers around the successor `g` of an inner node `f`. */
    lemma SuccessorView(c: Ctx<Node>, f: Tree<Node>, k: Ctx<Node>, g: Tree<Node>)
      requires Zip(c, f) && f.Node? && g.Node? && f.right == Plug(k, g)
      ensures Zip(SuccessorCtx(c, f, f.id, k), g)
      ensures k.Top? ==> SuccessorCtx(c, f, f.id, k) == InRight(c, f.left, f.id, f.color)
      ensures !k.Top? ==>
        SuccessorCtx(c, f, f.id, k).id == k.id && k.id != f.id && (SuccessorCtx(c, f, f.id, k).InLeft? <==> k.InLeft?)
    {
      var kp := InRight(c, f.left, f.id, f.color);
      Up(kp, f.right);
      ZipCompose(Cells(), nil, root, k, kp, g);
      if !k.Top? {
        PlugIds(k, g);
        assert k.id in Ids(f.right);
      }
    }

    /** What is known once the successor `y` has left its place below `p`; `s` is the store of the
        tree without `y`, and the right subtree of `p` has already been given to `y`. */
    ghost predicate SuccessorOut(p: Node, y: Node, s: Store<Node>, r: Tree<Node>)
      reads this, nodes
    {
      s.Keys == nodes && p in nodes && y in nodes && y.right == RootId(r, nil) &&
      p.left == s[p].left && p.parent == s[p].parent && p.color == s[p].color &&
      (r.Node? ==> r.id in nodes && CellOf(r.id) == s[r.id].(parent := y)) &&
      forall n :: n in nodes && n !in {p, y} + TopIds(r) ==> CellOf(n) == s[n]
    }

    method UnlinkChild(p: Node, y: Node, ghost c: Ctx<Node>, ghost f: Tree<Node>, ghost g: Tree<Node>)
      returns (x: Node, ghost s': Store<Node>)
      requires Zip(c, f) && f.Node? && f.id == p && f.right == g
      requires g.Node? && g.id == y && g.left.Leaf? && y.right == RootId(g.right, nil)
      modifies nodes`parent, nil`parent
      ensures x == RootId(g.right, nil) && x.parent == y
      ensures Rep(s', nil, root, c, WithoutSuccessor(f, Top, g)) && SuccessorOut(p, y, s', g.right)
    {
      hide RepTree, RepCtx, CtxIds;
      ghost var s := Cells();
      SuccessorView(c, f, Top, g);
      RightOf(InRight(c, f.left, f.id, f.color), g);
      x := y.right;
      s' := s[p := s[p].(right := x)];
      if g.right.Node? { s' := s'[x := s[x].(parent := p)]; }
      x.parent := y;
      UnlinkRep(s, s', nil, root, c, f, Top, g);
    }

    method AdoptRight(p: Node, y: Node, x: Node)
      requires y != p && p.right != x && y != x && y != p.right && y.left != p.right && y.left != y
      modifies y`right, (p.right)`parent, (y.left)`parent, x`parent
      ensures y.right == p.right && p.right == old(p.right) && p.right.parent == y && x.parent == old(y.parent)
    {
      y.right := p.right;
      y.right.parent := y;
      y.left.parent := y;
      x.parent := y.parent;
    }

    /** The pointers around a successor `g` further down below `f`. */
    lemma GrandchildView(c: Ctx<Node>, f: Tree<Node>, k: Ctx<Node>, g: Tree<Node>)
      requires Zip(c, f) && f.Node? && f.right == Plug(k, g) && !k.Top? && g.Node? && g.left.Leaf?
      ensures var kc := SuccessorCtx(c, f, f.id, k);
        Rep(Cells(), nil, root, kc, g) && !kc.Top? && kc.id == k.id && HoleIds(kc) == {k.id} && k.id in nodes
      ensures k.id != nil && k.id != g.id && g.id.parent == k.id && CtxId(SuccessorCtx(c, f, f.id, k), nil) == k.id
      ensures SuccessorCtx(c, f, f.id, k).InLeft? ==> k.id.left == g.id
      ensures SuccessorCtx(c, f, f.id, k).InRight? ==> k.id.right == g.id && k.id.left != g.id
      ensures g.id in nodes && g.id.left == nil && f.id in nodes && f.id != g.id && nil !in nodes
      ensures g.right.Node? ==> RootId(g.right, nil) in nodes
      ensures RootId(g.right, nil) != k.id
    {
      hide RepTree, RepCtx, Plug;
      var kc := SuccessorCtx(c, f, f.id, k);
      SuccessorView(c, f, k, g);
      Around(kc, g);
      RightOf(kc, g);
      assert g.right.Node? ==> g.right.id in Ids(g.right);
      WithoutSuccessorIds(c, f, k, g);
    }

    method HangGrandchild(y: Node, x: Node, ghost c: Ctx<Node>, ghost f: Tree<Node>, ghost k: Ctx<Node>,
        ghost g: Tree<Node>)
      requires Zip(c, f) && f.Node? && f.right == Plug(k, g) && !k.Top?
      requires g.Node? && g.id == y && g.left.Leaf? && x == RootId(g.right, nil)
      modifies `root, nodes`left, nodes`right, nodes`parent, nil`parent
      ensures root == old(root) && y.left == nil && y.parent == k.id && x.parent == k.id
      ensures Rep(Cells(), nil, root, c, WithoutSuccessor(f, k, g)) && y in nodes && f.id in nodes && f.id != y
    {
      hide RepTree, RepCtx, Plug, Zip, Ids, CtxIds, WithoutSuccessor, SuccessorCtx;
      ghost var s, kc := Cells(), SuccessorCtx(c, f, f.id, k);
      GrandchildView(c, f, k, g);
      Transplant(y, x, kc);
      Transplanted(s, old(root), kc, g, g.right);
      WithoutRep(Cells(), nil, root, c, f, k, g);
    }

    method UnlinkDeeper(p: Node, y: Node, ghost c: Ctx<Node>, ghost f: Tree<Node>, ghost k: Ctx<Node>,
        ghost g: Tree<Node>)
      returns (x: Node, ghost s': Store<Node>)
      requires Zip(c, f) && f.Node? && f.id == p && f.right == Plug(k, g) && !k.Top?
      requires g.Node? && g.id == y && g.left.Leaf? && y.right == RootId(g.right, nil)
      modifies `root, nodes`left, nodes`right, nodes`parent, nil`parent
      ensures root == old(root) && x == RootId(g.right, nil) && x.parent == k.id
      ensures Rep(s', nil, root, c, WithoutSuccessor(f, k, g)) && SuccessorOut(p, y, s', Plug(k, g.right))
    {
      hide RepTree, RepCtx, Plug, CtxIds, Ids, WithoutSuccessor, SuccessorOut;
      WithoutSuccessorIds(c, f, k, g);
      x := y.right;
      HangGrandchild(y, x, c, f, k, g);
      s' := Cells();
      AdoptBelow(p, y, x, c, f, k, g);
    }

    /** The successor takes over the right subtree that it has left. */
    method AdoptBelow(p: Node, y: Node, x: Node, ghost c: Ctx<Node>, ghost f: Tree<Node>, ghost k: Ctx<Node>,
        ghost g: Tree<Node>)
      requires f.Node? && g.Node? && f.id == p && g.id == y && x == RootId(g.right, nil) && !k.Top?
      requires Rep(Cells(), nil, root, c, WithoutSuccessor(f, k, g)) && nil !in nodes
      requires y !in Ids(WithoutSuccessor(f, k, g)) && y != nil
      requires p in nodes && y in nodes && y.left == nil && y.parent == k.id && x.parent == k.id
      modifies nodes`right, nodes`parent, nil`parent
      ensures x.parent == k.id && SuccessorOut(p, y, old(Cells()), Plug(k, g.right))
    {
      hide RepTree, RepCtx, Plug, CtxIds, Ids, Rep;
      Adopted(p, y, x, c, f, k, g);
      AdoptRight(p, y, x);
    }

    lemma Adopted(p: Node, y: Node, x: Node, c: Ctx<Node>, f: Tree<Node>, k: Ctx<Node>, g: Tree<Node>)
      requires f.Node? && g.Node? && f.id == p && g.id == y && x == RootId(g.right, nil) && !k.Top?
      requires Rep(Cells(), nil, root, c, WithoutSuccessor(f, k, g)) && nil !in nodes
      requires y !in Ids(WithoutSuccessor(f, k, g)) && y != nil
      ensures p.right == RootId(Plug(k, g.right), nil) && y != p && p.right != x && y != x && y != p.right
      ensures p.right in nodes && (g.right.Node? ==> x in nodes) && p.right != p && x != p
    {
      var r := Plug(k, g.right);
      PlugIds(k, g.right);
      PlugTop(k, g, g.right);
      RepIds(Cells(), nil, r, p);
      assert r.id in Ids(r);
      if g.right.Node? {
        assert x in Ids(g.right);
        TopInCtx(k, g.right);
      }
    }

    /** Second half of case 3: `y` takes the place, children and colour of `p`. */
    method TakePlace(p: Node, y: Node, ghost c: Ctx<Node>, ghost t: Tree<Node>, ghost s: Store<Node>)
      requires Rep(s, nil, root, c, t) && t.Node? && t.id == p && t.left.Node? && SuccessorOut(p, y, s, t.right)
      requires y !in CtxIds(c) && y !in Ids(t) && y != nil && nil !in nodes
      modifies `root, nodes`left, nodes`right, nodes`parent, nodes`color
      ensures Rep(Cells(), nil, root, c, t.(id := y))
    {
      HoleView(s, c, t);
      Transplant(p, y, c);
      AdoptLeft(p, y);
      Replaced(s, old(root), c, t, y);
    }

    method AdoptLeft(p: Node, y: Node)
      requires y != p && y != p.left
      modifies y`left, y`color, (p.left)`parent
      ensures y.left == p.left && p.left.parent == y && y.color == p.color
    {
      y.left := p.left;
      y.left.parent := y;
      y.color := p.color;
    }

    lemma HoleView(s: Store<Node>, c: Ctx<Node>, t: Tree<Node>)
      requires Rep(s, nil, root, c, t) && t.Node?
      ensures t.id in s && s[t.id].parent == CtxId(c, nil) && s[t.id].color == t.color
      ensures s[t.id].left == RootId(t.left, nil) && s[t.id].right == RootId(t.right, nil)
      ensures !c.Top? ==> c.id in s && c.id != nil && c.id != t.id && c.id !in Ids(t)
      ensures c.InLeft? ==> s[c.id].left == t.id
      ensures c.InRight? ==> s[c.id].right == t.id && s[c.id].left != t.id
      ensures t.left.Node? ==> t.left.id in s && t.left.id in Ids(t) && t.left.id != t.id && t.left.id != nil
      ensures t.right.Node? ==> t.right.id in s && t.right.id in Ids(t) && t.right.id != t.id
      ensures t.left.Node? && t.right.Node? ==> t.left.id != t.right.id
    {
      RepIds(s, nil, t, CtxId(c, nil));
      assert t.left.Node? ==> t.left.id in Ids(t.left);
      assert t.right.Node? ==> t.right.id in Ids(t.right);
    }

    lemma Replaced(s: Store<Node>, root0: Node, c: Ctx<Node>, t: Tree<Node>, y: Node)
      requires Rep(s, nil, root0, c, t) && t.Node? && s.Keys == nodes
      requires y !in CtxIds(c) && y !in Ids(t) && y != nil && y in nodes && root == NewRoot(c, y, root0)
      requires forall n ::
        n in nodes && n !in {y, t.id} + HoleIds(c) + TopIds(t.left) + TopIds(t.right) ==> CellOf(n) == s[n]
      requires c.InLeft? ==> c.id in s && CellOf(c.id) == s[c.id].(left := y)
      requires c.InRight? ==> c.id in s && CellOf(c.id) == s[c.id].(right := y)
      requires t.left.Node? ==> t.left.id in s && CellOf(t.left.id) == s[t.left.id].(parent := y)
      requires t.right.Node? ==> t.right.id in s && CellOf(t.right.id) == s[t.right.id].(parent := y)
      requires CellOf(y) == Cell(RootId(t.left, nil), RootId(t.right, nil), CtxId(c, nil), t.color)
      ensures Rep(Cells(), nil, root, c, t.(id := y))
    {
      assert SameOutside(s, Cells(), {y, t.id} + HoleIds(c) + TopIds(t.left) + TopIds(t.right));
      ReplaceRep(s, Cells(), nil, root0, c, t, y);
    }

    /** First half of case 3. */
    method UnlinkSuccessor(p: Node, y: Node, ghost c: Ctx<Node>, ghost f: Tree<Node>, ghost k: Ctx<Node>,
        ghost g: Tree<Node>)
      returns (x: Node, ghost s: Store<Node>)
      requires Zip(c, f) && f.Node? && f.id == p && f.right == Plug(k, g)
      requires g.Node? && g.id == y && g.left.Leaf? && y.right == RootId(g.right, nil)
      requires y.parent == p <==> k.Top?
      modifies `root, nodes`left, nodes`right, nodes`parent, nil`parent
      ensures root == old(root) && x == RootId(g.right, nil) && x.parent == (if k.Top? then y else k.id)
      ensures Rep(s, nil, root, c, WithoutSuccessor(f, k, g)) && SuccessorOut(p, y, s, Plug(k, g.right))
    {
      if y.parent == p {
        x, s := UnlinkChild(p, y, c, f, g);
      } else {
        x, s := UnlinkDeeper(p, y, c, f, k, g);
      }
    }

    /** Second half of case 3. */
    method SeatSuccessor(p: Node, y: Node, ghost c: Ctx<Node>, ghost f: Tree<Node>, ghost k: Ctx<Node>,
        ghost g: Tree<Node>, ghost s: Store<Node>)
      requires f.Node? && f.id == p && f.left.Node? && f.right == Plug(k, g) && ZipDistinct(c, f)
      requires g.Node? && g.id == y && g.left.Leaf? && y != nil && nil !in nodes && nodes == CtxIds(c) + Ids(f)
      requires Rep(s, nil, root, c, WithoutSuccessor(f, k, g)) && SuccessorOut(p, y, s, Plug(k, g.right))
      modifies `root, `nodes, nodes`left, nodes`right, nodes`parent, nodes`color
      ensures nodes == old(nodes) - {p} && Zip(SuccessorCtx(c, f, y, k), g.right)
    {
      hide RepTree, RepCtx, Plug, Distinct, CtxDistinct;
      WithoutSuccessorIds(c, f, k, g);
      SuccessorIds(c, f, k, g);
      TakePlace(p, y, c, WithoutSuccessor(f, k, g), s);
      Forget(c, Node(f.left, y, f.color, Plug(k, g.right)), p);
      BackToSuccessor(c, f, y, k, g);
    }

    /** Case 3 of the erasure: `p` has two children and its successor `y` takes its place. */
    method ReplaceBySuccessor(p: Node, y: Node, ghost c: Ctx<Node>, ghost f: Tree<Node>, ghost k: Ctx<Node>,
        ghost g: Tree<Node>)
      returns (x: Node)
      requires Zip(c, f) && f.Node? && f.id == p && f.left.Node? && f.right == Plug(k, g)
      requires g.Node? && g.id == y && g.left.Leaf? && y.right == RootId(g.right, nil)
      requires (y.parent == p <==> k.Top?) && y in nodes
      modifies `root, `nodes, nodes`left, nodes`right, nodes`parent, nodes`color, nil`parent
      ensures nodes == old(nodes) - {p} && x == RootId(g.right, nil) && Zip(SuccessorCtx(c, f, y, k), g.right)
      ensures x == nil ==> x.parent == (if k.Top? then y else k.id)
    {
      ghost var s;
      x, s := UnlinkSuccessor(p, y, c, f, k, g);
      SeatSuccessor(p, y, c, f, k, g, s);
    }

    lemma BackToSuccessor(c: Ctx<Node>, f: Tree<Node>, y: Node, k: Ctx<Node>, g: Tree<Node>)
      requires f.Node? && g.Node? && Zip(c, Node(f.left, y, f.color, Plug(k, g.right)))
      ensures Zip(SuccessorCtx(c, f, y, k), g.right)
    {
      var kp := InRight(c, f.left, y, f.color);
      Up(kp, Plug(k, g.right));
      ZipCompose(Cells(), nil, root, k, kp, g.right);
    }

    /** The leftmost node below the right child. */
    method Successor(p: Node, ghost c: Ctx<Node>, ghost f: Tree<Node>)
        returns (y: Node, ghost k: Ctx<Node>, ghost g: Tree<Node>)
      requires Zip(c, f) && f.Node? && f.id == p && f.right.Node?
      ensures f.right == Plug(k, g) && Before(k) == [] && g.Node? && g.id == y && g.left.Leaf?
      ensures y in nodes && y.right == RootId(g.right, nil) && (y.parent == p <==> k.Top?) && y.color == g.color
    {
      RightOf(c, f);
      y := p.right;
      k, g := Top, f.right;
      SuccessorView(c, f, k, g);
      RightOf(SuccessorCtx(c, f, p, k), g);
      while y.left != nil
        invariant f.right == Plug(k, g) && Before(k) == [] && g.Node? && g.id == y
        invariant y in nodes && y.left == RootId(g.left, nil)
        decreases g
      {
        SuccessorView(c, f, k, g);
        RightOf(SuccessorCtx(c, f, p, k), g);
        k, g := InLeft(k, g.id, g.color, g.right), g.left;
        y := y.left;
        SuccessorView(c, f, k, g);
        RightOf(SuccessorCtx(c, f, p, k), g);
      }
      SuccessorView(c, f, k, g);
      RightOf(SuccessorCtx(c, f, p, k), g);
      Around(SuccessorCtx(c, f, p, k), g);
    }

    /** Takes `p` out of the links; what is left may still owe a black node at `x`. */
    method Detach(p: Node, ghost c: Ctx<Node>, ghost f: Tree<Node>)
      returns (x: Node, originalColor: Color, ghost c': Ctx<Node>, ghost v: Tree<Node>)
      requires Zip(c, f) && f.Node? && f.id == p && RedBlack(Plug(c, f))
      modifies `root, `nodes, nodes`left, nodes`right, nodes`parent, nodes`color, nil`parent
      ensures nodes == old(nodes) - {p} && Zip(c', v) && x == RootId(v, nil) && x.parent == CtxId(c', nil)
      ensures Position(c, f) < |Inorder(Plug(c, f))| &&
        Inorder(Plug(c', v)) == Drop(Inorder(Plug(c, f)), Position(c, f))
      ensures if originalColor == Black then DeleteOk(c', v) else RedBlack(Plug(c', v))
    {
      RightOf(c, f);
      originalColor := p.color;
      if p.left == nil {
        x, c', v := p.right, c, f.right;
        DetachColors(c, f, v);
        SpliceOut(p, x, c, f, v);
      } else if p.right == nil {
        x, c', v := p.left, c, f.left;
        DetachColors(c, f, v);
        SpliceOut(p, x, c, f, v);
      } else {
        var y;
        ghost var k, g;
        y, k, g := Successor(p, c, f);
        originalColor := y.color;
        x := ReplaceBySuccessor(p, y, c, f, k, g);
        c', v := SuccessorCtx(c, f, y, k), g.right;
        if x != nil { Around(c', v); }
        SuccessorColors(c, f, k, g);
      }
    }

    method EraseNode(p: Node, ghost c: Ctx<Node>, ghost f: Tree<Node>) returns (ghost t: Tree<Node>)
      requires Zip(c, f) && f.Node? && f.id == p && RedBlack(Plug(c, f)) && Sentinel()
      modifies `root, `nodes, nodes`left, nodes`right, nodes`parent, nodes`color, nil`parent, nil`color
      ensures nodes == old(nodes) - {p} && Zip(Top, t) && RedBlack(t) && Sentinel()
      ensures Position(c, f) < |Inorder(Plug(c, f))| && Inorder(t) == Drop(Inorder(Plug(c, f)), Position(c, f))
    {
      var x, originalColor;
      ghost var c', v;
      x, originalColor, c', v := Detach(p, c, f);
      if originalColor == Black {
        t := EraseFixup(x, c', v);
      } else {
        t := Plug(c', v);
        Whole(c', v);
      }
    }

    method EraseSorted(p: Node, ghost c: Ctx<Node>, ghost f: Tree<Node>)
      requires Zip(c, f) && f.Node? && f.id == p && RedBlack(Plug(c, f)) && Sentinel()
      requires Position(c, f) < |Inorder(Plug(c, f))|
      requires SortedBy(Drop(Inorder(Plug(c, f)), Position(c, f)), Keys() - {p})
      modifies `root, `nodes, `tree, nodes`left, nodes`right, nodes`parent, nodes`color, nil`parent, nil`color
      ensures Valid() && nodes == old(nodes) - {p} && Keys() == old(Keys()) - {p}
      ensures Inorder(tree) == Drop(Inorder(Plug(c, f)), Position(c, f))
    {
      hide RB, Plug, Inorder, RepTree, RepCtx, SortedBy, Rep, Drop, RedBlack;
      ghost var keys := Keys() - {p};
      tree := EraseNode(p, c, f);
      SameKeys(keys);
    }

    /** Removes exactly node `p`; no other node moves, and no key changes. */
    method Erase(p: Node) returns (r: int, ghost k: nat)
      requires Valid() && (p in nodes || p == nil)
      modifies this, nodes, nil
      ensures Valid()
      ensures p == nil ==> r == -1 && nodes == old(nodes) && Inorder(tree) == old(Inorder(tree))
      ensures p in old(nodes) ==> r == 0 && nodes == old(nodes) - {p} && k < |old(Inorder(tree))|
      ensures p in old(nodes) ==> old(Inorder(tree))[k] == p && Inorder(tree) == Drop(old(Inorder(tree)), k)
      ensures Keys() == old(Keys()) - {p}
    {
      hide RB, Plug, Inorder, RepTree, RepCtx, SortedBy;
      k := 0;
      if p == nil {
        return -1, 0;
      }
      ghost var c, f := Locate(tree, p);
      Whole(c, f);
      k := Position(c, f);
      FocusOrder(c, f);
      SortedDrop(Inorder(tree), k, Keys(), Keys() - {p});
      EraseSorted(p, c, f);
      r := 0;
    }

    lemma SameKeys(m: map<Node, int>)
      requires m.Keys == nodes && forall n :: n in nodes ==> n.key == m[n]
      ensures Keys() == m
    {
    }

    // ----------------------------------------------- inserting and searching

    /** Everything before the hole is at most `key`, everything after it is greater. */
    ghost predicate SplitAt(c: Ctx<Node>, key: int)
      reads nodes, `nodes
    {
      AllAtMost(Before(c), Keys(), key) && AllAbove(After(c), Keys(), key)
    }

    lemma Descend(c: Ctx<Node>, f: Tree<Node>, key: int)
      requires f.Node? && f.id in nodes && SortedBy(Inorder(Plug(c, f)), Keys()) && SplitAt(c, key)
      ensures key < f.id.key ==> SplitAt(InLeft(c, f.id, f.color, f.right), key)
      ensures f.id.key <= key ==> SplitAt(InRight(c, f.left, f.id, f.color), key)
    {
      FocusOrder(c, f);
      SortedSplit(Before(c) + Inorder(f.left), f.id, Inorder(f.right) + After(c), Keys(), key);
      assert After(InLeft(c, f.id, f.color, f.right)) == [f.id] + (Inorder(f.right) + After(c));
      assert Before(InRight(c, f.left, f.id, f.color)) == Before(c) + Inorder(f.left) + [f.id];
    }

    /** Hangs the new node under `res`, where the descent ended. */
    method Hang(z: Node, res: Node, left: bool, ghost c: Ctx<Node>)
      requires Zip(c, Leaf) && z !in nodes && z != nil && res == CtxId(c, nil)
      requires !c.Top? ==> (left <==> c.InLeft?)
      requires z.left == nil && z.right == nil && z.color == Red
      modifies `root, `nodes, HoleIds(c)`left, HoleIds(c)`right, z`parent
      ensures nodes == old(nodes) + {z} && Zip(c, Node(Leaf, z, Red, Leaf))
    {
      ghost var s := Cells();
      if !c.Top? { Around(c, Leaf); }
      z.parent := res;
      if res == nil {
        root := z;
      } else if left {
        res.left := z;
      } else {
        res.right := z;
      }
      nodes := nodes + {z};
      assert SameOutside(s, Cells(), {z} + HoleIds(c));
      HangRep(s, Cells(), nil, old(root), c, z);
    }

    /** The descent of the insertion: the empty place for `key` and the node above it. */
    method FindHole(key: int) returns (res: Node, left: bool, ghost c: Ctx<Node>, ghost steps: nat)
      requires Valid()
      ensures Zip(c, Leaf) && Plug(c, Leaf) == tree && res == CtxId(c, nil) && SplitAt(c, key)
      ensures !c.Top? ==> (left <==> c.InLeft?)
      ensures steps <= Height(tree)
    {
      res, left := nil, false;
      var temp := root;
      ghost var f := tree;
      c, steps := Top, 0;
      while temp != nil
        invariant Zip(c, f) && Plug(c, f) == tree && temp == RootId(f, nil) && res == CtxId(c, nil)
        invariant SplitAt(c, key) && (!c.Top? ==> (left <==> c.InLeft?))
        invariant steps + Height(f) <= Height(tree)
        decreases f
      {
        RightOf(c, f);
        Descend(c, f, key);
        res := temp;
        left := key < temp.key;
        steps := steps + 1;
        if left {
          temp := temp.left;
          c, f := InLeft(c, f.id, f.color, f.right), f.left;
        } else {
          temp := temp.right;
          c, f := InRight(c, f.left, f.id, f.color), f.right;
        }
        Up(c, f);
      }
    }

    /** Adds a node for `key` behind the last node whose key is not greater. */
    method Insert(key: int) returns (z: Node, ghost k: nat, ghost steps: nat)
      requires Valid()
      modifies this, nodes
      ensures Valid() && fresh(z) && nodes == old(nodes) + {z}
      ensures k <= |old(Inorder(tree))| && Inorder(tree) == old(Inorder(tree))[..k] + [z] + old(Inorder(tree))[k..]
      ensures AllAtMost(old(Inorder(tree))[..k], old(Keys()), key) &&
        AllAbove(old(Inorder(tree))[k..], old(Keys()), key)
      ensures Keys() == old(Keys())[z := key]
      ensures Pow2((steps + 1) / 2) <= |old(Inorder(tree))| + 1
    {
      hide Rep, RepTree, RepCtx, RB, Fits, SortedBy, AllAtMost, AllAbove, Inorder, RedBlack, Ids;
      z := new Node(key, nil);
      assert Keys() == old(Keys());
      var res, left;
      ghost var c;
      res, left, c, steps := FindHole(key);
      HoleOk(c, steps);
      k := |Before(c)|;
      SortedHole(c, key, z);
      InsertSorted(z, res, left, c);
    }

    method InsertSorted(z: Node, res: Node, left: bool, ghost c: Ctx<Node>)
      requires Zip(c, Leaf) && z !in nodes && z != nil && res == CtxId(c, nil) && Sentinel()
      requires !c.Top? ==> (left <==> c.InLeft?)
      requires z.left == nil && z.right == nil && z.color == Red
      requires Fits(c, 0) && BlackRoot(c)
      requires SortedBy(Inorder(Plug(c, Node(Leaf, z, Red, Leaf))), Keys()[z := z.key])
      modifies `root, `nodes, `tree, nodes`left, nodes`right, nodes`parent, nodes`color, z`left, z`right, z`parent,
        z`color
      ensures Valid() && nodes == old(nodes) + {z} && Keys() == old(Keys())[z := z.key]
      ensures Inorder(tree) == Inorder(Plug(c, Node(Leaf, z, Red, Leaf)))
    {
      hide RB, Fits, BlackRoot, Plug, Inorder, RepTree, RepCtx, SortedBy;
      ghost var keys := Keys()[z := z.key];
      tree := InsertAt(z, res, left, c);
      SameKeys(keys);
    }

    /** Hangs the new node, restores the colours and blackens the root. */
    method InsertAt(z: Node, res: Node, left: bool, ghost c: Ctx<Node>) returns (ghost t: Tree<Node>)
      requires Zip(c, Leaf) && z !in nodes && z != nil && res == CtxId(c, nil) && nil.color == Black
      requires !c.Top? ==> (left <==> c.InLeft?)
      requires z.left == nil && z.right == nil && z.color == Red
      requires Fits(c, 0) && BlackRoot(c)
      modifies `root, `nodes, nodes`left, nodes`right, nodes`parent, nodes`color, z`left, z`right, z`parent, z`color
      ensures nodes == old(nodes) + {z} && Zip(Top, t) && RedBlack(t)
      ensures Inorder(t) == Inorder(Plug(c, Node(Leaf, z, Red, Leaf)))
    {
      Hang(z, res, left, c);
      NewRedOk(c, z);
      t := InsertFixup(z, c, Node(Leaf, z, Red, Leaf));
      RootInCtx(Cells(), nil, root, Top, RootId(t, nil));
      PlugNode(c, Node(Leaf, z, Red, Leaf));
      SetColor(root, Black, Top, t);
      t := Paint(t, Black);
    }

    /** The new node goes where the keys stay in order. */
    lemma SortedHole(c: Ctx<Node>, key: int, z: Node)
      requires Valid() && tree == Plug(c, Leaf) && SplitAt(c, key) && z !in nodes
      ensures var (ns, k) := (Inorder(tree), |Before(c)|);
        k <= |ns| && Inorder(Plug(c, Node(Leaf, z, Red, Leaf))) == ns[..k] + [z] + ns[k..] &&
        SortedBy(ns[..k] + [z] + ns[k..], Keys()[z := key]) &&
        AllAtMost(ns[..k], Keys(), key) && AllAbove(ns[k..], Keys(), key)
    {
      var ns, k := Inorder(tree), |Before(c)|;
      HangOrder(c, z);
      InorderIds(tree, z);
      assert ns == ns[..k] + ns[k..];
      SortedInsert(ns[..k], ns[k..], z, key, Keys());
    }

    lemma HoleOk(c: Ctx<Node>, steps: nat)
      requires RedBlack(Plug(c, Leaf)) && steps <= Height(Plug(c, Leaf))
      ensures Fits(c, 0) && BlackRoot(c) && Pow2((steps + 1) / 2) <= |Inorder(Plug(c, Leaf))| + 1
    {
      PlugRB(c, Leaf); PlugBlackRoot(c, Leaf);
      HeightBound(Plug(c, Leaf));
      Pow2Monotone((steps + 1) / 2, (Height(Plug(c, Leaf)) + 1) / 2);
    }

    lemma HangOrder(c: Ctx<Node>, z: Node)
      ensures var (ns, k) := (Inorder(Plug(c, Leaf)), |Before(c)|);
        k <= |ns| && ns[..k] == Before(c) && ns[k..] == After(c) && ns == Before(c) + After(c) &&
        Inorder(Plug(c, Node(Leaf, z, Red, Leaf))) == ns[..k] + [z] + ns[k..]
    {
      PlugInorder(c, Leaf);
      PlugInorder(c, Node(Leaf, z, Red, Leaf));
      assert Before(c) + [] + After(c) == Before(c) + After(c);
    }

    /** Everything before the hole is smaller than `key`, everything after it is greater. */
    ghost predicate Brackets(c: Ctx<Node>, key: int)
      reads nodes, `nodes
    {
      AllBelow(Before(c), Keys(), key) && AllAbove(After(c), Keys(), key)
    }

    lemma Narrow(c: Ctx<Node>, f: Tree<Node>, key: int)
      requires f.Node? && f.id in nodes && SortedBy(Inorder(Plug(c, f)), Keys()) && Brackets(c, key)
      ensures key < f.id.key ==> Brackets(InLeft(c, f.id, f.color, f.right), key)
      ensures f.id.key < key ==> Brackets(InRight(c, f.left, f.id, f.color), key)
    {
      FocusOrder(c, f);
      SortedSplit(Before(c) + Inorder(f.left), f.id, Inorder(f.right) + After(c), Keys(), key);
      assert After(InLeft(c, f.id, f.color, f.right)) == [f.id] + (Inorder(f.right) + After(c));
      assert Before(InRight(c, f.left, f.id, f.color)) == Before(c) + Inorder(f.left) + [f.id];
    }

    /** A node with the key, or null when there is none; the descent is logarithmic. */
    method Find(key: int) returns (r: Node?, ghost steps: nat)
      requires Valid()
      ensures r != null ==> r in nodes && r.key == key
      ensures r == null ==> forall n :: n in nodes ==> n.key != key
      ensures Pow2((steps + 1) / 2) <= |Inorder(tree)| + 1
    {
      hide RepTree, RepCtx, RB, SortedBy, AllBelow, AllAbove, Inorder, Distinct, CtxDistinct, Pow2;
      var temp := root;
      ghost var c, f := Top, tree;
      RootOf(tree);
      EmptyBrackets(key);
      steps := 0;
      HeightBound(tree);
      while temp != nil
        invariant Zip(c, f) && Plug(c, f) == tree && temp == RootId(f, nil) && Brackets(c, key)
        invariant steps + Height(f) <= Height(tree)
        decreases f
      {
        RightOf(c, f);
        Narrow(c, f, key);
        if key == temp.key {
          Pow2Monotone((steps + 1) / 2, (Height(tree) + 1) / 2);
          return temp, steps;
        }
        steps := steps + 1;
        if key < temp.key {
          temp := temp.left;
          c, f := InLeft(c, f.id, f.color, f.right), f.left;
        } else {
          temp := temp.right;
          c, f := InRight(c, f.left, f.id, f.color), f.right;
        }
        Up(c, f);
      }
      Pow2Monotone((steps + 1) / 2, (Height(tree) + 1) / 2);
      forall n | n in nodes ensures n.key != key {
        InorderIds(tree, n);
        HangOrder(c, nil);
        NotBetween(Before(c), After(c), Keys(), key, n);
      }
      r := null;
    }

    lemma EmptyBrackets(key: int)
      ensures Brackets(Top, key)
    {
    }

    /** The first node in key order; the sentinel when the tree is empty. */
    method Min() returns (r: Node)
      requires Valid()
      ensures if tree.Leaf? then r == nil else r == Inorder(tree)[0]
    {
      r := root;
      ghost var c, f := Top, tree;
      while r.left != nil
        invariant Zip(c, f) && Plug(c, f) == tree && r == RootId(f, nil) && Before(c) == [] && (f.Leaf? ==> c.Top?)
        decreases f
      {
        RightOf(c, f);
        r := r.left;
        c, f := InLeft(c, f.id, f.color, f.right), f.left;
        Up(c, f);
      }
      if f.Node? { RightOf(c, f); FirstVisited(c, f); }
      PlugNode(c, f);
    }

    /** The last node in key order; the sentinel when the tree is empty. */
    method Max() returns (r: Node)
      requires Valid()
      ensures if tree.Leaf? then r == nil else r == Inorder(tree)[|Inorder(tree)| - 1]
    {
      r := root;
      ghost var c, f := Top, tree;
      while r.right != nil
        invariant Zip(c, f) && Plug(c, f) == tree && r == RootId(f, nil) && After(c) == [] && (f.Leaf? ==> c.Top?)
        decreases f
      {
        RightOf(c, f);
        r := r.right;
        c, f := InRight(c, f.left, f.id, f.color), f.right;
        Up(c, f);
      }
      if f.Node? { RightOf(c, f); LastVisited(c, f); }
      PlugNode(c, f);
    }

    lemma FillView(c: Ctx<Node>, f: Tree<Node>)
      requires Zip(c, f) && f.Node?
      ensures Zip(InLeft(c, f.id, f.color, f.right), f.left) && Zip(InRight(c, f.left, f.id, f.color), f.right)
      ensures f.id in nodes && f.id.left == RootId(f.left, nil) && f.id.right == RootId(f.right, nil)
    {
      hide RepCtx;
      RightOf(c, f);
      Up(InLeft(c, f.id, f.color, f.right), f.left);
      Up(InRight(c, f.left, f.id, f.color), f.right);
    }

    method InorderFill(node: Node, arr: array<int>, idx: nat, n: nat, ghost c: Ctx<Node>, ghost f: Tree<Node>,
        ghost keys: map<Node, int>)
      returns (out: nat)
      requires Zip(c, f) && node == RootId(f, nil) && keys == Keys()
      requires idx + |Traversal.Visited(f, idx, n)| <= arr.Length
      modifies arr
      ensures out == idx + |Traversal.Visited(f, idx, n)|
      ensures arr[..] == old(arr[..])[..idx] + KeySeq(Traversal.Visited(f, idx, n), keys) + old(arr[..])[out..]
      decreases f
    {
      hide Zip, Traversal.Visited, KeySeq;
      out := idx;
      if node == nil || idx >= n {
        SentinelIsLeaf(c, f);
        Traversal.VisitedNone(f, idx, n);
        NothingFilled(arr[..], idx, keys);
        return;
      }
      SentinelIsLeaf(c, f);
      ghost var cl, cr := InLeft(c, f.id, f.color, f.right), InRight(c, f.left, f.id, f.color);
      FillView(c, f);
      Traversal.VisitedNode(f, idx, n);
      ghost var a0 := arr[..];
      out := InorderFill(node.left, arr, out, n, cl, f.left, keys);
      ghost var a1 := arr[..];
      arr[out] := node.key;
      ghost var a2 := arr[..];
      out := out + 1;
      out := InorderFill(node.right, arr, out, n, cr, f.right, keys);
      ghost var l := Traversal.Visited(f.left, idx, n);
      Filled(a0, a1, a2, arr[..], idx, l, f.id, Traversal.Visited(f.right, idx + |l| + 1, n), keys);
    }

    lemma SentinelIsLeaf(c: Ctx<Node>, f: Tree<Node>)
      requires Zip(c, f)
      ensures RootId(f, nil) == nil <==> f.Leaf?
    {
    }

    lemma NothingFilled(a: seq<int>, idx: nat, m: map<Node, int>)
      requires idx <= |a|
      ensures a == a[..idx] + KeySeq([], m) + a[idx..]
    {
    }

    lemma Filled(a0: seq<int>, a1: seq<int>, a2: seq<int>, a3: seq<int>, idx: nat,
                 l: seq<Node>, n: Node, r: seq<Node>, m: map<Node, int>)
      requires idx + |l| + 1 + |r| <= |a0| && n in m
      requires a1 == a0[..idx] + KeySeq(l, m) + a0[idx + |l|..]
      requires a2 == a1[idx + |l| := m[n]]
      requires a3 == a2[..idx + |l| + 1] + KeySeq(r, m) + a2[idx + |l| + 1 + |r|..]
      ensures a3 == a0[..idx] + KeySeq(l + [n] + r, m) + a0[idx + |l| + 1 + |r|..]
    {
      var k := idx + |l|;
      assert a2[..k + 1] == a0[..idx] + KeySeq(l, m) + [m[n]];
      assert a2[k + 1 + |r|..] == a0[k + 1 + |r|..];
      assert KeySeq(l + [n] + r, m) == KeySeq(l, m) + [m[n]] + KeySeq(r, m);
    }

    /** Copies keys in order.  The array must hold every key the walk writes, which can be
        more than `n`: see Traversal.VisitedFits. */
    method ToArray(arr: array<int>, n: nat) returns (count: nat)
      requires Valid() && |Traversal.Visited(tree, 0, n)| <= arr.Length
      modifies arr
      ensures Valid() && count == |Traversal.Visited(tree, 0, n)|
      ensures arr[..] == KeySeq(Traversal.Visited(tree, 0, n), Keys()) + old(arr[..])[count..]
      ensures var m := if |Inorder(tree)| <= n then |Inorder(tree)| else n;
        m <= count && arr[..m] == KeySeq(Inorder(tree)[..m], Keys())
      ensures count <= n <==> Traversal.Bounded(tree, n)
      ensures |Inorder(tree)| <= n ==> count == |Inorder(tree)|
    {
      hide RepTree, RepCtx, Distinct, CtxDistinct, RB, SortedBy, Inorder, Traversal.Visited, Traversal.Bounded;
      RootOf(tree);
      count := InorderFill(root, arr, 0, n, Top, tree, Keys());
      ghost var v, s := Traversal.Visited(tree, 0, n), Inorder(tree);
      ghost var m := if |s| <= n then |s| else n;
      Traversal.VisitedPrefix(tree, 0, n);
      Traversal.VisitedFits(tree, 0, n);
      if |s| <= n { Traversal.VisitedAll(tree, 0, n); }
      assert arr[..m] == KeySeq(v, Keys())[..m];
      assert KeySeq(v, Keys())[..m] == KeySeq(v[..m], Keys());
    }
  }
}
