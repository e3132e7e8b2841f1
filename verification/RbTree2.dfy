/**
 The second implementation of the same header (rbtree2.c): insertion recolours after
 rotating and never blackens the root on the way out, and erasing swaps keys down to a
 leaf, rebalances with that leaf still attached, and only then unlinks it.
 */
module RbTrees2 {
  import opened Trees
  import opened Links
  import opened Rebalance
  import opened RbTrees

  // ------------------------------------------------------------ insertion

  /** Outer grandchild on the left: rotate at the grandparent, then recolour. */
  method LiftLL(t: RbTree, grand: Node, parent: Node, ghost c: Ctx<Node>, ghost f: Tree<Node>)
    returns (ghost c': Ctx<Node>)
    requires t.Zip(c, f) && InsertOk(c, f) && RedTop(c) && c.InLeft? && c.up.InLeft? && !IsRed(c.up.right)
    requires parent == c.id && grand == c.up.id
    modifies t`root, t.nodes`left, t.nodes`right, t.nodes`parent, t.nodes`color
    ensures t.Zip(c', f) && InsertOk(c', f) && !RedTop(c') && !c'.Top?
    ensures Inorder(Plug(c', f)) == Inorder(Plug(c, f))
  {
    hide RB, Fits, BlackRoot, Inorder, Plug, RepTree, RepCtx, Distinct, CtxDistinct;
    LiftRightOk(c, f);
    t.Up(c, f);
    t.Up(c.up, UpTree(c, f));
    ghost var g := UpTree(c.up, UpTree(c, f));
    t.RightRotate(grand, c.up.up, g);
    ghost var r := RotateRight(g);
    ghost var cg := InRight(c.up.up, r.left, parent, Red);
    t.Up(cg, r.right);
    t.SetColor(grand, Red, cg, r.right);
    ghost var r1 := UpTree(cg, Paint(r.right, Red));
    t.Up(cg, Paint(r.right, Red));
    t.SetColor(parent, Black, c.up.up, r1);
    c' := InLeft(c.up.up, c.id, Black, RotateRight(LiftTree(c, f)).right);
    assert Paint(r1, Black) == UpTree(c', f);
    t.Up(c', f);
  }

  method LiftRR(t: RbTree, grand: Node, parent: Node, ghost c: Ctx<Node>, ghost f: Tree<Node>)
    returns (ghost c': Ctx<Node>)
    requires t.Zip(c, f) && InsertOk(c, f) && RedTop(c) && c.InRight? && c.up.InRight? && !IsRed(c.up.left)
    requires parent == c.id && grand == c.up.id
    modifies t`root, t.nodes`left, t.nodes`right, t.nodes`parent, t.nodes`color
    ensures t.Zip(c', f) && InsertOk(c', f) && !RedTop(c') && !c'.Top?
    ensures Inorder(Plug(c', f)) == Inorder(Plug(c, f))
  {
    hide RB, Fits, BlackRoot, Inorder, Plug, RepTree, RepCtx, Distinct, CtxDistinct;
    LiftLeftOk(c, f);
    t.Up(c, f);
    t.Up(c.up, UpTree(c, f));
    ghost var g := UpTree(c.up, UpTree(c, f));
    t.LeftRotate(grand, c.up.up, g);
    ghost var r := RotateLeft(g);
    ghost var cg := InLeft(c.up.up, parent, Red, r.right);
    t.Up(cg, r.left);
    t.SetColor(grand, Red, cg, r.left);
    ghost var r1 := UpTree(cg, Paint(r.left, Red));
    t.Up(cg, Paint(r.left, Red));
    t.SetColor(parent, Black, c.up.up, r1);
    c' := InRight(c.up.up, RotateLeft(LiftTree(c, f)).left, c.id, Black);
    assert Paint(r1, Black) == UpTree(c', f);
    t.Up(c', f);
  }

  /** Inner grandchild on the left: two rotations, then the new node turns black. */
  method LiftLR(t: RbTree, grand: Node, parent: Node, child: Node, ghost c: Ctx<Node>, ghost f: Tree<Node>)
    returns (ghost c': Ctx<Node>, ghost f': Tree<Node>)
    requires t.Zip(c, f) && InsertOk(c, f) && RedTop(c) && c.InRight? && c.up.InLeft? && !IsRed(c.up.right)
    requires parent == c.id && grand == c.up.id && child == f.id
    modifies t`root, t.nodes`left, t.nodes`right, t.nodes`parent, t.nodes`color
    ensures t.Zip(c', f') && InsertOk(c', f') && !RedTop(c') && !c'.Top?
    ensures Inorder(Plug(c', f')) == Inorder(Plug(c, f))
  {
    hide RB, Fits, BlackRoot, Inorder, Plug, RepTree, RepCtx, Distinct, CtxDistinct;
    StraightenLeftOk(c, f);
    t.Up(c, f);
    t.LeftRotate(parent, c.up, UpTree(c, f));
    f', c' := RotateLeft(UpTree(c, f)).left, InLeft(c.up, child, Red, f.right);
    t.Up(c', f');
    c' := LiftLL(t, grand, child, c', f');
  }

  method LiftRL(t: RbTree, grand: Node, parent: Node, child: Node, ghost c: Ctx<Node>, ghost f: Tree<Node>)
    returns (ghost c': Ctx<Node>, ghost f': Tree<Node>)
    requires t.Zip(c, f) && InsertOk(c, f) && RedTop(c) && c.InLeft? && c.up.InRight? && !IsRed(c.up.left)
    requires parent == c.id && grand == c.up.id && child == f.id
    modifies t`root, t.nodes`left, t.nodes`right, t.nodes`parent, t.nodes`color
    ensures t.Zip(c', f') && InsertOk(c', f') && !RedTop(c') && !c'.Top?
    ensures Inorder(Plug(c', f')) == Inorder(Plug(c, f))
  {
    hide RB, Fits, BlackRoot, Inorder, Plug, RepTree, RepCtx, Distinct, CtxDistinct;
    StraightenRightOk(c, f);
    t.Up(c, f);
    t.RightRotate(parent, c.up, UpTree(c, f));
    f', c' := RotateRight(UpTree(c, f)).right, InRight(c.up, f.left, child, Red);
    t.Up(c', f');
    c' := LiftRR(t, grand, child, c', f');
  }

  /** The colour loop leaves either a root it has just blackened, or a black parent. */
  predicate Settling<T>(c: Ctx<T>, f: Tree<T>) {
    if c.Top? then RedBlack(f) else InsertOk(c, f)
  }

  lemma Settled<T>(c: Ctx<T>, f: Tree<T>)
    requires Settling(c, f) && !RedTop(c)
    ensures RedBlack(Plug(c, f))
  {
    PlugRB(c, f); PlugBlackRoot(c, f);
  }

  lemma GrandParent(t: RbTree, c: Ctx<Node>, f: Tree<Node>)
    requires t.Zip(c, f) && f.Node? && Settling(c, f) && RedTop(c) && t.Sentinel()
    ensures !c.up.Top? && Depth(c) == Depth(c.up.up) + 2
    ensures f.id.parent == c.id && c.id.parent == c.up.id
    ensures c.id.left == f.id <==> c.InLeft?
    ensures c.id.right == f.id <==> c.InRight?
    ensures c.up.id.left == c.id <==> c.up.InLeft?
    ensures c.up.id.right == c.id <==> c.up.InRight?
    ensures (if c.up.id.left == c.id then c.up.id.right else c.up.id.left) == RootId(Sibling(c.up), t.nil)
    ensures RootId(Sibling(c.up), t.nil).color == Red <==> IsRed(Sibling(c.up))
  {
    RedParent(c, f);
    t.Around(c, f);
    t.Up(c, f);
    t.Around(c.up, UpTree(c, f));
  }

  /** The uncle is black: one or two rotations finish the insertion. */
  method RotateFix(t: RbTree, grand: Node, parent: Node, child: Node, ghost c: Ctx<Node>, ghost f: Tree<Node>)
    returns (ghost c': Ctx<Node>, ghost f': Tree<Node>)
    requires t.Zip(c, f) && InsertOk(c, f) && RedTop(c) && !c.up.Top? && !IsRed(Sibling(c.up)) && t.Sentinel()
    requires parent == c.id && grand == c.up.id && child == f.id
    modifies t`root, t.nodes`left, t.nodes`right, t.nodes`parent, t.nodes`color
    ensures t.Zip(c', f') && InsertOk(c', f') && !RedTop(c') && !c'.Top?
    ensures Inorder(Plug(c', f')) == Inorder(Plug(c, f))
  {
    hide RB, Fits, BlackRoot, Inorder, Plug, RepTree, RepCtx, Distinct, CtxDistinct;
    GrandParent(t, c, f);
    c', f' := c, f;
    if grand.left == parent && parent.left == child {
      c' := LiftLL(t, grand, parent, c, f);
    } else if grand.left == parent && parent.right == child {
      c', f' := LiftLR(t, grand, parent, child, c, f);
    } else if grand.right == parent && parent.left == child {
      c', f' := LiftRL(t, grand, parent, child, c, f);
    } else if grand.right == parent && parent.right == child {
      c' := LiftRR(t, grand, parent, c, f);
    } else {
      assert false;
    }
  }

  method ColorFix(t: RbTree, z: Node, ghost c0: Ctx<Node>, ghost f0: Tree<Node>) returns (ghost tree: Tree<Node>)
    requires t.Zip(c0, f0) && InsertOk(c0, f0) && !c0.Top? && f0.id == z && t.Sentinel()
    modifies t`root, t.nodes`left, t.nodes`right, t.nodes`parent, t.nodes`color
    ensures t.Zip(Top, tree) && RedBlack(tree) && Inorder(tree) == Inorder(Plug(c0, f0))
  {
    hide RB, Fits, BlackRoot, Inorder, Plug, RepTree, RepCtx, Distinct, CtxDistinct;
    ghost var c, f := c0, f0;
    t.Around(c, f);
    var child := z;
    var parent := child.parent;
    var grand := parent.parent;
    var uncle := if grand.left == parent then grand.right else grand.left;
    var done := false;
    while !done && parent.color == Red
      invariant t.Zip(c, f) && Settling(c, f) && f.Node? && t.Sentinel()
      invariant Inorder(Plug(c, f)) == Inorder(Plug(c0, f0))
      invariant done ==> !RedTop(c)
      invariant !done ==>
        child == f.id && parent == CtxId(c, t.nil) && parent.color == (if RedTop(c) then Red else Black)
      invariant !done ==> grand == parent.parent && uncle == if grand.left == parent then grand.right else grand.left
      decreases if done then 0 else 1 + Depth(c)
    {
      GrandParent(t, c, f);
      if uncle.color == Red {
        RecolorStepOk(c, f);
        t.RecolorUp(parent, uncle, grand, c, f);
        c, f := c.up.up, RecolorStep(c, f);
        child := grand;
        parent := child.parent;
        grand := parent.parent;
        uncle := if grand.left == parent then grand.right else grand.left;
        BlackenAtRoot(t, c, f);
        if child == t.root {
          t.SetColor(child, Black, c, f);
          f := Paint(f, Black);
        }
      } else {
        c, f := RotateFix(t, grand, parent, child, c, f);
        done := true;
      }
    }
    Settled(c, f);
    t.Whole(c, f);
    tree := Plug(c, f);
  }

  lemma BlackenAtRoot(t: RbTree, c: Ctx<Node>, f: Tree<Node>)
    requires t.Zip(c, f) && InsertOk(c, f)
    ensures f.id.parent == CtxId(c, t.nil) && (c.Top? <==> f.id == t.root)
    ensures !c.Top? ==> c.id in t.nodes && c.id.color == c.color
    ensures c.Top? ==> RedBlack(Paint(f, Black)) && Inorder(Plug(c, Paint(f, Black))) == Inorder(Plug(c, f))
  {
    RootInCtx(t.Cells(), t.nil, t.root, c, f.id);
    if c.Top? { BlackenRed(f); } else { t.Around(c, f); }
  }

  /** Adds a node for `key` behind the last node whose key is not greater, and returns the
      root of the tree, as rbtree2.c does. */
  method Insert(t: RbTree, key: int) returns (r: Node, ghost z: Node, ghost k: nat)
    requires t.Valid()
    modifies t, t.nodes
    ensures t.Valid() && r == t.root && fresh(z) && t.nodes == old(t.nodes) + {z}
    ensures t.Keys() == old(t.Keys())[z := key]
    ensures k <= |old(Inorder(t.tree))|
    ensures Inorder(t.tree) == old(Inorder(t.tree))[..k] + [z] + old(Inorder(t.tree))[k..]
    ensures AllAtMost(old(Inorder(t.tree))[..k], old(t.Keys()), key) &&
      AllAbove(old(Inorder(t.tree))[k..], old(t.Keys()), key)
  {
    hide RB, Fits, BlackRoot, Inorder, Plug, RepTree, RepCtx, Distinct, CtxDistinct, SortedBy, AllAtMost, AllAbove, Ids;
    var node := new Node(key, t.nil);
    z := node;
    assert t.Keys() == old(t.Keys());
    var res, left;
    ghost var c, steps;
    res, left, c, steps := t.FindHole(key);
    t.HoleOk(c, steps);
    k := |Before(c)|;
    t.SortedHole(c, key, node);
    InsertSorted(t, node, res, left, c);
    r := t.root;
  }

  method InsertSorted(t: RbTree, z: Node, res: Node, left: bool, ghost c: Ctx<Node>)
    requires t.Zip(c, Leaf) && z !in t.nodes && z != t.nil && res == CtxId(c, t.nil) && t.Sentinel()
    requires !c.Top? ==> (left <==> c.InLeft?)
    requires z.left == t.nil && z.right == t.nil && z.color == Red
    requires Fits(c, 0) && BlackRoot(c)
    requires SortedBy(Inorder(Plug(c, Node(Leaf, z, Red, Leaf))), t.Keys()[z := z.key])
    modifies t`root, t`nodes, t`tree, t.nodes`left, t.nodes`right, t.nodes`parent, t.nodes`color, z`left, z`right,
      z`parent, z`color
    ensures t.Valid() && t.nodes == old(t.nodes) + {z} && t.Keys() == old(t.Keys())[z := z.key]
    ensures Inorder(t.tree) == Inorder(Plug(c, Node(Leaf, z, Red, Leaf)))
  {
    hide RB, Fits, BlackRoot, Inorder, Plug, RepTree, RepCtx, Distinct, CtxDistinct, SortedBy;
    ghost var keys := t.Keys()[z := z.key];
    t.tree := InsertAt(t, z, res, left, c);
    t.SameKeys(keys);
  }

  method InsertAt(t: RbTree, z: Node, res: Node, left: bool, ghost c: Ctx<Node>) returns (ghost tree: Tree<Node>)
    requires t.Zip(c, Leaf) && z !in t.nodes && z != t.nil && res == CtxId(c, t.nil) && t.Sentinel()
    requires !c.Top? ==> (left <==> c.InLeft?)
    requires z.left == t.nil && z.right == t.nil && z.color == Red
    requires Fits(c, 0) && BlackRoot(c)
    modifies t`root, t`nodes, t.nodes`left, t.nodes`right, t.nodes`parent, t.nodes`color, z`left, z`right, z`parent,
      z`color
    ensures t.nodes == old(t.nodes) + {z} && t.Zip(Top, tree) && RedBlack(tree)
    ensures Inorder(tree) == Inorder(Plug(c, Node(Leaf, z, Red, Leaf)))
  {
    hide RB, Fits, BlackRoot, Inorder, Plug, RepTree, RepCtx, Distinct, CtxDistinct;
    ghost var f := Node(Leaf, z, Red, Leaf);
    LeafOk(c, z);
    HoleTop(t, c);
    t.Hang(z, res, left, c);
    if res == t.nil {
      t.SetColor(z, Black, c, f);
      tree := f.(color := Black);
    } else {
      tree := ColorFix(t, z, c, f);
    }
  }

  lemma HoleTop(t: RbTree, c: Ctx<Node>)
    requires t.Zip(c, Leaf)
    ensures c.Top? <==> CtxId(c, t.nil) == t.nil
  {
  }

  lemma LeafOk(c: Ctx<Node>, z: Node)
    requires Fits(c, 0) && BlackRoot(c)
    ensures InsertOk(c, Node(Leaf, z, Red, Leaf))
    ensures c.Top? ==> RedBlack(Node(Leaf, z, Black, Leaf))
    ensures c.Top? ==> Inorder(Node(Leaf, z, Black, Leaf)) == Inorder(Plug(c, Node(Leaf, z, Red, Leaf)))
  {
  }

  // -------------------------------------------------------------- erasing

  /** The sibling is black and one nephew red: at most two rotations settle the debt. */
  method Settle(t: RbTree, child: Node, parent: Node, sibling: Node, ghost c: Ctx<Node>, ghost f: Tree<Node>,
      ghost f': Tree<Node>)
    returns (ghost c': Ctx<Node>)
    requires t.At(child, c, f) && t.Sentinel() && f.Node? && DeleteOk(c, f') && !IsRed(f') && !c.Top?
    requires Sibling(c).Node? && !IsRed(Sibling(c)) && (IsRed(Sibling(c).left) || IsRed(Sibling(c).right))
    requires parent == c.id && sibling == Sibling(c).id
    modifies t`root, t.nodes`left, t.nodes`right, t.nodes`parent, t.nodes`color
    ensures t.Zip(c', f) && RedBlack(Plug(c', f')) && Inorder(Plug(c', f')) == Inorder(Plug(c, f'))
  {
    t.Around(c, f);
    t.Across(c, f);
    t.ChildColors(SiblingCtx(c, f), Sibling(c));
    t.RightOf(SiblingCtx(c, f), Sibling(c));
    if parent.left == sibling && sibling.left.color == Red {
      c' := SettleAt(t, child, sibling, c, f, f');
    } else if parent.right == sibling && sibling.right.color == Red {
      c' := SettleAt(t, child, sibling, c, f, f');
    } else if parent.left == sibling && sibling.right.color == Red {
      var tmp := sibling.right;
      Case3RightOk(c, f');
      t.TurnNephewRight(sibling, c, f);
      c' := WithSibling(c, Case3Right(c.left));
      t.Around(c', f);
      c' := SettleAt(t, child, tmp, c', f, f');
    } else {
      var tmp := sibling.left;
      Case3LeftOk(c, f');
      t.TurnNephewLeft(sibling, c, f);
      c' := WithSibling(c, Case3Left(c.right));
      t.Around(c', f);
      c' := SettleAt(t, child, tmp, c', f, f');
    }
  }

  method SettleAt(t: RbTree, child: Node, sibling: Node, ghost c: Ctx<Node>, ghost f: Tree<Node>, ghost f': Tree<Node>)
    returns (ghost c': Ctx<Node>)
    requires t.At(child, c, f) && DeleteOk(c, f') && !IsRed(f') && !c.Top? && Sibling(c).Node? && !IsRed(Sibling(c))
    requires if c.InLeft? then IsRed(Sibling(c).right) else IsRed(Sibling(c).left)
    requires sibling == Sibling(c).id && (child.parent.left == child <==> c.InLeft?)
    modifies t`root, t.nodes`left, t.nodes`right, t.nodes`parent, t.nodes`color
    ensures t.Zip(c', f) && RedBlack(Plug(c', f')) && Inorder(Plug(c', f')) == Inorder(Plug(c, f'))
  {
    hide RB, Fits, BlackRoot, Inorder, Plug, RepTree, RepCtx, Distinct, CtxDistinct;
    SettledOk(c, f');
    SettledCtxIs(c, f);
    c' := SettledCtx(c);
    if child.parent.left == child {
      t.SettleLeft(child, sibling, c, f);
      t.Whole(c.up, RotateLeft(Case4Left(c, f)));
    } else {
      t.SettleRight(child, sibling, c, f);
      t.Whole(c.up, RotateRight(Case4Right(c, f)));
    }
    t.Up(c'.up, UpTree(c', f));
    t.Up(c', f);
  }

  /** What the rebalancing loop keeps: `f'` is the focus without the victim, and it is
      `f'` that is one black node short. */
  ghost predicate Owing(t: RbTree, c: Ctx<Node>, f: Tree<Node>, f': Tree<Node>, victim: Node)
    reads t, t.nodes, t.nil
  {
    t.Zip(c, f) && LeafGone(f, victim, f') && DeleteOk(c, f') && !IsRed(f') && !c.Top?
  }

  lemma OwingView(t: RbTree, c: Ctx<Node>, f: Tree<Node>, f': Tree<Node>, victim: Node)
    requires Owing(t, c, f, f', victim) && t.Sentinel()
    ensures t.At(f.id, c, f) && Sibling(c).Node? && Sibling(c).id.color == Sibling(c).color
    ensures f.id.parent == c.id && c.id.color == c.color && c.id.parent == CtxId(c.up, t.nil) && c.id in t.nodes
    ensures (if c.id.left == f.id then c.id.right else c.id.left) == Sibling(c).id
    ensures Sibling(c).id.left.color == Red <==> IsRed(Sibling(c).left)
    ensures Sibling(c).id.right.color == Red <==> IsRed(Sibling(c).right)
    ensures c.id == t.root <==> c.up.Top?
    ensures c.id.left == Sibling(c).id <==> c.InRight?
    ensures Sibling(c).id != c.id
  {
    SiblingExists(c, f');
    t.Around(c, f);
    t.Across(c, f);
    t.ChildColors(SiblingCtx(c, f), Sibling(c));
    t.Up(c, f);
    RootInCtx(t.Cells(), t.nil, t.root, c.up, c.id);
  }

  method RebalanceLeaf(t: RbTree, victim: Node, ghost c0: Ctx<Node>) returns (ghost c: Ctx<Node>)
    requires Owing(t, c0, Node(Leaf, victim, Black, Leaf), Leaf, victim) && t.Sentinel()
    modifies t`root, t.nodes`left, t.nodes`right, t.nodes`parent, t.nodes`color
    ensures t.Zip(c, Node(Leaf, victim, Black, Leaf)) && RedBlack(Plug(c, Leaf))
    ensures Inorder(Plug(c, Leaf)) == Inorder(Plug(c0, Leaf))
  {
    hide RB, Fits, BlackRoot, Inorder, Plug, RepTree, RepCtx, Distinct, CtxDistinct, RedBlack;
    ghost var k, f, f' := c0, Node(Leaf, victim, Black, Leaf), Leaf;
    OwingView(t, k, f, f', victim);
    var child, parent := victim, victim.parent;
    var sibling := if parent.left == child then parent.right else parent.left;
    while true
      invariant Owing(t, k, f, f', victim) && t.Sentinel() && child == f.id && parent == k.id
      invariant Sibling(k).Node? && sibling == Sibling(k).id
      invariant Inorder(Plug(k, f')) == Inorder(Plug(c0, Leaf))
      decreases if k.color == Red then 0 else 1 + Depth(k)
    {
      OwingView(t, k, f, f', victim);
      if sibling.color == Red {
        k := TurnRedSibling(t, child, parent, sibling, k, f, f', victim);
        OwingView(t, k, f, f', victim);
        sibling := if parent.left == child then parent.right else parent.left;
      } else if sibling.left.color == Black && sibling.right.color == Black {
        t.PaintSibling(sibling, Red, k, f);
        if parent.color == Red || parent == t.root {
          AbsorbedOk(k, f');
          k := t.PaintParent(parent, Black, WithSibling(k, Paint(Sibling(k), Red)), f);
          break;
        }
        k, f, f' := Ascend(t, k, f, f', victim);
        OwingView(t, k, f, f', victim);
        child := child.parent;
        parent := parent.parent;
        sibling := if parent.left == child then parent.right else parent.left;
      } else {
        k := Settle(t, child, parent, sibling, k, f, f');
        break;
      }
    }
    LeafGonePlug(k, f, victim, f');
    c := LeafGoneFocus(Plug(k, f), victim, Plug(k, f'));
    t.Whole(k, f);
    t.Whole(c, Node(Leaf, victim, Black, Leaf));
  }

  /** A red sibling is rotated out of the way. */
  method TurnRedSibling(t: RbTree, child: Node, parent: Node, sibling: Node,
                        ghost c: Ctx<Node>, ghost f: Tree<Node>, ghost f': Tree<Node>, victim: Node)
    returns (ghost c': Ctx<Node>)
    requires Owing(t, c, f, f', victim) && t.Sentinel() && child == f.id && parent == c.id && sibling == Sibling(c).id
    requires IsRed(Sibling(c))
    modifies t`root, t.nodes`left, t.nodes`right, t.nodes`parent, t.nodes`color
    ensures Owing(t, c', f, f', victim) && c'.id == c.id && c'.color == Red && c.color == Black
    ensures Inorder(Plug(c', f')) == Inorder(Plug(c, f'))
  {
    OwingView(t, c, f, f', victim);
    SiblingExists(c, f');
    if parent.left == sibling {
      Case1RightOk(c, f');
      c' := t.BorrowRedRight(child, sibling, c, f);
    } else {
      Case1LeftOk(c, f');
      c' := t.BorrowRedLeft(child, sibling, c, f);
    }
  }

  /** The debt moves to the parent, which is black and not the root. */
  ghost method Ascend(t: RbTree, c: Ctx<Node>, f: Tree<Node>, f': Tree<Node>, victim: Node)
    returns (c': Ctx<Node>, g: Tree<Node>, g': Tree<Node>)
    requires !c.Top? && c.color == Black && !c.up.Top?
    requires t.Zip(WithSibling(c, Paint(Sibling(c), Red)), f) && LeafGone(f, victim, f') && DeleteOk(c, f') &&
      !IsRed(f')
    requires Sibling(c).Node? && !IsRed(Sibling(c)) && !IsRed(Sibling(c).left) && !IsRed(Sibling(c).right)
    ensures Owing(t, c', g, g', victim) && c' == c.up && g.id == c.id
    ensures Inorder(Plug(c', g')) == Inorder(Plug(c, f'))
  {
    Case2Ok(c, f');
    c', g, g' := c.up, Case2Tree(c, f), Case2Tree(c, f');
    t.Up(WithSibling(c, Paint(Sibling(c), Red)), f);
  }

  /** Unlinks a leaf that is not the root. */
  method UnlinkLeaf(t: RbTree, victim: Node, ghost c: Ctx<Node>, ghost f: Tree<Node>)
    requires t.Zip(c, f) && !c.Top? && f.Node? && f.id == victim && f.left.Leaf? && f.right.Leaf?
    modifies t`nodes, t.nodes`left, t.nodes`right
    ensures t.nodes == old(t.nodes) - {victim} && t.Zip(c, Leaf)
  {
    hide RepTree, RepCtx;
    t.Around(c, f);
    t.HoleView(t.Cells(), c, f);
    ghost var s := t.Cells();
    if victim.parent.right == victim {
      victim.parent.right := t.nil;
    } else {
      victim.parent.left := t.nil;
    }
    t.Transplanted(s, t.root, c, f, Leaf);
    t.Forget(c, Leaf, victim);
  }

  method EraseNode(t: RbTree, child: Node, ghost c: Ctx<Node>, ghost f: Tree<Node>)
    returns (r: int, ghost tree: Tree<Node>)
    requires t.Zip(c, f) && f.Node? && f.id == child && RedBlack(Plug(c, f)) && t.Sentinel()
    modifies t`root, t`nodes, t.nodes`left, t.nodes`right, t.nodes`parent, t.nodes`color
    ensures t.Zip(Top, tree) && RedBlack(tree)
    ensures f.left.Node? || f.right.Node? ==> r == 1 && tree == Plug(c, f)
    ensures f.left.Leaf? && f.right.Leaf? ==>
      r == 0 && t.nodes == old(t.nodes) - {child} && Inorder(tree) == Inorder(Plug(c, Leaf))
  {
    t.RightOf(c, f);
    if child.left != t.nil || child.right != t.nil {
      t.Whole(c, f);
      return 1, Plug(c, f);
    }
    r := 0;
    RootInCtx(t.Cells(), t.nil, t.root, c, child);
    if child == t.root {
      t.root := t.nil;
      EmptyTree(t, child);
      tree := Leaf;
    } else if child.color == Red {
      RemoveRed(c, f, Leaf);
      UnlinkLeaf(t, child, c, f);
      tree := Plug(c, Leaf);
      t.Whole(c, Leaf);
    } else {
      RemoveBlack(c, f, Leaf);
      ghost var k := RebalanceLeaf(t, child, c);
      UnlinkLeaf(t, child, k, f);
      tree := Plug(k, Leaf);
      t.Whole(k, Leaf);
    }
  }

  ghost method EmptyTree(t: RbTree, child: Node)
    requires t.nodes == {child} && t.nil != child && t.root == t.nil
    modifies t`nodes
    ensures t.nodes == {} && t.Zip(Top, Leaf)
  {
    t.nodes := {};
  }

  // -------------------------------------------------- key sequences

  ghost predicate AllIn(ns: seq<Node>, m: map<Node, int>) {
    forall i :: 0 <= i < |ns| ==> ns[i] in m
  }

  ghost predicate NonDecreasing(s: seq<int>) {
    forall i, j :: 0 <= i < j < |s| ==> s[i] <= s[j]
  }

  lemma SortedKeys(ns: seq<Node>, m: map<Node, int>)
    requires AllIn(ns, m)
    ensures SortedBy(ns, m) <==> NonDecreasing(KeySeq(ns, m))
  {
    var s := KeySeq(ns, m);
    if NonDecreasing(s) {
      forall i, j | 0 <= i < j < |ns| ensures m[ns[i]] <= m[ns[j]] {
        assert s[i] <= s[j];
      }
    }
  }

  lemma SwapKeys(ns: seq<Node>, m: map<Node, int>, a: nat, b: nat)
    requires NoDup(ns) && AllIn(ns, m) && a < |ns| && b < |ns| && a != b
    ensures var s := KeySeq(ns, m);
      KeySeq(ns, m[ns[a] := m[ns[b]]][ns[b] := m[ns[a]]]) == s[a := s[b]][b := s[a]]
  {
  }

  lemma DropKeys(ns: seq<Node>, m: map<Node, int>, k: nat)
    requires NoDup(ns) && AllIn(ns, m) && k < |ns|
    ensures KeySeq(Drop(ns, k), m - {ns[k]}) == Drop(KeySeq(ns, m), k)
    ensures AllIn(Drop(ns, k), m - {ns[k]})
  {
  }

  lemma TreeInKeys(t: RbTree)
    requires t.Zip(Top, t.tree)
    ensures AllIn(Inorder(t.tree), t.Keys()) && NoDup(Inorder(t.tree))
  {
    var ns := Inorder(t.tree);
    forall i | 0 <= i < |ns| ensures ns[i] in t.Keys() {
      InorderIds(t.tree, ns[i]);
    }
    DistinctInorder(t.tree);
  }

  /** The keys of the tree in visiting order. */
  ghost function Sorted(t: RbTree): seq<int>
    reads t, t.nodes
  {
    KeySeq(Inorder(t.tree), t.Keys())
  }

  /** Moves the key of `p` down to a leaf by exchanging it with its neighbour in order. */
  method SwapDown(t: RbTree, p: Node, ghost c0: Ctx<Node>, ghost f0: Tree<Node>)
    returns (cur: Node, ghost c: Ctx<Node>, ghost f: Tree<Node>)
    requires t.Zip(c0, f0) && Plug(c0, f0) == t.tree && f0.Node? && f0.id == p && RedBlack(t.tree)
    requires Position(c0, f0) < |Sorted(t)|
    modifies t.nodes`key
    ensures t.Zip(c, f) && Plug(c, f) == t.tree && f.Node? && f.id == cur && f.left.Leaf? && f.right.Leaf?
    ensures Position(c, f) < |Sorted(t)| && Drop(Sorted(t), Position(c, f)) == old(Drop(Sorted(t), Position(c0, f0)))
    ensures t.Keys().Keys == t.nodes
  {
    hide RB, Rep, RepTree, RepCtx, Plug, Inorder, KeySeq, Before;
    cur, c, f := p, c0, f0;
    ghost var rest := Drop(Sorted(t), Position(c0, f0));
    t.RightOf(c, f);
    while cur.left != t.nil || cur.right != t.nil
      invariant t.Zip(c, f) && Plug(c, f) == t.tree && f.Node? && f.id == cur
      invariant cur.left == RootId(f.left, t.nil) && cur.right == RootId(f.right, t.nil)
      invariant Position(c, f) < |Sorted(t)| && Drop(Sorted(t), Position(c, f)) == rest
      decreases |Inorder(f)|
    {
      t.RightOf(c, f);
      var swap: Node;
      ghost var c1, f1;
      swap, c1, f1 := Neighbour(t, cur, c, f);
      SwapStep(t, c, f, c1, f1);
      ExchangeKeys(t, cur, swap);
      cur, c, f := swap, c1, f1;
      t.RightOf(c, f);
    }
    t.RightOf(c, f);
  }

  method ExchangeKeys(t: RbTree, cur: Node, swap: Node)
    requires cur in t.nodes && swap in t.nodes
    modifies cur`key, swap`key
    ensures t.Cells() == old(t.Cells())
    ensures t.Keys() == old(t.Keys())[cur := old(swap.key)][swap := old(cur.key)]
  {
    var tmp := cur.key;
    cur.key := swap.key;
    swap.key := tmp;
  }

  method Neighbour(t: RbTree, cur: Node, ghost c: Ctx<Node>, ghost f: Tree<Node>)
    returns (swap: Node, ghost c1: Ctx<Node>, ghost f1: Tree<Node>)
    requires t.Zip(c, f) && f.Node? && f.id == cur && RB(Plug(c, f)) && (f.left.Node? || f.right.Node?)
    ensures t.Zip(c1, f1) && Plug(c1, f1) == Plug(c, f) && f1.Node? && f1.id == swap && swap in t.nodes &&
      cur in t.nodes
    ensures Position(c1, f1) == Position(c, f) + 1 || Position(c1, f1) + 1 == Position(c, f)
    ensures |Inorder(f1)| < |Inorder(f)|
  {
    t.RightOf(c, f);
    if cur.right == t.nil {
      swap := cur.left;
      PlugRB(c, f);
      LonelyLeft(c, f);
      c1, f1 := InLeft(c, f.id, f.color, f.right), f.left;
      t.Up(c1, f1);
    } else {
      ghost var k;
      swap, k, f1 := t.Successor(cur, c, f);
      c1 := SuccessorCtx(c, f, f.id, k);
      t.SuccessorView(c, f, k, f1);
      SuccessorPosition(c, f, k, f1);
      PlugCompose(k, InRight(c, f.left, f.id, f.color), f1);
    }
  }

  lemma SwapStep(t: RbTree, c: Ctx<Node>, f: Tree<Node>, c1: Ctx<Node>, f1: Tree<Node>)
    requires t.Zip(c, f) && Plug(c, f) == t.tree == Plug(c1, f1) && f.Node? && f1.Node?
    requires Position(c1, f1) == Position(c, f) + 1 || Position(c1, f1) + 1 == Position(c, f)
    requires f.id in t.nodes && f1.id in t.nodes
    ensures Position(c, f) < |Sorted(t)| && Position(c1, f1) < |Sorted(t)|
    ensures var m' := t.Keys()[f.id := f1.id.key][f1.id := f.id.key];
      |KeySeq(Inorder(t.tree), m')| == |Sorted(t)| &&
      Drop(KeySeq(Inorder(t.tree), m'), Position(c1, f1)) == Drop(Sorted(t), Position(c, f))
  {
    FocusOrder(c, f);
    FocusOrder(c1, f1);
    t.Whole(c, f);
    TreeInKeys(t);
    SwapKeys(Inorder(t.tree), t.Keys(), Position(c, f), Position(c1, f1));
    SwapDrop(Sorted(t), Position(c, f), Position(c1, f1));
  }

  /** Removes one key: the one `p` holds.  The node that leaves the tree may be another. */
  method Erase(t: RbTree, p: Node) returns (r: int, ghost k: nat, ghost gone: Node)
    requires t.Valid() && p in t.nodes
    modifies t, t.nodes
    ensures t.Valid() && r == 0 && gone in old(t.nodes) && t.nodes == old(t.nodes) - {gone}
    ensures k < |old(Inorder(t.tree))| && old(Inorder(t.tree))[k] == p
    ensures Sorted(t) == Drop(old(Sorted(t)), k)
  {
    hide RB, Rep, KeySeq, Drop, NonDecreasing, Plug, RedBlack, SortedBy;
    ghost var c0, f0 := FindNode(t, p);
    k := Position(c0, f0);
    var cur;
    ghost var c, f;
    cur, c, f := SwapDown(t, p, c0, f0);
    gone := cur;
    LeafIn(t, c, f);
    r := EraseLeaf(t, cur, c, f);
  }

  /** Where `p` is in the tree, and that its key can go without disturbing the order. */
  lemma FindNode(t: RbTree, p: Node) returns (c: Ctx<Node>, f: Tree<Node>)
    requires t.Valid() && p in t.nodes
    ensures t.Zip(c, f) && Plug(c, f) == t.tree && f.Node? && f.id == p
    ensures Position(c, f) < |Inorder(t.tree)| == |Sorted(t)| && Inorder(t.tree)[Position(c, f)] == p
    ensures NonDecreasing(Drop(Sorted(t), Position(c, f)))
  {
    hide RB, Rep, KeySeq, Drop, NonDecreasing, Plug;
    c, f := Locate(t.tree, p);
    t.Whole(c, f);
    FocusOrder(c, f);
    TreeInKeys(t);
    SortedKeys(Inorder(t.tree), t.Keys());
    LengthOf(t);
    DropOrder(Sorted(t), Position(c, f));
  }

  lemma LengthOf(t: RbTree)
    ensures |Sorted(t)| == |Inorder(t.tree)|
  {
  }

  lemma DropOrder(s: seq<int>, k: nat)
    requires NonDecreasing(s) && k < |s|
    ensures NonDecreasing(Drop(s, k))
  {
  }

  lemma LeafIn(t: RbTree, c: Ctx<Node>, f: Tree<Node>)
    requires t.Zip(c, f) && f.Node?
    ensures f.id in t.nodes
  {
  }

  method EraseLeaf(t: RbTree, cur: Node, ghost c: Ctx<Node>, ghost f: Tree<Node>) returns (r: int)
    requires t.Zip(c, f) && Plug(c, f) == t.tree && RedBlack(t.tree) && t.Sentinel()
    requires f.Node? && f.id == cur && f.left.Leaf? && f.right.Leaf? && Position(c, f) < |Sorted(t)|
    requires NonDecreasing(Drop(Sorted(t), Position(c, f)))
    modifies t`root, t`nodes, t`tree, t.nodes`left, t.nodes`right, t.nodes`parent, t.nodes`color
    ensures t.Valid() && r == 0 && t.nodes == old(t.nodes) - {cur}
    ensures Sorted(t) == old(Drop(Sorted(t), Position(c, f)))
  {
    hide Inorder, Plug, Drop, NonDecreasing, SortedBy, KeySeq, AllIn, RedBlack, RbTree.Keys, Rep;
    ghost var keys := t.Keys();
    LeafOrder(t, cur, c, f);
    ghost var tree;
    r, tree := EraseNode(t, cur, c, f);
    t.tree := tree;
    t.SameKeys(keys - {cur});
  }

  /** The nodes and keys that are left when leaf `f` goes. */
  lemma LeafOrder(t: RbTree, cur: Node, c: Ctx<Node>, f: Tree<Node>)
    requires t.Zip(c, f) && Plug(c, f) == t.tree
    requires f.Node? && f.id == cur && f.left.Leaf? && f.right.Leaf? && Position(c, f) < |Sorted(t)|
    requires NonDecreasing(Drop(Sorted(t), Position(c, f)))
    ensures var (ns, m) := (Inorder(Plug(c, Leaf)), t.Keys() - {cur});
      SortedBy(ns, m) && KeySeq(ns, m) == Drop(Sorted(t), Position(c, f))
    ensures t.nil !in t.nodes && t.Keys().Keys == t.nodes && forall n :: n in t.nodes ==> t.Keys()[n] == n.key
  {
    var keys, ns := t.Keys(), Inorder(t.tree);
    t.Whole(c, f);
    TreeInKeys(t);
    FocusOrder(c, f);
    RemoveOrder(c, f, Leaf);
    DropKeys(ns, keys, Position(c, f));
    SortedKeys(Drop(ns, Position(c, f)), keys - {cur});
  }
}
