/**
 The colour arguments of the fixup loops, on values.

 `InsertOk` and `DeleteOk` are the invariants of the two loops.  Every program in the
 repository that inserts into or deletes from a red-black tree runs through the steps
 below, whatever its pointers look like.
 */
module Rebalance {
  import opened Trees

  lemma PlugOrder<T>(c: Ctx<T>, t: Tree<T>, t': Tree<T>)
    requires Inorder(t) == Inorder(t')
    ensures Inorder(Plug(c, t)) == Inorder(Plug(c, t'))
  {
    PlugInorder(c, t); PlugInorder(c, t');
  }

  lemma PaintKeeps<T>(t: Tree<T>, col: Color)
    ensures Inorder(Paint(t, col)) == Inorder(t) && Ids(Paint(t, col)) == Ids(t)
    ensures Distinct(Paint(t, col)) == Distinct(t)
  {
  }

  // ------------------------------------------------------------ insertion

  /** The focus is red and fits; only the edge above it may break the rules. */
  predicate InsertOk<T>(c: Ctx<T>, f: Tree<T>) {
    IsRed(f) && RB(f) && Fits(c, BlackHeight(f)) && BlackRoot(c)
  }

  /** A new red node in an empty hole. */
  lemma NewRedOk<T>(c: Ctx<T>, z: T)
    requires Fits(c, 0) && BlackRoot(c)
    ensures InsertOk(c, Node(Leaf, z, Red, Leaf))
  {
    assert BlackHeight(Node(Leaf, z, Red, Leaf)) == 0 && RB(Node(Leaf, z, Red, Leaf));
  }

  /** When the edge above is fine too, painting the root black completes the tree. */
  lemma InsertDone<T>(c: Ctx<T>, f: Tree<T>)
    requires InsertOk(c, f) && !RedTop(c)
    ensures RedBlack(Paint(Plug(c, f), Black))
  {
    PlugRB(c, f); PlugBlackRoot(c, f);
  }

  /** Under a red parent there is a black grandparent. */
  lemma RedParent<T>(c: Ctx<T>, f: Tree<T>)
    requires InsertOk(c, f) && RedTop(c)
    ensures !c.up.Top? && c.up.color == Black && Depth(c) == Depth(c.up.up) + 2
  {
  }

  lemma TwoUp<T>(c: Ctx<T>, f: Tree<T>)
    requires InsertOk(c, f) && RedTop(c) && !c.up.Top?
    ensures var h := BlackHeight(f);
      Fits(c.up, h) && c.up.color == Black && Fits(c.up.up, h + 1) && BlackRoot(c.up) && BlackRoot(c.up.up) &&
      RB(Sibling(c)) && !IsRed(Sibling(c)) && BlackHeight(Sibling(c)) == h &&
      RB(Sibling(c.up)) && BlackHeight(Sibling(c.up)) == h
  {
  }

  /** Case 1: parent and uncle turn black, the grandparent red. */
  function RecolorStep<T>(c: Ctx<T>, f: Tree<T>): Tree<T>
    requires !c.Top? && !c.up.Top?
  {
    var p := Paint(UpTree(c, f), Black);
    Paint(UpTree(SiblingCtx(c.up, p), Paint(Sibling(c.up), Black)), Red)
  }

  lemma RecolorStepOk<T>(c: Ctx<T>, f: Tree<T>)
    requires InsertOk(c, f) && RedTop(c) && !c.up.Top? && IsRed(Sibling(c.up))
    ensures InsertOk(c.up.up, RecolorStep(c, f))
    ensures Inorder(Plug(c.up.up, RecolorStep(c, f))) == Inorder(Plug(c, f))
  {
    hide Plug, Inorder, Fits, InsertOk, RecolorStep;
    RecolorStepOrder(c, f);
    RecolorStepRB(c, f);
  }

  lemma RecolorStepOrder<T>(c: Ctx<T>, f: Tree<T>)
    requires !c.Top? && !c.up.Top?
    ensures Inorder(Plug(c.up.up, RecolorStep(c, f))) == Inorder(Plug(c, f))
  {
    var p := UpTree(c, f);
    var g := UpTree(c.up, p);
    assert Plug(c, f) == Plug(c.up.up, g);
    PaintKeeps(p, Black); PaintKeeps(Sibling(c.up), Black);
    PlugOrder(c.up.up, g, RecolorStep(c, f));
  }

  lemma RecolorStepRB<T>(c: Ctx<T>, f: Tree<T>)
    requires InsertOk(c, f) && RedTop(c) && !c.up.Top? && IsRed(Sibling(c.up))
    ensures InsertOk(c.up.up, RecolorStep(c, f))
  {
    TwoUp(c, f);
    var p, u := Paint(UpTree(c, f), Black), Paint(Sibling(c.up), Black);
    assert RB(p) && BlackHeight(p) == BlackHeight(f) + 1;
    assert RB(u) && BlackHeight(u) == BlackHeight(f) + 1;
  }

  /** Case 2: a rotation at the parent turns an inner grandchild into an outer one. */
  lemma StraightenLeftOk<T>(c: Ctx<T>, f: Tree<T>)
    requires InsertOk(c, f) && RedTop(c) && c.InRight?
    ensures
      var p := UpTree(c, f);
      var c' := InLeft(c.up, f.id, Red, f.right);
      RotateLeft(p) == UpTree(c', RotateLeft(p).left) && InsertOk(c', RotateLeft(p).left) &&
      Inorder(Plug(c', RotateLeft(p).left)) == Inorder(Plug(c, f))
  {
    RotateLeftKeeps(UpTree(c, f));
    PlugOrder(c.up, UpTree(c, f), RotateLeft(UpTree(c, f)));
  }

  lemma StraightenRightOk<T>(c: Ctx<T>, f: Tree<T>)
    requires InsertOk(c, f) && RedTop(c) && c.InLeft?
    ensures
      var p := UpTree(c, f);
      var c' := InRight(c.up, f.left, f.id, Red);
      RotateRight(p) == UpTree(c', RotateRight(p).right) && InsertOk(c', RotateRight(p).right) &&
      Inorder(Plug(c', RotateRight(p).right)) == Inorder(Plug(c, f))
  {
    RotateRightKeeps(UpTree(c, f));
    PlugOrder(c.up, UpTree(c, f), RotateRight(UpTree(c, f)));
  }

  /** The grandparent of an outer grandchild, recoloured and about to be rotated. */
  function LiftTree<T>(c: Ctx<T>, f: Tree<T>): Tree<T>
    requires !c.Top? && !c.up.Top?
  {
    Paint(UpTree(c.up, Paint(UpTree(c, f), Black)), Red)
  }

  /** Case 3: parent and grandparent exchange colours and the rotation lifts the parent. */
  lemma LiftRightOk<T>(c: Ctx<T>, f: Tree<T>)
    requires InsertOk(c, f) && RedTop(c) && c.InLeft? && c.up.InLeft? && !IsRed(c.up.right)
    ensures
      var g := RotateRight(LiftTree(c, f));
      var c' := InLeft(c.up.up, c.id, Black, g.right);
      g == UpTree(c', f) && InsertOk(c', f) && !RedTop(c') && Inorder(Plug(c', f)) == Inorder(Plug(c, f))
  {
    TwoUp(c, f);
    RotateRightKeeps(LiftTree(c, f));
    PlugOrder(c.up.up, UpTree(c.up, UpTree(c, f)), LiftTree(c, f));
    PlugOrder(c.up.up, LiftTree(c, f), RotateRight(LiftTree(c, f)));
  }

  lemma LiftLeftOk<T>(c: Ctx<T>, f: Tree<T>)
    requires InsertOk(c, f) && RedTop(c) && c.InRight? && c.up.InRight? && !IsRed(c.up.left)
    ensures
      var g := RotateLeft(LiftTree(c, f));
      var c' := InRight(c.up.up, g.left, c.id, Black);
      g == UpTree(c', f) && InsertOk(c', f) && !RedTop(c') && Inorder(Plug(c', f)) == Inorder(Plug(c, f))
  {
    TwoUp(c, f);
    RotateLeftKeeps(LiftTree(c, f));
    PlugOrder(c.up.up, UpTree(c.up, UpTree(c, f)), LiftTree(c, f));
    PlugOrder(c.up.up, LiftTree(c, f), RotateLeft(LiftTree(c, f)));
  }

  // ------------------------------------------------------------- deletion

  /** The focus is one black node short on every path, a debt its root pays if red. */
  predicate DeleteOk<T>(c: Ctx<T>, f: Tree<T>) {
    RB(Paint(f, Black)) && Fits(c, BlackHeight(f) + 1) && BlackRoot(c)
  }

  lemma DeleteDone<T>(c: Ctx<T>, f: Tree<T>)
    requires DeleteOk(c, f) && (c.Top? || IsRed(f))
    ensures RedBlack(Plug(c, Paint(f, Black)))
    ensures Inorder(Plug(c, Paint(f, Black))) == Inorder(Plug(c, f))
  {
    PlugRB(c, Paint(f, Black));
    PlugBlackRoot(c, Paint(f, Black));
    PlugOrder(c, f, Paint(f, Black));
  }

  function WithSibling<T>(c: Ctx<T>, s: Tree<T>): Ctx<T>
    requires !c.Top?
  {
    if c.InLeft? then c.(right := s) else c.(left := s)
  }

  /** A short focus has a sibling, and the sibling has black height enough to lend. */
  lemma SiblingExists<T>(c: Ctx<T>, f: Tree<T>)
    requires DeleteOk(c, f) && !c.Top?
    ensures Sibling(c).Node? && RB(Sibling(c)) && BlackHeight(Sibling(c)) == BlackHeight(f) + 1
    ensures IsRed(Sibling(c)) ==> c.color == Black && Sibling(c).left.Node? && Sibling(c).right.Node?
  {
    var s := Sibling(c);
    if IsRed(s) { assert BlackHeight(s.left) == BlackHeight(s.right) == BlackHeight(s); }
  }

  /** Case 1, the context once a red sibling and the parent have exchanged colours. */
  function Case1Ctx<T>(c: Ctx<T>): Ctx<T>
    requires !c.Top?
  {
    if c.InLeft? then InLeft(c.up, c.id, Red, Paint(c.right, Black)) else InRight(c.up, Paint(c.left, Black), c.id, Red)
  }

  lemma Case1LeftOk<T>(c: Ctx<T>, f: Tree<T>)
    requires DeleteOk(c, f) && !IsRed(f) && c.InLeft? && IsRed(c.right)
    ensures
      var p := UpTree(Case1Ctx(c), f);
      var c' := InLeft(InLeft(c.up, c.right.id, Black, c.right.right), c.id, Red, c.right.left);
      p.right.Node? && RotateLeft(p) == UpTree(c'.up, UpTree(c', f)) &&
      DeleteOk(c', f) && !IsRed(Sibling(c')) && Inorder(Plug(c', f)) == Inorder(Plug(c, f))
  {
    SiblingExists(c, f);
    var p := UpTree(Case1Ctx(c), f);
    RotateLeftKeeps(p);
    PlugOrder(c.up, UpTree(c, f), p);
    PlugOrder(c.up, p, RotateLeft(p));
  }

  lemma Case1RightOk<T>(c: Ctx<T>, f: Tree<T>)
    requires DeleteOk(c, f) && !IsRed(f) && c.InRight? && IsRed(c.left)
    ensures
      var p := UpTree(Case1Ctx(c), f);
      var c' := InRight(InRight(c.up, c.left.left, c.left.id, Black), c.left.right, c.id, Red);
      p.left.Node? && RotateRight(p) == UpTree(c'.up, UpTree(c', f)) &&
      DeleteOk(c', f) && !IsRed(Sibling(c')) && Inorder(Plug(c', f)) == Inorder(Plug(c, f))
  {
    SiblingExists(c, f);
    var p := UpTree(Case1Ctx(c), f);
    RotateRightKeeps(p);
    PlugOrder(c.up, UpTree(c, f), p);
    PlugOrder(c.up, p, RotateRight(p));
  }

  /** Case 2: a black sibling without red children turns red and the debt moves up. */
  function Case2Tree<T>(c: Ctx<T>, f: Tree<T>): Tree<T>
    requires !c.Top?
  {
    UpTree(WithSibling(c, Paint(Sibling(c), Red)), f)
  }

  lemma Case2Ok<T>(c: Ctx<T>, f: Tree<T>)
    requires DeleteOk(c, f) && !IsRed(f) && !c.Top? && !IsRed(Sibling(c))
    requires Sibling(c).Node? && !IsRed(Sibling(c).left) && !IsRed(Sibling(c).right)
    ensures Case2Tree(c, f).Node? && Case2Tree(c, f).color == c.color && Depth(c) == Depth(c.up) + 1
    ensures DeleteOk(c.up, Case2Tree(c, f)) && Inorder(Plug(c.up, Case2Tree(c, f))) == Inorder(Plug(c, f))
  {
    SiblingExists(c, f);
    PlugOrder(c.up, UpTree(c, f), Case2Tree(c, f));
  }

  lemma BlackenRed<T>(t: Tree<T>)
    requires RB(t) && IsRed(t)
    ensures RB(Paint(t, Black)) && BlackHeight(Paint(t, Black)) == BlackHeight(t) + 1
    ensures RB(t.left) && RB(t.right) && !IsRed(t.left) && !IsRed(t.right)
    ensures BlackHeight(t.left) == BlackHeight(t.right) == BlackHeight(t)
  {
  }

  lemma Children<T>(t: Tree<T>)
    requires RB(t) && t.Node?
    ensures RB(t.left) && RB(t.right) && BlackHeight(t.left) == BlackHeight(t.right)
    ensures BlackHeight(t) == BlackHeight(t.left) + Weight(t.color)
  {
  }

  /** Case 3: the red child of the sibling is the inner one; rotate it outwards. */
  function Case3Left<T>(s: Tree<T>): Tree<T>
    requires s.Node? && s.left.Node?
  {
    RotateRight(s.(left := Paint(s.left, Black), color := Red))
  }

  function Case3Right<T>(s: Tree<T>): Tree<T>
    requires s.Node? && s.right.Node?
  {
    RotateLeft(s.(right := Paint(s.right, Black), color := Red))
  }

  lemma Case3LeftRB<T>(s: Tree<T>)
    requires RB(s) && s.Node? && !IsRed(s) && IsRed(s.left) && !IsRed(s.right)
    ensures var t := Case3Left(s);
      RB(t) && BlackHeight(t) == BlackHeight(s) && t.Node? && !IsRed(t) && IsRed(t.right)
  {
    Children(s);
    BlackenRed(s.left);
    var r := Node(s.left.right, s.id, Red, s.right);
    assert RB(r) && BlackHeight(r) == BlackHeight(s.left);
    assert Case3Left(s) == Node(s.left.left, s.left.id, Black, r);
  }

  lemma Case3LeftOrder<T>(s: Tree<T>)
    requires s.Node? && s.left.Node?
    ensures Inorder(Case3Left(s)) == Inorder(s)
  {
    var t := s.(left := Paint(s.left, Black), color := Red);
    PaintKeeps(s.left, Black);
    assert Inorder(t) == Inorder(s);
    RotateRightKeeps(t);
  }

  lemma Case3RightRB<T>(s: Tree<T>)
    requires RB(s) && s.Node? && !IsRed(s) && IsRed(s.right) && !IsRed(s.left)
    ensures var t := Case3Right(s);
      RB(t) && BlackHeight(t) == BlackHeight(s) && t.Node? && !IsRed(t) && IsRed(t.left)
  {
    Children(s);
    BlackenRed(s.right);
    var l := Node(s.left, s.id, Red, s.right.left);
    assert RB(l) && BlackHeight(l) == BlackHeight(s.right);
    assert Case3Right(s) == Node(l, s.right.id, Black, s.right.right);
  }

  lemma Case3RightOrder<T>(s: Tree<T>)
    requires s.Node? && s.right.Node?
    ensures Inorder(Case3Right(s)) == Inorder(s)
  {
    var t := s.(right := Paint(s.right, Black), color := Red);
    PaintKeeps(s.right, Black);
    assert Inorder(t) == Inorder(s);
    RotateLeftKeeps(t);
  }

  lemma SiblingOrder<T>(c: Ctx<T>, f: Tree<T>, s: Tree<T>)
    requires !c.Top? && Inorder(s) == Inorder(Sibling(c))
    ensures Inorder(Plug(WithSibling(c, s), f)) == Inorder(Plug(c, f))
  {
    assert Inorder(UpTree(WithSibling(c, s), f)) == Inorder(UpTree(c, f));
    PlugOrder(c.up, UpTree(c, f), UpTree(WithSibling(c, s), f));
  }

  lemma Case3LeftOk<T>(c: Ctx<T>, f: Tree<T>)
    requires DeleteOk(c, f) && c.InLeft? && c.right.Node? && !IsRed(c.right)
    requires IsRed(c.right.left) && !IsRed(c.right.right)
    ensures var c' := WithSibling(c, Case3Left(c.right));
      DeleteOk(c', f) && !IsRed(c'.right) && IsRed(c'.right.right) && Inorder(Plug(c', f)) == Inorder(Plug(c, f))
  {
    hide Inorder, Plug, Case3Left;
    Case3LeftRB(c.right);
    Case3LeftOrder(c.right);
    SiblingOrder(c, f, Case3Left(c.right));
  }

  lemma Case3RightOk<T>(c: Ctx<T>, f: Tree<T>)
    requires DeleteOk(c, f) && c.InRight? && c.left.Node? && !IsRed(c.left)
    requires IsRed(c.left.right) && !IsRed(c.left.left)
    ensures var c' := WithSibling(c, Case3Right(c.left));
      DeleteOk(c', f) && !IsRed(c'.left) && IsRed(c'.left.left) && Inorder(Plug(c', f)) == Inorder(Plug(c, f))
  {
    hide Inorder, Plug, Case3Right;
    Case3RightRB(c.left);
    Case3RightOrder(c.left);
    SiblingOrder(c, f, Case3Right(c.left));
  }

  /** Case 4, recoloured and about to be rotated at the parent. */
  function Case4Left<T>(c: Ctx<T>, f: Tree<T>): Tree<T>
    requires c.InLeft? && c.right.Node?
  {
    Node(f, c.id, Black, c.right.(color := c.color, right := Paint(c.right.right, Black)))
  }

  function Case4Right<T>(c: Ctx<T>, f: Tree<T>): Tree<T>
    requires c.InRight? && c.left.Node?
  {
    Node(c.left.(color := c.color, left := Paint(c.left.left, Black)), c.id, Black, f)
  }

  lemma Case4LeftRB<T>(c: Ctx<T>, f: Tree<T>)
    requires RB(f) && c.InLeft? && c.right.Node? && !IsRed(c.right) && IsRed(c.right.right) && RB(c.right)
    requires BlackHeight(c.right) == BlackHeight(f) + 1
    ensures var r := RotateLeft(Case4Left(c, f));
      RB(r) && BlackHeight(r) == BlackHeight(f) + 1 + Weight(c.color) && r.Node? && r.color == c.color
  {
    var s, n := c.right, Node(f, c.id, Black, c.right.left);
    Children(s);
    BlackenRed(s.right);
    assert RB(n) && BlackHeight(n) == BlackHeight(f) + 1;
    assert RotateLeft(Case4Left(c, f)) == Node(n, s.id, c.color, Paint(s.right, Black));
  }

  lemma Case4LeftOrder<T>(c: Ctx<T>, f: Tree<T>)
    requires c.InLeft? && c.right.Node?
    ensures Inorder(Plug(c.up, RotateLeft(Case4Left(c, f)))) == Inorder(Plug(c, f))
  {
    var t := Case4Left(c, f);
    PaintKeeps(c.right.right, Black);
    assert Inorder(t.right) == Inorder(c.right);
    RotateLeftKeeps(t);
    PlugOrder(c.up, UpTree(c, f), t);
    PlugOrder(c.up, t, RotateLeft(t));
  }

  lemma Case4LeftOk<T>(c: Ctx<T>, f: Tree<T>)
    requires DeleteOk(c, f) && !IsRed(f) && c.InLeft? && c.right.Node? && !IsRed(c.right) && IsRed(c.right.right)
    ensures var t := Plug(c.up, RotateLeft(Case4Left(c, f)));
      DeleteOk(Top, t) && !IsRed(t) && t.Node? && Inorder(t) == Inorder(Plug(c, f))
  {
    var r := RotateLeft(Case4Left(c, f));
    assert Paint(f, Black) == f;
    Case4LeftRB(c, f);
    Case4LeftOrder(c, f);
    PlugRB(c.up, r);
    PlugBlackRoot(c.up, r);
    PlugNode(c.up, r);
  }

  lemma Case4RightRB<T>(c: Ctx<T>, f: Tree<T>)
    requires RB(f) && c.InRight? && c.left.Node? && !IsRed(c.left) && IsRed(c.left.left) && RB(c.left)
    requires BlackHeight(c.left) == BlackHeight(f) + 1
    ensures var r := RotateRight(Case4Right(c, f));
      RB(r) && BlackHeight(r) == BlackHeight(f) + 1 + Weight(c.color) && r.Node? && r.color == c.color
  {
    var s, n := c.left, Node(c.left.right, c.id, Black, f);
    Children(s);
    BlackenRed(s.left);
    assert RB(n) && BlackHeight(n) == BlackHeight(f) + 1;
    assert RotateRight(Case4Right(c, f)) == Node(Paint(s.left, Black), s.id, c.color, n);
  }

  lemma Case4RightOrder<T>(c: Ctx<T>, f: Tree<T>)
    requires c.InRight? && c.left.Node?
    ensures Inorder(Plug(c.up, RotateRight(Case4Right(c, f)))) == Inorder(Plug(c, f))
  {
    var t := Case4Right(c, f);
    PaintKeeps(c.left.left, Black);
    assert Inorder(t.left) == Inorder(c.left);
    RotateRightKeeps(t);
    PlugOrder(c.up, UpTree(c, f), t);
    PlugOrder(c.up, t, RotateRight(t));
  }

  lemma Case4RightOk<T>(c: Ctx<T>, f: Tree<T>)
    requires DeleteOk(c, f) && !IsRed(f) && c.InRight? && c.left.Node? && !IsRed(c.left) && IsRed(c.left.left)
    ensures var t := Plug(c.up, RotateRight(Case4Right(c, f)));
      DeleteOk(Top, t) && !IsRed(t) && t.Node? && Inorder(t) == Inorder(Plug(c, f))
  {
    var r := RotateRight(Case4Right(c, f));
    assert Paint(f, Black) == f;
    Case4RightRB(c, f);
    Case4RightOrder(c, f);
    PlugRB(c.up, r);
    PlugBlackRoot(c.up, r);
    PlugNode(c.up, r);
  }

  /** Ranks the states of the deletion loop; every pass lowers it. */
  function Debt<T>(c: Ctx<T>, f: Tree<T>): nat { Depth(c) + if IsRed(f) then 0 else 1 }

  /** Taking out a node with at most one child leaves a debt exactly when the node was black. */
  lemma RemoveBlack<T>(c: Ctx<T>, g: Tree<T>, v: Tree<T>)
    requires RedBlack(Plug(c, g)) && g.Node? && g.color == Black
    requires (g.left.Leaf? && v == g.right) || (g.right.Leaf? && v == g.left)
    ensures DeleteOk(c, v)
  {
    hide Plug, Fits, RB, BlackHeight;
    PlugRB(c, g); PlugBlackRoot(c, g);
    OnlyChild(g, v);
  }

  lemma RemoveRed<T>(c: Ctx<T>, g: Tree<T>, v: Tree<T>)
    requires RedBlack(Plug(c, g)) && g.Node? && g.color == Red
    requires (g.left.Leaf? && v == g.right) || (g.right.Leaf? && v == g.left)
    ensures RedBlack(Plug(c, v))
  {
    hide Plug, Fits, RB, BlackHeight;
    PlugRB(c, g); PlugBlackRoot(c, g);
    OnlyChild(g, v);
    PlugRB(c, v); PlugBlackRoot(c, v);
  }

  lemma OnlyChild<T>(g: Tree<T>, v: Tree<T>)
    requires RB(g) && g.Node?
    requires (g.left.Leaf? && v == g.right) || (g.right.Leaf? && v == g.left)
    ensures RB(v) && RB(Paint(v, Black)) && BlackHeight(v) == 0 && BlackHeight(g) == Weight(g.color)
    ensures g.color == Red ==> !IsRed(v)
  {
    Children(g);
    if v.Node? { Children(v); }
  }

  /** Context `k` below the right-hand side of a node; colours do not depend on which node. */
  lemma {:induction false} RelabelFits<T>(k: Ctx<T>, c: Ctx<T>, l: Tree<T>, p: T, y: T, col: Color, h: nat)
    ensures Fits(Compose(k, InRight(c, l, p, col)), h) <==> Fits(Compose(k, InRight(c, l, y, col)), h)
    ensures BlackRoot(Compose(k, InRight(c, l, p, col))) <==> BlackRoot(Compose(k, InRight(c, l, y, col)))
    ensures RedTop(Compose(k, InRight(c, l, p, col))) <==> RedTop(Compose(k, InRight(c, l, y, col)))
    ensures !Compose(k, InRight(c, l, p, col)).Top?
    decreases k
  {
    if !k.Top? {
      RelabelFits(k.up, c, l, p, y, col, h + Weight(k.color));
    }
  }

  lemma Relabel<T>(k: Ctx<T>, c: Ctx<T>, l: Tree<T>, p: T, y: T, col: Color, v: Tree<T>)
    ensures DeleteOk(Compose(k, InRight(c, l, p, col)), v) <==> DeleteOk(Compose(k, InRight(c, l, y, col)), v)
    ensures RedBlack(Plug(Compose(k, InRight(c, l, p, col)), v)) <==>
      RedBlack(Plug(Compose(k, InRight(c, l, y, col)), v))
  {
    var kp, ky := Compose(k, InRight(c, l, p, col)), Compose(k, InRight(c, l, y, col));
    RelabelFits(k, c, l, p, y, col, BlackHeight(v));
    RelabelFits(k, c, l, p, y, col, BlackHeight(v) + 1);
    PlugRB(kp, v); PlugRB(ky, v);
    PlugBlackRoot(kp, v); PlugBlackRoot(ky, v);
  }

  // ------------------------------------------------------ visiting order

  /** Sequence `s` without the element at position `k`. */
  function Drop<T>(s: seq<T>, k: nat): seq<T>
    requires k < |s|
  {
    s[..k] + s[k + 1..]
  }

  lemma DropAt<T>(a: seq<T>, x: T, b: seq<T>)
    ensures Drop(a + [x] + b, |a|) == a + b && (a + [x] + b)[|a|] == x
  {
  }

  /** Position of the root of the focus in the visiting order. */
  function Position<T>(c: Ctx<T>, f: Tree<T>): nat
    requires f.Node?
  {
    |Before(c)| + |Inorder(f.left)|
  }

  lemma FocusOrder<T>(c: Ctx<T>, f: Tree<T>)
    requires f.Node?
    ensures Inorder(Plug(c, f)) == (Before(c) + Inorder(f.left)) + [f.id] + (Inorder(f.right) + After(c))
    ensures Position(c, f) < |Inorder(Plug(c, f))| && Inorder(Plug(c, f))[Position(c, f)] == f.id
  {
    PlugInorder(c, f);
    SplitMiddle(Before(c), Inorder(f.left), f.id, Inorder(f.right), After(c));
    DropAt(Before(c) + Inorder(f.left), f.id, Inorder(f.right) + After(c));
  }

  lemma FirstVisited<T>(c: Ctx<T>, f: Tree<T>)
    requires f.Node? && f.left.Leaf? && Before(c) == []
    ensures |Inorder(Plug(c, f))| > 0 && Inorder(Plug(c, f))[0] == f.id
  {
    FocusOrder(c, f);
  }

  lemma LastVisited<T>(c: Ctx<T>, f: Tree<T>)
    requires f.Node? && f.right.Leaf? && After(c) == []
    ensures var s := Inorder(Plug(c, f)); |s| > 0 && s[|s| - 1] == f.id
  {
    FocusOrder(c, f);
  }

  lemma SplitMiddle<T>(a: seq<T>, l: seq<T>, n: T, r: seq<T>, b: seq<T>)
    ensures a + (l + [n] + r) + b == (a + l) + [n] + (r + b)
  {
  }

  lemma JoinFour<T>(a: seq<T>, l: seq<T>, r: seq<T>, b: seq<T>)
    ensures (a + l) + (r + b) == a + (l + r) + b
  {
  }

  lemma RemoveOrder<T>(c: Ctx<T>, f: Tree<T>, v: Tree<T>)
    requires f.Node? && ((f.left.Leaf? && v == f.right) || (f.right.Leaf? && v == f.left))
    ensures Position(c, f) < |Inorder(Plug(c, f))|
    ensures Inorder(Plug(c, v)) == Drop(Inorder(Plug(c, f)), Position(c, f))
  {
    var a, l, r, b := Before(c), Inorder(f.left), Inorder(f.right), After(c);
    FocusOrder(c, f);
    DropAt(a + l, f.id, r + b);
    PlugInorder(c, v);
    JoinFour(a, l, r, b);
    assert l + r == Inorder(v);
  }

  lemma PullFirst<T>(a: seq<T>, y: T, r: seq<T>, b: seq<T>)
    ensures a + [y] + (r + b) == a + (([y] + r) + b)
  {
  }

  /** The successor `g`, leftmost in the right subtree, takes the place of the focus. */
  lemma SuccessorOrder<T>(c: Ctx<T>, f: Tree<T>, k: Ctx<T>, g: Tree<T>)
    requires f.Node? && g.Node? && g.left.Leaf? && f.right == Plug(k, g) && Before(k) == []
    ensures Position(c, f) < |Inorder(Plug(c, f))|
    ensures Inorder(Plug(Compose(k, InRight(c, f.left, g.id, f.color)), g.right)) == Drop(Inorder(Plug(c, f)),
      Position(c, f))
  {
    hide Inorder, Compose, Before, After;
    var r' := Plug(k, g.right);
    var f' := Node(f.left, g.id, f.color, r');
    PlugCompose(k, InRight(c, f.left, g.id, f.color), g.right);
    assert Plug(Compose(k, InRight(c, f.left, g.id, f.color)), g.right) == Plug(c, f');
    FocusOrder(c, f);
    FocusOrder(c, f');
    DropAt(Before(c) + Inorder(f.left), f.id, Inorder(f.right) + After(c));
    FirstOfRight(k, g);
    PullFirst(Before(c) + Inorder(f.left), g.id, Inorder(r'), After(c));
  }

  lemma FirstOfRight<T>(k: Ctx<T>, g: Tree<T>)
    requires g.Node? && g.left.Leaf? && Before(k) == []
    ensures Inorder(Plug(k, g)) == [g.id] + Inorder(Plug(k, g.right))
  {
    hide Plug, Before, After;
    PlugInorder(k, g); PlugInorder(k, g.right);
    assert Inorder(g) == [g.id] + Inorder(g.right);
  }

  lemma {:induction false} BeforeCompose<T>(k: Ctx<T>, o: Ctx<T>)
    ensures Before(Compose(k, o)) == Before(o) + Before(k)
    decreases k
  {
    match k
    case Top =>
    case InLeft(up, n, col, r) => BeforeCompose(up, o);
    case InRight(up, l, n, col) =>
      BeforeCompose(up, o);
      assert Before(o) + Before(up) + Inorder(l) + [n] == Before(o) + (Before(up) + Inorder(l) + [n]);
  }

  /** A successor stands one place further on. */
  lemma SuccessorPosition<T>(c: Ctx<T>, f: Tree<T>, k: Ctx<T>, g: Tree<T>)
    requires f.Node? && g.Node? && g.left.Leaf? && f.right == Plug(k, g) && Before(k) == []
    ensures Position(Compose(k, InRight(c, f.left, f.id, f.color)), g) == Position(c, f) + 1
    ensures |Inorder(g)| < |Inorder(f)|
  {
    BeforeCompose(k, InRight(c, f.left, f.id, f.color));
    PlugInorder(k, g);
  }

  /** Without a right child, the left child is a red leaf one place earlier. */
  lemma LonelyLeft<T>(c: Ctx<T>, f: Tree<T>)
    requires RB(f) && f.Node? && f.right.Leaf? && f.left.Node?
    ensures f.left.left.Leaf? && f.left.right.Leaf?
    ensures Position(InLeft(c, f.id, f.color, f.right), f.left) + 1 == Position(c, f)
    ensures |Inorder(f.left)| < |Inorder(f)|
  {
    Children(f);
    Children(f.left);
  }

  /** Swapping two neighbours and dropping the second place is dropping the first place. */
  lemma SwapDrop<T>(s: seq<T>, a: nat, b: nat)
    requires a < |s| && b < |s| && (a == b + 1 || b == a + 1)
    ensures Drop(s[a := s[b]][b := s[a]], b) == Drop(s, a)
  {
  }

  /** Taking out a node with at most one child. */
  lemma DetachColors<T>(c: Ctx<T>, f: Tree<T>, v: Tree<T>)
    requires RedBlack(Plug(c, f)) && f.Node?
    requires (f.left.Leaf? && v == f.right) || (f.right.Leaf? && v == f.left)
    ensures Position(c, f) < |Inorder(Plug(c, f))| && Inorder(Plug(c, v)) == Drop(Inorder(Plug(c, f)), Position(c, f))
    ensures if f.color == Black then DeleteOk(c, v) else RedBlack(Plug(c, v))
  {
    RemoveOrder(c, f, v);
    if f.color == Black { RemoveBlack(c, f, v); } else { RemoveRed(c, f, v); }
  }

  /** Taking out an inner node: its successor `g` takes its place and colour, so it is the colour
      of `g` that is missing, at the place `g` has left. */
  lemma SuccessorColors<T>(c: Ctx<T>, f: Tree<T>, k: Ctx<T>, g: Tree<T>)
    requires RedBlack(Plug(c, f)) && f.Node? && f.right == Plug(k, g) && g.Node? && g.left.Leaf? && Before(k) == []
    ensures var c' := SuccessorCtx(c, f, g.id, k);
      Position(c, f) < |Inorder(Plug(c, f))| &&
        Inorder(Plug(c', g.right)) == Drop(Inorder(Plug(c, f)), Position(c, f)) &&
      if g.color == Black then DeleteOk(c', g.right) else RedBlack(Plug(c', g.right))
  {
    var c0 := SuccessorCtx(c, f, f.id, k);
    PlugCompose(k, InRight(c, f.left, f.id, f.color), g);
    assert Plug(c0, g) == Plug(c, f);
    if g.color == Black { RemoveBlack(c0, g, g.right); } else { RemoveRed(c0, g, g.right); }
    Relabel(k, c, f.left, f.id, g.id, f.color, g.right);
    SuccessorOrder(c, f, k, g);
  }

  // ------------------------------------- rebalancing with the leaf attached

  /** Tree `f'` is `f` without its black leaf `v`. */
  ghost predicate LeafGone<T>(f: Tree<T>, v: T, f': Tree<T>) {
    f.Node? &&
    ((f == Node(Leaf, v, Black, Leaf) && f' == Leaf) ||
     (f'.Node? && f.id == f'.id && f.color == f'.color &&
      ((f.right == f'.right && LeafGone(f.left, v, f'.left)) || (f.left == f'.left && LeafGone(f.right, v, f'.right)))))
  }

  lemma {:induction false} LeafGonePlug<T>(c: Ctx<T>, f: Tree<T>, v: T, f': Tree<T>)
    requires LeafGone(f, v, f')
    ensures LeafGone(Plug(c, f), v, Plug(c, f'))
    decreases c
  {
    if !c.Top? { LeafGonePlug(c.up, UpTree(c, f), v, UpTree(c, f')); }
  }

  /** Brings the leaf into focus. */
  lemma {:induction false} LeafGoneFocus<T>(t: Tree<T>, v: T, t': Tree<T>) returns (c: Ctx<T>)
    requires LeafGone(t, v, t')
    ensures Plug(c, Node(Leaf, v, Black, Leaf)) == t && Plug(c, Leaf) == t'
  {
    if t == Node(Leaf, v, Black, Leaf) && t' == Leaf {
      c := Top;
    } else if t.right == t'.right && LeafGone(t.left, v, t'.left) {
      var k := LeafGoneFocus(t.left, v, t'.left);
      var o := InLeft(Top, t.id, t.color, t.right);
      PlugCompose(k, o, Node(Leaf, v, Black, Leaf));
      PlugCompose(k, o, Leaf);
      c := Compose(k, o);
    } else {
      var k := LeafGoneFocus(t.right, v, t'.right);
      var o := InRight(Top, t.left, t.id, t.color);
      PlugCompose(k, o, Node(Leaf, v, Black, Leaf));
      PlugCompose(k, o, Leaf);
      c := Compose(k, o);
    }
  }

  /** Where the last rotation leaves the focus, on either side. */
  function SettledCtx<T>(c: Ctx<T>): Ctx<T>
    requires !c.Top? && Sibling(c).Node?
  {
    var s := Sibling(c);
    if c.InLeft? then InLeft(InLeft(c.up, s.id, c.color, Paint(s.right, Black)), c.id, Black, s.left)
    else InRight(InRight(c.up, Paint(s.left, Black), s.id, c.color), s.right, c.id, Black)
  }

  lemma SettledCtxIs<T>(c: Ctx<T>, f: Tree<T>)
    requires !c.Top? && Sibling(c).Node?
    ensures UpTree(SettledCtx(c).up, UpTree(SettledCtx(c), f)) ==
            if c.InLeft? then RotateLeft(Case4Left(c, f)) else RotateRight(Case4Right(c, f))
  {
  }

  lemma SettledOk<T>(c: Ctx<T>, f: Tree<T>)
    requires DeleteOk(c, f) && !IsRed(f) && !c.Top? && Sibling(c).Node? && !IsRed(Sibling(c))
    requires if c.InLeft? then IsRed(Sibling(c).right) else IsRed(Sibling(c).left)
    ensures RedBlack(Plug(SettledCtx(c), f)) && Inorder(Plug(SettledCtx(c), f)) == Inorder(Plug(c, f))
  {
    SettledCtxIs(c, f);
    if c.InLeft? { Case4LeftOk(c, f); } else { Case4RightOk(c, f); }
    assert Paint(Plug(SettledCtx(c), f), Black) == Plug(SettledCtx(c), f);
  }

  /** A red parent, or a parent at the root, absorbs the debt of case 2. */
  function AbsorbedCtx<T>(c: Ctx<T>): Ctx<T>
    requires !c.Top?
  {
    if c.InLeft? then InLeft(c.up, c.id, Black, Paint(c.right, Red)) else InRight(c.up, Paint(c.left, Red), c.id, Black)
  }

  lemma AbsorbedOk<T>(c: Ctx<T>, f: Tree<T>)
    requires DeleteOk(c, f) && !IsRed(f) && !c.Top? && (c.color == Red || c.up.Top?)
    requires Sibling(c).Node? && !IsRed(Sibling(c)) && !IsRed(Sibling(c).left) && !IsRed(Sibling(c).right)
    ensures RedBlack(Plug(AbsorbedCtx(c), f)) && Inorder(Plug(AbsorbedCtx(c), f)) == Inorder(Plug(c, f))
  {
    Case2Ok(c, f);
    DeleteDone(c.up, Case2Tree(c, f));
    assert Paint(Case2Tree(c, f), Black) == UpTree(AbsorbedCtx(c), f);
  }
}
