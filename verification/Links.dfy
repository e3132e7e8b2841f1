/**
 Trees made of links.

 A `Store` maps each node to its `Cell`: two child links, a parent link and a colour.
 It is a snapshot of the node objects of the rbtree lab, or of the words at the start of
 the free blocks in the malloc lab.  `Rep` says that the links spell out a given zipper,
 parent links included.

 Each lemma below takes one pointer surgery of the C code.  It looks only at the cells
 after the surgery, so it holds for any order of the assignments, and says which zipper
 the links spell out from then on.
 */
module Links {
  import opened Trees

  datatype Cell<T> = Cell(left: T, right: T, parent: T, color: Color)

  type Store<T> = map<T, Cell<T>>

  function RootId<T>(t: Tree<T>, nil: T): T { if t.Leaf? then nil else t.id }

  function CtxId<T>(c: Ctx<T>, nil: T): T { if c.Top? then nil else c.id }

  ghost predicate CellIs<T>(s: Store<T>, n: T, cell: Cell<T>) {
    n in s && s[n] == cell
  }

  ghost predicate RepTree<T>(s: Store<T>, nil: T, t: Tree<T>, parent: T) {
    match t
    case Leaf => true
    case Node(l, n, c, r) =>
      n != nil && CellIs(s, n, Cell(RootId(l, nil), RootId(r, nil), parent, c)) &&
      RepTree(s, nil, l, n) && RepTree(s, nil, r, n)
  }

  ghost predicate RepCtx<T>(s: Store<T>, nil: T, c: Ctx<T>, child: T, root: T)
    decreases c
  {
    match c
    case Top => root == child
    case InLeft(up, n, col, r) =>
      n != nil && CellIs(s, n, Cell(child, RootId(r, nil), CtxId(up, nil), col)) &&
      RepTree(s, nil, r, n) && RepCtx(s, nil, up, n, root)
    case InRight(up, l, n, col) =>
      n != nil && CellIs(s, n, Cell(RootId(l, nil), child, CtxId(up, nil), col)) &&
      RepTree(s, nil, l, n) && RepCtx(s, nil, up, n, root)
  }

  /** The links of `s`, entered at `root`, are exactly the zipper (c, t). */
  ghost predicate Rep<T>(s: Store<T>, nil: T, root: T, c: Ctx<T>, t: Tree<T>) {
    RepTree(s, nil, t, CtxId(c, nil)) && RepCtx(s, nil, c, RootId(t, nil), root) && ZipDistinct(c, t)
  }

  lemma RepUp<T>(s: Store<T>, nil: T, root: T, c: Ctx<T>, t: Tree<T>)
    requires !c.Top?
    ensures Rep(s, nil, root, c, t) <==> Rep(s, nil, root, c.up, UpTree(c, t))
  {
  }

  /** Moving the focus does not change what the links spell out. */
  lemma {:induction false} ZipRep<T>(s: Store<T>, nil: T, root: T, c: Ctx<T>, t: Tree<T>)
    ensures Rep(s, nil, root, c, t) <==> Rep(s, nil, root, Top, Plug(c, t))
    decreases c
  {
    match c
    case Top =>
    case InLeft(up, n, col, r) => ZipRep(s, nil, root, up, Node(t, n, col, r));
    case InRight(up, l, n, col) => ZipRep(s, nil, root, up, Node(l, n, col, t));
  }

  lemma ZipCompose<T>(s: Store<T>, nil: T, root: T, inner: Ctx<T>, outer: Ctx<T>, t: Tree<T>)
    ensures Rep(s, nil, root, Compose(inner, outer), t) <==> Rep(s, nil, root, outer, Plug(inner, t))
    ensures CtxIds(Compose(inner, outer)) + Ids(t) == CtxIds(outer) + Ids(Plug(inner, t))
  {
    ZipRep(s, nil, root, Compose(inner, outer), t);
    ZipRep(s, nil, root, outer, Plug(inner, t));
    PlugCompose(inner, outer, t);
    PlugIds(Compose(inner, outer), t);
    PlugIds(outer, Plug(inner, t));
  }

  // --------------------------------------------------------------- frames

  /** The stores differ at most in the cells of `ks`. */
  ghost predicate SameOutside<T>(s: Store<T>, s': Store<T>, ks: set<T>) {
    s - ks == s' - ks
  }

  lemma FrameCell<T>(s: Store<T>, s': Store<T>, ks: set<T>, n: T)
    requires SameOutside(s, s', ks) && n !in ks && n in s
    ensures n in s' && s'[n] == s[n]
  {
    assert n in s - ks;
    assert (s' - ks)[n] == s[n];
  }

  lemma SameOutsideTrans<T>(s: Store<T>, s1: Store<T>, s2: Store<T>, ks: set<T>, ls: set<T>)
    requires SameOutside(s, s1, ks) && SameOutside(s1, s2, ls)
    ensures SameOutside(s, s2, ks + ls)
  {
    assert s - (ks + ls) == (s - ks) - ls;
    assert (s1 - ks) - ls == (s1 - ls) - ks;
    assert (s2 - ls) - ks == s2 - (ks + ls);
  }

  lemma {:induction false} FrameTree<T>(s: Store<T>, s': Store<T>, ks: set<T>, nil: T, t: Tree<T>, parent: T)
    requires RepTree(s, nil, t, parent) && ks !! Ids(t) && SameOutside(s, s', ks)
    ensures RepTree(s', nil, t, parent)
  {
    match t
    case Leaf =>
    case Node(l, n, c, r) =>
      FrameTree(s, s', ks, nil, l, n); FrameTree(s, s', ks, nil, r, n);
      FrameCell(s, s', ks, n);
  }

  lemma {:induction false} FrameCtx<T>(s: Store<T>, s': Store<T>, ks: set<T>, nil: T, c: Ctx<T>, child: T, root: T)
    requires RepCtx(s, nil, c, child, root) && ks !! CtxIds(c) && SameOutside(s, s', ks)
    ensures RepCtx(s', nil, c, child, root)
    decreases c
  {
    match c
    case Top =>
    case InLeft(up, n, col, r) =>
      FrameTree(s, s', ks, nil, r, n); FrameCtx(s, s', ks, nil, up, n, root); FrameCell(s, s', ks, n);
    case InRight(up, l, n, col) =>
      FrameTree(s, s', ks, nil, l, n); FrameCtx(s, s', ks, nil, up, n, root); FrameCell(s, s', ks, n);
  }

  lemma {:induction false} RepIds<T>(s: Store<T>, nil: T, t: Tree<T>, parent: T)
    requires RepTree(s, nil, t, parent)
    ensures Ids(t) <= s.Keys && nil !in Ids(t)
  {
    match t
    case Leaf =>
    case Node(l, n, c, r) => RepIds(s, nil, l, n); RepIds(s, nil, r, n);
  }

  /** The root of a zipper is above the hole, or is the focus. */
  lemma {:induction false} RootInCtx<T>(s: Store<T>, nil: T, root: T, c: Ctx<T>, child: T)
    requires RepCtx(s, nil, c, child, root)
    ensures if c.Top? then root == child else root in CtxIds(c) && root != nil
    decreases c
  {
    match c
    case Top =>
    case InLeft(up, n, col, r) => RootInCtx(s, nil, root, up, n);
    case InRight(up, l, n, col) => RootInCtx(s, nil, root, up, n);
  }

  // ------------------------------------------------- elementary surgeries

  ghost function TopIds<T>(t: Tree<T>): set<T> { if t.Leaf? then {} else {t.id} }

  ghost function HoleIds<T>(c: Ctx<T>): set<T> { if c.Top? then {} else {c.id} }

  /** In `s'`, the hole of `c` holds `v`. */
  ghost predicate Rehung<T>(s: Store<T>, s': Store<T>, c: Ctx<T>, v: T)
    requires !c.Top? ==> c.id in s
  {
    match c
    case Top => true
    case InLeft(_, n, _, _) => CellIs(s', n, s[n].(left := v))
    case InRight(_, _, n, _) => CellIs(s', n, s[n].(right := v))
  }

  function NewRoot<T>(c: Ctx<T>, v: T, root: T): T { if c.Top? then v else root }

  /** In `s'`, the root of `t` has parent `p`. */
  ghost predicate Reparented<T>(s: Store<T>, s': Store<T>, t: Tree<T>, p: T)
    requires t.Node? ==> t.id in s
  {
    t.Node? ==> CellIs(s', t.id, s[t.id].(parent := p))
  }

  lemma RehangCtx<T>(s: Store<T>, s': Store<T>, ks: set<T>, nil: T, c: Ctx<T>, child: T, root: T, v: T)
    requires RepCtx(s, nil, c, child, root) && CtxDistinct(c)
    requires SameOutside(s, s', ks) && ks !! CtxIds(c) - HoleIds(c) && Rehung(s, s', c, v)
    ensures RepCtx(s', nil, c, v, NewRoot(c, v, root))
  {
    match c
    case Top =>
    case InLeft(up, n, col, r) =>
      FrameTree(s, s', ks, nil, r, n);
      FrameCtx(s, s', ks, nil, up, n, root);
    case InRight(up, l, n, col) =>
      FrameTree(s, s', ks, nil, l, n);
      FrameCtx(s, s', ks, nil, up, n, root);
  }

  lemma ReparentTree<T>(s: Store<T>, s': Store<T>, ks: set<T>, nil: T, t: Tree<T>, parent: T, p: T)
    requires RepTree(s, nil, t, parent) && Distinct(t)
    requires SameOutside(s, s', ks) && ks !! Ids(t) - TopIds(t) && Reparented(s, s', t, p)
    ensures RepTree(s', nil, t, p)
  {
    match t
    case Leaf =>
    case Node(l, n, c, r) =>
      FrameTree(s, s', ks, nil, l, n);
      FrameTree(s, s', ks, nil, r, n);
  }

  // ------------------------------------------------------------ rotations

  /** The cells after a left rotation of the focus. */
  ghost predicate RotatedLeft<T>(s: Store<T>, s': Store<T>, nil: T, c: Ctx<T>, f: Tree<T>)
    requires f.Node? && f.right.Node?
    requires !c.Top? ==> c.id in s
    requires f.right.left.Node? ==> f.right.left.id in s
  {
    var Node(a, x, cx, Node(b, y, cy, d)) := f;
    SameOutside(s, s', {x, y} + HoleIds(c) + TopIds(b)) &&
    Rehung(s, s', c, y) && Reparented(s, s', b, x) &&
    CellIs(s', x, Cell(RootId(a, nil), RootId(b, nil), y, cx)) &&
    CellIs(s', y, Cell(x, RootId(d, nil), CtxId(c, nil), cy))
  }

  /** The cells a left rotation reads and writes are all different. */
  lemma LeftView<T>(s: Store<T>, nil: T, root: T, c: Ctx<T>, f: Tree<T>)
    requires Rep(s, nil, root, c, f) && f.Node?
    ensures f.right.Node? ==>
              var Node(b, y, cy, d) := f.right;
              y != nil && y != f.id && y !in CtxIds(c) &&
              CellIs(s, y, Cell(RootId(b, nil), RootId(d, nil), f.id, cy)) &&
              (b.Node? ==> b.id in s && b.id != nil && b.id != f.id && b.id != y && b.id !in CtxIds(c))
  {
    if f.right.Node? {
      assert RepTree(s, nil, f.right, f.id) && RepTree(s, nil, f.right.left, f.right.id);
      assert f.right.id in Ids(f.right);
      if f.right.left.Node? {
        assert f.right.left.id in Ids(f.right.left) && f.right.left.id in Ids(f.right);
      }
    }
  }

  lemma RotateLeftRep<T>(s: Store<T>, s': Store<T>, nil: T, root: T, c: Ctx<T>, f: Tree<T>)
    requires Rep(s, nil, root, c, f) && f.Node? && f.right.Node?
    requires !c.Top? ==> c.id in s
    requires f.right.left.Node? ==> f.right.left.id in s
    requires RotatedLeft(s, s', nil, c, f)
    ensures Rep(s', nil, NewRoot(c, f.right.id, root), c, RotateLeft(f))
  {
    var Node(a, x, cx, r) := f;
    var Node(b, y, cy, d) := r;
    var ks := {x, y} + HoleIds(c) + TopIds(b);
    assert RepTree(s, nil, r, x) && Distinct(r) && Ids(r) == Ids(b) + {y} + Ids(d);
    RehangCtx(s, s', ks, nil, c, x, root, y);
    FrameTree(s, s', ks, nil, a, x);
    ReparentTree(s, s', ks, nil, b, y, x);
    FrameTree(s, s', ks, nil, d, y);
    var l := Node(a, x, cx, b);
    assert RepTree(s', nil, l, y);
    assert RotateLeft(f) == Node(l, y, cy, d);
    RotateDistinct(f);
    RotateLeftKeeps(f);
  }

  /** The cells after a right rotation of the focus. */
  ghost predicate RotatedRight<T>(s: Store<T>, s': Store<T>, nil: T, c: Ctx<T>, f: Tree<T>)
    requires f.Node? && f.left.Node?
    requires !c.Top? ==> c.id in s
    requires f.left.right.Node? ==> f.left.right.id in s
  {
    var Node(Node(a, x, cx, b), y, cy, d) := f;
    SameOutside(s, s', {x, y} + HoleIds(c) + TopIds(b)) &&
    Rehung(s, s', c, x) && Reparented(s, s', b, y) &&
    CellIs(s', y, Cell(RootId(b, nil), RootId(d, nil), x, cy)) &&
    CellIs(s', x, Cell(RootId(a, nil), y, CtxId(c, nil), cx))
  }

  lemma RightView<T>(s: Store<T>, nil: T, root: T, c: Ctx<T>, f: Tree<T>)
    requires Rep(s, nil, root, c, f) && f.Node?
    ensures f.left.Node? ==>
              var Node(a, x, cx, b) := f.left;
              x != nil && x != f.id && x !in CtxIds(c) &&
              CellIs(s, x, Cell(RootId(a, nil), RootId(b, nil), f.id, cx)) &&
              (b.Node? ==> b.id in s && b.id != nil && b.id != f.id && b.id != x && b.id !in CtxIds(c))
  {
    if f.left.Node? {
      assert RepTree(s, nil, f.left, f.id) && RepTree(s, nil, f.left.right, f.left.id);
      assert f.left.id in Ids(f.left);
      if f.left.right.Node? {
        assert f.left.right.id in Ids(f.left.right) && f.left.right.id in Ids(f.left);
      }
    }
  }

  lemma RotateRightRep<T>(s: Store<T>, s': Store<T>, nil: T, root: T, c: Ctx<T>, f: Tree<T>)
    requires Rep(s, nil, root, c, f) && f.Node? && f.left.Node?
    requires !c.Top? ==> c.id in s
    requires f.left.right.Node? ==> f.left.right.id in s
    requires RotatedRight(s, s', nil, c, f)
    ensures Rep(s', nil, NewRoot(c, f.left.id, root), c, RotateRight(f))
  {
    var Node(l, y, cy, d) := f;
    var Node(a, x, cx, b) := l;
    var ks := {x, y} + HoleIds(c) + TopIds(b);
    assert RepTree(s, nil, l, y) && Distinct(l) && Ids(l) == Ids(a) + {x} + Ids(b);
    RehangCtx(s, s', ks, nil, c, y, root, x);
    FrameTree(s, s', ks, nil, a, x);
    ReparentTree(s, s', ks, nil, b, x, y);
    FrameTree(s, s', ks, nil, d, y);
    var r := Node(b, y, cy, d);
    assert RepTree(s', nil, r, x);
    assert RotateRight(f) == Node(a, x, cx, r);
    RotateRightKeeps(f);
    RotateDistinct(RotateRight(f));
  }

  // ------------------------------------------------------ other surgeries

  lemma RecolorRep<T>(s: Store<T>, s': Store<T>, nil: T, root: T, c: Ctx<T>, f: Tree<T>, col: Color)
    requires Rep(s, nil, root, c, f) && f.Node?
    requires SameOutside(s, s', {f.id}) && CellIs(s', f.id, s[f.id].(color := col))
    ensures Rep(s', nil, root, c, f.(color := col))
  {
    FrameTree(s, s', {f.id}, nil, f.left, f.id);
    FrameTree(s, s', {f.id}, nil, f.right, f.id);
    FrameCtx(s, s', {f.id}, nil, c, f.id, root);
  }

  /** Hanging a new red node into an empty hole. */
  lemma HangRep<T>(s: Store<T>, s': Store<T>, nil: T, root: T, c: Ctx<T>, z: T)
    requires Rep(s, nil, root, c, Leaf) && z !in CtxIds(c) && z != nil
    requires !c.Top? ==> c.id in s
    requires SameOutside(s, s', {z} + HoleIds(c)) && Rehung(s, s', c, z)
    requires CellIs(s', z, Cell(nil, nil, CtxId(c, nil), Red))
    ensures Rep(s', nil, NewRoot(c, z, root), c, Node(Leaf, z, Red, Leaf))
  {
    RehangCtx(s, s', {z} + HoleIds(c), nil, c, nil, root, z);
  }

  /** Replacing the focus by one of its own subtrees `v`. */
  lemma TransplantRep<T>(s: Store<T>, s': Store<T>, nil: T, root: T, c: Ctx<T>, f: Tree<T>, v: Tree<T>)
    requires Rep(s, nil, root, c, f) && f.Node? && (v == f.left || v == f.right)
    requires (!c.Top? ==> c.id in s) && (v.Node? ==> v.id in s)
    requires SameOutside(s, s', TopIds(v) + HoleIds(c))
    requires Rehung(s, s', c, RootId(v, nil)) && Reparented(s, s', v, CtxId(c, nil))
    ensures Rep(s', nil, NewRoot(c, RootId(v, nil), root), c, v)
  {
    var ks := TopIds(v) + HoleIds(c);
    RehangCtx(s, s', ks, nil, c, f.id, root, RootId(v, nil));
    ReparentTree(s, s', ks, nil, v, f.id, CtxId(c, nil));
  }

  /** Node `y` takes the place, children and colour of the focus. */
  lemma ReplaceRep<T>(s: Store<T>, s': Store<T>, nil: T, root: T, c: Ctx<T>, f: Tree<T>, y: T)
    requires Rep(s, nil, root, c, f) && f.Node? && y != nil && y !in CtxIds(c) && y !in Ids(f)
    requires (!c.Top? ==> c.id in s) && (f.left.Node? ==> f.left.id in s) && (f.right.Node? ==> f.right.id in s)
    requires SameOutside(s, s', {y, f.id} + HoleIds(c) + TopIds(f.left) + TopIds(f.right))
    requires Rehung(s, s', c, y) && Reparented(s, s', f.left, y) && Reparented(s, s', f.right, y)
    requires CellIs(s', y, Cell(RootId(f.left, nil), RootId(f.right, nil), CtxId(c, nil), f.color))
    ensures Rep(s', nil, NewRoot(c, y, root), c, f.(id := y))
  {
    var Node(l, p, col, r) := f;
    var ks := {y, p} + HoleIds(c) + TopIds(l) + TopIds(r);
    RehangCtx(s, s', ks, nil, c, p, root, y);
    ReparentTree(s, s', ks, nil, l, p, y);
    ReparentTree(s, s', ks, nil, r, p, y);
  }

  /** A node outside the zipper can be forgotten. */
  lemma ForgetRep<T>(s: Store<T>, s': Store<T>, nil: T, root: T, c: Ctx<T>, f: Tree<T>, p: T)
    requires Rep(s, nil, root, c, f) && p !in CtxIds(c) && p !in Ids(f)
    requires SameOutside(s, s', {p})
    ensures Rep(s', nil, root, c, f)
  {
    FrameTree(s, s', {p}, nil, f, CtxId(c, nil));
    FrameCtx(s, s', {p}, nil, c, RootId(f, nil), root);
  }

  // ---------------------------------------------------- removing an inner node

  /** The focus `f` without its in-order successor: the node `g` at hole `k` of its right subtree. */
  function WithoutSuccessor<T>(f: Tree<T>, k: Ctx<T>, g: Tree<T>): Tree<T>
    requires f.Node? && g.Node?
  {
    f.(right := Plug(k, g.right))
  }

  /** The successor has been unlinked from its old place and its right child hangs there instead. */
  ghost predicate Unlinked<T>(s: Store<T>, s': Store<T>, nil: T, c: Ctx<T>, f: Tree<T>, k: Ctx<T>, g: Tree<T>)
    requires f.Node? && g.Node? && SuccessorCtx(c, f, f.id, k).id in s && (g.right.Node? ==> g.right.id in s)
  {
    var kc := SuccessorCtx(c, f, f.id, k);
    SameOutside(s, s', TopIds(g.right) + HoleIds(kc)) &&
    Rehung(s, s', kc, RootId(g.right, nil)) && Reparented(s, s', g.right, CtxId(kc, nil))
  }

  lemma WithoutSuccessorIds<T>(c: Ctx<T>, f: Tree<T>, k: Ctx<T>, g: Tree<T>)
    requires ZipDistinct(c, f) && f.Node? && g.Node? && g.left.Leaf? && f.right == Plug(k, g)
    ensures Ids(f) == Ids(WithoutSuccessor(f, k, g)) + {g.id}
    ensures g.id !in CtxIds(c) && g.id !in Ids(WithoutSuccessor(f, k, g)) && g.id != f.id
  {
    PlugIds(k, g); PlugIds(k, g.right);
    assert Ids(g) == Ids(g.right) + {g.id};
    assert g.id in Ids(f.right);
  }

  lemma SuccessorIds<T>(c: Ctx<T>, f: Tree<T>, k: Ctx<T>, g: Tree<T>)
    requires ZipDistinct(c, f) && f.Node? && g.Node? && g.left.Leaf? && f.right == Plug(k, g)
    ensures var t := Node(f.left, g.id, f.color, Plug(k, g.right));
      f.id !in CtxIds(c) && f.id !in Ids(t) && Ids(f) == Ids(t) + {f.id}
  {
    WithoutSuccessorIds(c, f, k, g);
    PlugIds(k, g); PlugIds(k, g.right);
  }

  lemma WithoutRep<T>(s: Store<T>, nil: T, root: T, c: Ctx<T>, f: Tree<T>, k: Ctx<T>, g: Tree<T>)
    requires f.Node? && g.Node? && Rep(s, nil, root, SuccessorCtx(c, f, f.id, k), g.right)
    ensures Rep(s, nil, root, c, WithoutSuccessor(f, k, g))
  {
    var kp := InRight(c, f.left, f.id, f.color);
    ZipCompose(s, nil, root, k, kp, g.right);
    RepUp(s, nil, root, kp, Plug(k, g.right));
  }

  lemma UnlinkRep<T>(s: Store<T>, s': Store<T>, nil: T, root: T, c: Ctx<T>, f: Tree<T>, k: Ctx<T>, g: Tree<T>)
    requires Rep(s, nil, root, c, f) && f.Node? && g.Node? && g.left.Leaf? && f.right == Plug(k, g)
    requires SuccessorCtx(c, f, f.id, k).id in s && (g.right.Node? ==> g.right.id in s)
    requires Unlinked(s, s', nil, c, f, k, g)
    ensures Rep(s', nil, root, c, WithoutSuccessor(f, k, g))
  {
    var kp := InRight(c, f.left, f.id, f.color);
    RepUp(s, nil, root, kp, f.right);
    ZipCompose(s, nil, root, k, kp, g);
    TransplantRep(s, s', nil, root, Compose(k, kp), g, g.right);
    WithoutRep(s', nil, root, c, f, k, g);
  }

  // --------------------------------------------- one assignment after another

  ghost function PutLeft<T>(s: Store<T>, n: T, v: T): Store<T> requires n in s { s[n := s[n].(left := v)] }

  ghost function PutRight<T>(s: Store<T>, n: T, v: T): Store<T> requires n in s { s[n := s[n].(right := v)] }

  ghost function PutParent<T>(s: Store<T>, n: T, v: T): Store<T> requires n in s { s[n := s[n].(parent := v)] }

  ghost function PutColor<T>(s: Store<T>, n: T, v: Color): Store<T> requires n in s { s[n := s[n].(color := v)] }

  ghost function PutHole<T>(s: Store<T>, c: Ctx<T>, v: T): Store<T>
    requires !c.Top? ==> c.id in s
  {
    match c
    case Top => s
    case InLeft(_, n, _, _) => PutLeft(s, n, v)
    case InRight(_, _, n, _) => PutRight(s, n, v)
  }

  ghost function PutTop<T>(s: Store<T>, t: Tree<T>, p: T): Store<T>
    requires t.Node? ==> t.id in s
  {
    if t.Leaf? then s else PutParent(s, t.id, p)
  }

  /** Nodes around a rotation, all present and different. */
  ghost predicate Apart<T>(s: Store<T>, c: Ctx<T>, x: T, y: T, b: Tree<T>) {
    x in s && y in s && x != y && (!c.Top? ==> c.id in s && c.id != x && c.id != y) &&
    (b.Node? ==> b.id in s && b.id != x && b.id != y && (!c.Top? ==> b.id != c.id))
  }

  lemma LeftSteps<T>(s: Store<T>, nil: T, root: T, c: Ctx<T>, f: Tree<T>)
    requires Rep(s, nil, root, c, f) && f.Node? && f.right.Node?
    ensures Apart(s, c, f.id, f.right.id, f.right.left)
    ensures var x, y, b := f.id, f.right.id, f.right.left;
      RotatedLeft(s,
        PutParent(PutLeft(PutHole(PutParent(PutTop(PutRight(s, x, RootId(b, nil)), b, x), y, CtxId(c, nil)), c, y), y,
        x), x, y),
                  nil, c, f)
  {
    LeftView(s, nil, root, c, f);
  }

  lemma RightSteps<T>(s: Store<T>, nil: T, root: T, c: Ctx<T>, f: Tree<T>)
    requires Rep(s, nil, root, c, f) && f.Node? && f.left.Node?
    ensures Apart(s, c, f.id, f.left.id, f.left.right)
    ensures var y, x, b := f.id, f.left.id, f.left.right;
      RotatedRight(s,
        PutParent(PutRight(PutHole(PutParent(PutTop(PutLeft(s, y, RootId(b, nil)), b, y), x, CtxId(c, nil)), c, x), x,
        y), y, x),
                   nil, c, f)
  {
    RightView(s, nil, root, c, f);
  }
}
