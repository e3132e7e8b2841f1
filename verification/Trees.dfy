/**
 Red-black trees as values, seen through a zipper.

 The C code walks up from a node through parent pointers while the rest of the
 tree hangs off the path above it.  A zipper says the same thing as a value: a
 focus (a `Tree`) and everything above and beside it (a `Ctx`).  The facts here
 mention neither a heap nor keys, so the pointer trees of the rbtree lab and the
 tree threaded through the free blocks of the malloc lab share them.
 */
module Trees {

  datatype Color = Red | Black

  datatype Tree<T> = Leaf | Node(left: Tree<T>, id: T, color: Color, right: Tree<T>)

  /** A tree with a hole: `Top` is the hole at the root, `InLeft` a hole that is
      the left child of node `id`, `InRight` one that is its right child. */
  datatype Ctx<T> =
    | Top
    | InLeft(up: Ctx<T>, id: T, color: Color, right: Tree<T>)
    | InRight(up: Ctx<T>, left: Tree<T>, id: T, color: Color)

  /** Fills the hole of `c` with `t`. */
  function Plug<T>(c: Ctx<T>, t: Tree<T>): Tree<T>
    decreases c
  {
    match c
    case Top => t
    case InLeft(up, n, col, r) => Plug(up, Node(t, n, col, r))
    case InRight(up, l, n, col) => Plug(up, Node(l, n, col, t))
  }

  lemma {:induction false} PlugNode<T>(c: Ctx<T>, t: Tree<T>)
    ensures Plug(c, t).Leaf? <==> c.Top? && t.Leaf?
    decreases c
  {
    if !c.Top? { PlugNode(c.up, UpTree(c, t)); }
  }

  /** The subtree one level up: the focus under its parent. */
  function UpTree<T>(c: Ctx<T>, t: Tree<T>): Tree<T>
    requires !c.Top?
  {
    if c.InLeft? then Node(t, c.id, c.color, c.right) else Node(c.left, c.id, c.color, t)
  }

  function Sibling<T>(c: Ctx<T>): Tree<T>
    requires !c.Top?
  {
    if c.InLeft? then c.right else c.left
  }

  /** The context that brings the sibling into focus. */
  function SiblingCtx<T>(c: Ctx<T>, t: Tree<T>): Ctx<T>
    requires !c.Top?
  {
    if c.InLeft? then InRight(c.up, t, c.id, c.color) else InLeft(c.up, c.id, c.color, t)
  }

  /** Puts context `inner` into the hole of `outer`. */
  function Compose<T>(inner: Ctx<T>, outer: Ctx<T>): Ctx<T>
    decreases inner
  {
    match inner
    case Top => outer
    case InLeft(up, n, col, r) => InLeft(Compose(up, outer), n, col, r)
    case InRight(up, l, n, col) => InRight(Compose(up, outer), l, n, col)
  }

  lemma {:induction false} PlugCompose<T>(inner: Ctx<T>, outer: Ctx<T>, t: Tree<T>)
    ensures Plug(Compose(inner, outer), t) == Plug(outer, Plug(inner, t))
    decreases inner
  {
    match inner
    case Top =>
    case InLeft(up, n, col, r) => PlugCompose(up, outer, Node(t, n, col, r));
    case InRight(up, l, n, col) => PlugCompose(up, outer, Node(l, n, col, t));
  }

  /** Context `k` inside the right subtree of `f`, seen from the root, with `n` in the place of `f`. */
  function SuccessorCtx<T>(c: Ctx<T>, f: Tree<T>, n: T, k: Ctx<T>): Ctx<T>
    requires f.Node?
  {
    Compose(k, InRight(c, f.left, n, f.color))
  }

  lemma {:induction false} PlugTop<T>(c: Ctx<T>, t: Tree<T>, t': Tree<T>)
    requires !c.Top?
    ensures Plug(c, t).Node? && Plug(c, t').Node? && Plug(c, t).id == Plug(c, t').id
    decreases c
  {
    if !c.up.Top? { PlugTop(c.up, UpTree(c, t), UpTree(c, t')); }
  }

  // ---------------------------------------------------------------- nodes

  function Inorder<T>(t: Tree<T>): seq<T> {
    match t
    case Leaf => []
    case Node(l, n, _, r) => Inorder(l) + [n] + Inorder(r)
  }

  /** The nodes visited before, and after, the hole. */
  function Before<T>(c: Ctx<T>): seq<T> {
    match c
    case Top => []
    case InLeft(up, _, _, _) => Before(up)
    case InRight(up, l, n, _) => Before(up) + Inorder(l) + [n]
  }

  function After<T>(c: Ctx<T>): seq<T> {
    match c
    case Top => []
    case InLeft(up, n, _, r) => [n] + Inorder(r) + After(up)
    case InRight(up, _, _, _) => After(up)
  }

  lemma SplitRight<T>(a: seq<T>, t: seq<T>, n: T, r: seq<T>, b: seq<T>)
    ensures a + (t + [n] + r) + b == a + t + ([n] + r + b)
  {
  }

  lemma SplitLeft<T>(a: seq<T>, l: seq<T>, n: T, t: seq<T>, b: seq<T>)
    ensures a + (l + [n] + t) + b == (a + l + [n]) + t + b
  {
  }

  lemma {:induction false} PlugInorder<T>(c: Ctx<T>, t: Tree<T>)
    ensures Inorder(Plug(c, t)) == Before(c) + Inorder(t) + After(c)
    decreases c
  {
    match c
    case Top =>
    case InLeft(up, n, col, r) =>
      PlugInorder(up, Node(t, n, col, r));
      SplitRight(Before(up), Inorder(t), n, Inorder(r), After(up));
    case InRight(up, l, n, col) =>
      PlugInorder(up, Node(l, n, col, t));
      SplitLeft(Before(up), Inorder(l), n, Inorder(t), After(up));
  }

  ghost function Ids<T>(t: Tree<T>): set<T> {
    match t
    case Leaf => {}
    case Node(l, n, _, r) => Ids(l) + {n} + Ids(r)
  }

  ghost function CtxIds<T>(c: Ctx<T>): set<T> {
    match c
    case Top => {}
    case InLeft(up, n, _, r) => CtxIds(up) + {n} + Ids(r)
    case InRight(up, l, n, _) => CtxIds(up) + {n} + Ids(l)
  }

  lemma {:induction false} InorderIds<T>(t: Tree<T>, x: T)
    ensures x in Inorder(t) <==> x in Ids(t)
  {
    match t
    case Leaf =>
    case Node(l, n, _, r) => InorderIds(l, x); InorderIds(r, x);
  }

  /** No node occurs twice. */
  ghost predicate Distinct<T>(t: Tree<T>) {
    match t
    case Leaf => true
    case Node(l, n, _, r) => Distinct(l) && Distinct(r) && n !in Ids(l) && n !in Ids(r) && Ids(l) !! Ids(r)
  }

  ghost predicate CtxDistinct<T>(c: Ctx<T>) {
    match c
    case Top => true
    case InLeft(up, n, _, r) =>
      CtxDistinct(up) && Distinct(r) && n !in Ids(r) && n !in CtxIds(up) && Ids(r) !! CtxIds(up)
    case InRight(up, l, n, _) =>
      CtxDistinct(up) && Distinct(l) && n !in Ids(l) && n !in CtxIds(up) && Ids(l) !! CtxIds(up)
  }

  ghost predicate ZipDistinct<T>(c: Ctx<T>, t: Tree<T>) {
    CtxDistinct(c) && Distinct(t) && Ids(t) !! CtxIds(c)
  }

  lemma {:induction false} PlugIds<T>(c: Ctx<T>, t: Tree<T>)
    ensures Ids(Plug(c, t)) == CtxIds(c) + Ids(t)
    ensures Distinct(Plug(c, t)) <==> ZipDistinct(c, t)
    decreases c
  {
    match c
    case Top =>
    case InLeft(up, n, col, r) => PlugIds(up, Node(t, n, col, r));
    case InRight(up, l, n, col) => PlugIds(up, Node(l, n, col, t));
  }

  lemma {:induction false} TopInCtx<T>(c: Ctx<T>, t: Tree<T>)
    requires !c.Top?
    ensures Plug(c, t).Node? && Plug(c, t).id in CtxIds(c)
    decreases c
  {
    if !c.up.Top? { TopInCtx(c.up, UpTree(c, t)); }
  }

  ghost predicate NoDup<T>(s: seq<T>) {
    forall i, j :: 0 <= i < j < |s| ==> s[i] != s[j]
  }

  lemma JoinNoDup<T>(a: seq<T>, n: T, b: seq<T>)
    requires NoDup(a) && NoDup(b) && n !in a && n !in b
    requires forall x :: x in a ==> x !in b
    ensures NoDup(a + [n] + b)
  {
    var s := a + [n] + b;
    forall i, j | 0 <= i < j < |s| ensures s[i] != s[j] {
      assert i < |a| ==> s[i] == a[i] && s[i] in a;
      assert j < |a| ==> s[j] == a[j];
      assert i > |a| ==> s[i] == b[i - |a| - 1];
      assert j > |a| ==> s[j] == b[j - |a| - 1] && s[j] in b;
    }
  }

  lemma {:induction false} DistinctInorder<T>(t: Tree<T>)
    requires Distinct(t)
    ensures NoDup(Inorder(t))
  {
    match t
    case Leaf =>
    case Node(l, n, _, r) =>
      DistinctInorder(l); DistinctInorder(r);
      InorderIds(l, n); InorderIds(r, n);
      forall x | x in Inorder(l) ensures x !in Inorder(r) {
        InorderIds(l, x);
        InorderIds(r, x);
      }
      JoinNoDup(Inorder(l), n, Inorder(r));
  }

  /** Any node of a tree can be brought into focus. */
  lemma {:induction false} Locate<T>(t: Tree<T>, p: T) returns (c: Ctx<T>, f: Tree<T>)
    requires p in Ids(t)
    ensures Plug(c, f) == t && f.Node? && f.id == p
  {
    var Node(l, n, col, r) := t;
    if p == n {
      c, f := Top, t;
    } else if p in Ids(l) {
      c, f := Locate(l, p);
      PlugCompose(c, InLeft(Top, n, col, r), f);
      c := Compose(c, InLeft(Top, n, col, r));
    } else {
      c, f := Locate(r, p);
      PlugCompose(c, InRight(Top, l, n, col), f);
      c := Compose(c, InRight(Top, l, n, col));
    }
  }

  // ------------------------------------------------------ red-black rules

  predicate IsRed<T>(t: Tree<T>) { t.Node? && t.color == Red }

  predicate RedTop<T>(c: Ctx<T>) { !c.Top? && c.color == Red }

  /** Black nodes on the leftmost path, which in a red-black tree is the number
      on every path. */
  function BlackHeight<T>(t: Tree<T>): nat {
    match t
    case Leaf => 0
    case Node(l, _, c, _) => BlackHeight(l) + Weight(c)
  }

  function Weight(c: Color): nat { if c == Black then 1 else 0 }

  /** Equal black heights and no red node with a red child.  The root may be red. */
  predicate RB<T>(t: Tree<T>) {
    match t
    case Leaf => true
    case Node(l, _, c, r) =>
      RB(l) && RB(r) && BlackHeight(l) == BlackHeight(r) && (c == Red ==> !IsRed(l) && !IsRed(r))
  }

  predicate RedBlack<T>(t: Tree<T>) { RB(t) && !IsRed(t) }

  /** A subtree of black height `h` keeps all black heights of the context equal,
      and the context itself has no red-red edge. */
  predicate Fits<T>(c: Ctx<T>, h: nat)
    decreases c
  {
    match c
    case Top => true
    case InLeft(up, _, col, sib) =>
      RB(sib) && BlackHeight(sib) == h && (col == Red ==> !IsRed(sib) && !RedTop(up)) && Fits(up, h + Weight(col))
    case InRight(up, sib, _, col) =>
      RB(sib) && BlackHeight(sib) == h && (col == Red ==> !IsRed(sib) && !RedTop(up)) && Fits(up, h + Weight(col))
  }

  /** The red-black rules of the whole tree, split at the hole. */
  lemma {:induction false} PlugRB<T>(c: Ctx<T>, t: Tree<T>)
    ensures RB(Plug(c, t)) <==> RB(t) && Fits(c, BlackHeight(t)) && !(IsRed(t) && RedTop(c))
    decreases c
  {
    match c
    case Top =>
    case InLeft(up, n, col, r) =>
      var t' := Node(t, n, col, r);
      PlugRB(up, t');
      assert BlackHeight(t') == BlackHeight(t) + Weight(col);
      assert RB(t') <==> RB(t) && RB(r) && BlackHeight(r) == BlackHeight(t) && (col == Red ==> !IsRed(t) && !IsRed(r));
    case InRight(up, l, n, col) =>
      var t' := Node(l, n, col, t);
      PlugRB(up, t');
      assert BlackHeight(t') == BlackHeight(l) + Weight(col);
      assert RB(t') <==> RB(t) && RB(l) && BlackHeight(l) == BlackHeight(t) && (col == Red ==> !IsRed(t) && !IsRed(l));
  }

  /** The node next to the root of the plugged tree is black. */
  predicate BlackRoot<T>(c: Ctx<T>) {
    match c
    case Top => true
    case InLeft(up, _, col, _) => if up.Top? then col == Black else BlackRoot(up)
    case InRight(up, _, _, col) => if up.Top? then col == Black else BlackRoot(up)
  }

  lemma {:induction false} PlugBlackRoot<T>(c: Ctx<T>, t: Tree<T>)
    ensures !IsRed(Plug(c, t)) <==> if c.Top? then !IsRed(t) else BlackRoot(c)
    decreases c
  {
    match c
    case Top =>
    case InLeft(up, n, col, r) => PlugBlackRoot(up, Node(t, n, col, r));
    case InRight(up, l, n, col) => PlugBlackRoot(up, Node(l, n, col, t));
  }

  function Paint<T>(t: Tree<T>, c: Color): Tree<T> {
    if t.Leaf? then t else t.(color := c)
  }

  function RotateLeft<T>(t: Tree<T>): Tree<T>
    requires t.Node? && t.right.Node?
  {
    var Node(a, x, cx, Node(b, y, cy, c)) := t;
    Node(Node(a, x, cx, b), y, cy, c)
  }

  function RotateRight<T>(t: Tree<T>): Tree<T>
    requires t.Node? && t.left.Node?
  {
    var Node(Node(a, x, cx, b), y, cy, c) := t;
    Node(a, x, cx, Node(b, y, cy, c))
  }

  lemma JoinAssoc<T>(a: seq<T>, x: T, b: seq<T>, y: T, c: seq<T>)
    ensures (a + [x] + b) + [y] + c == a + [x] + (b + [y] + c)
  {
  }

  /** A rotation changes the shape only: the visiting order and the set of nodes stay,
      and the opposite rotation undoes it. */
  lemma RotateLeftKeeps<T>(t: Tree<T>)
    requires t.Node? && t.right.Node?
    ensures Inorder(RotateLeft(t)) == Inorder(t)
    ensures Ids(RotateLeft(t)) == Ids(t)
    ensures RotateRight(RotateLeft(t)) == t
  {
    var Node(a, x, cx, Node(b, y, cy, c)) := t;
    JoinAssoc(Inorder(a), x, Inorder(b), y, Inorder(c));
    var t' := RotateLeft(t);
    assert t' == Node(t'.left, y, cy, c) && t'.left == Node(a, x, cx, b);
  }

  lemma RotateRightKeeps<T>(t: Tree<T>)
    requires t.Node? && t.left.Node?
    ensures Inorder(RotateRight(t)) == Inorder(t)
    ensures Ids(RotateRight(t)) == Ids(t)
    ensures RotateLeft(RotateRight(t)) == t
  {
    var t' := RotateRight(t);
    assert RotateLeft(t') == t;
    RotateLeftKeeps(t');
  }

  lemma RotateDistinct<T>(t: Tree<T>)
    requires t.Node? && t.right.Node?
    ensures Distinct(t) <==> Distinct(RotateLeft(t))
  {
    var Node(a, x, cx, r) := t;
    var Node(b, y, cy, c) := r;
    var l := Node(a, x, cx, b);
    assert RotateLeft(t) == Node(l, y, cy, c);
    assert Ids(r) == Ids(b) + {y} + Ids(c);
    assert Ids(l) == Ids(a) + {x} + Ids(b);
  }

  // --------------------------------------------------------------- height

  function Height<T>(t: Tree<T>): nat {
    match t
    case Leaf => 0
    case Node(l, _, _, r) => 1 + if Height(l) < Height(r) then Height(r) else Height(l)
  }

  function Depth<T>(c: Ctx<T>): nat { if c.Top? then 0 else 1 + Depth(c.up) }

  function Pow2(n: nat): nat { if n == 0 then 1 else 2 * Pow2(n - 1) }

  lemma {:induction false} Pow2Monotone(a: nat, b: nat)
    requires a <= b
    ensures Pow2(a) <= Pow2(b)
    decreases b
  {
    if a < b { Pow2Monotone(a, b - 1); }
  }

  lemma {:induction false} BlackHeightSize<T>(t: Tree<T>)
    requires RB(t)
    ensures Pow2(BlackHeight(t)) <= |Inorder(t)| + 1
    ensures Height(t) <= 2 * BlackHeight(t) + (if IsRed(t) then 1 else 0)
  {
    match t
    case Leaf =>
    case Node(l, _, _, r) => BlackHeightSize(l); BlackHeightSize(r);
  }

  /** The height is at most 2*log2(n + 1), in a form without logarithms. */
  lemma HeightBound<T>(t: Tree<T>)
    requires RedBlack(t)
    ensures Pow2((Height(t) + 1) / 2) <= |Inorder(t)| + 1
  {
    BlackHeightSize(t);
    Pow2Monotone((Height(t) + 1) / 2, BlackHeight(t));
  }
}
