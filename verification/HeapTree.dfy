/**
 The red-black tree that mm_tree_rbtree.c keeps inside its free blocks.

 A node is a block pointer `n`.  Its left, right and parent links are the words n, n+1 and
 n+2, and its colour is bit 2 of the header word n-1.  NIL is the list head, whose words
 are in use for something else, so nothing here may write through it.
 */
module HeapTree {
  import opened Words
  import opened Trees
  import opened Links
  import opened Rebalance

  function ColorAt(m: seq<Word>, n: nat): Color
    requires 1 <= n <= |m|
  {
    if m[n - 1].b2 then Black else Red
  }

  ghost function CellAt(m: seq<Word>, n: nat): Cell<nat> {
    if 1 <= n && n + 2 < |m| then Cell(Ptr(m[n]), Ptr(m[n + 1]), Ptr(m[n + 2]), ColorAt(m, n))
    else Cell(NIL, NIL, NIL, Black)
  }

  ghost function Cells(m: seq<Word>, ns: set<nat>): Store<nat> {
    map n | n in ns :: CellAt(m, n)
  }

  /** Nodes lie inside the heap, beyond the list head, and their words do not overlap. */
  ghost predicate Spaced(m: seq<Word>, ns: set<nat>) {
    (forall n :: n in ns ==> 5 <= n && n + 2 < |m|) &&
    (forall a, b :: a in ns && b in ns && a < b ==> a + 4 <= b)
  }

  /** Memory `m` spells out the zipper (c, t), all of whose nodes are among `ns`. */
  ghost predicate Zip(m: seq<Word>, root: nat, ns: set<nat>, c: Ctx<nat>, t: Tree<nat>) {
    Spaced(m, ns) && CtxIds(c) + Ids(t) <= ns && Rep(Cells(m, ns), NIL, root, c, t)
  }

  ghost predicate IsLink(ns: set<nat>, i: int) { i in ns || i - 1 in ns || i - 2 in ns }

  ghost predicate IsHead(ns: set<nat>, i: int) { i + 1 in ns }

  predicate SameButColor(w: Word, w': Word) { w' == w.(b2 := w'.b2) }

  /** `m'` differs from `m` only in the link words and colour bits of `ns`. */
  ghost predicate OnlyLinks(m: seq<Word>, m': seq<Word>, ns: set<nat>) {
    |m'| == |m| &&
    forall i {:trigger m'[i]} :: 0 <= i < |m| ==>
      m'[i] == m[i] || IsLink(ns, i) || (IsHead(ns, i) && SameButColor(m[i], m'[i]))
  }

  lemma OnlyLinksTrans(m0: seq<Word>, m1: seq<Word>, m2: seq<Word>, ns: set<nat>)
    requires OnlyLinks(m0, m1, ns) && OnlyLinks(m1, m2, ns)
    ensures OnlyLinks(m0, m2, ns)
  {
    hide IsLink, IsHead;
    forall i | 0 <= i < |m0|
      ensures m2[i] == m0[i] || IsLink(ns, i) || (IsHead(ns, i) && SameButColor(m0[i], m2[i]))
    {
      assert m1[i] == m0[i] || IsLink(ns, i) || (IsHead(ns, i) && SameButColor(m0[i], m1[i]));
    }
  }

  // ------------------------------------------------------------- moving the focus

  lemma Up(m: seq<Word>, root: nat, ns: set<nat>, c: Ctx<nat>, f: Tree<nat>)
    requires !c.Top?
    ensures Zip(m, root, ns, c, f) <==> Zip(m, root, ns, c.up, UpTree(c, f))
  {
    RepUp(Cells(m, ns), NIL, root, c, f);
  }

  lemma Across(m: seq<Word>, root: nat, ns: set<nat>, c: Ctx<nat>, f: Tree<nat>)
    requires !c.Top?
    ensures Zip(m, root, ns, c, f) <==> Zip(m, root, ns, SiblingCtx(c, f), Sibling(c))
  {
    Up(m, root, ns, c, f);
    Up(m, root, ns, SiblingCtx(c, f), Sibling(c));
  }

  lemma Whole(m: seq<Word>, root: nat, ns: set<nat>, c: Ctx<nat>, f: Tree<nat>)
    ensures Zip(m, root, ns, c, f) <==> Zip(m, root, ns, Top, Plug(c, f))
  {
    ZipRep(Cells(m, ns), NIL, root, c, f);
    PlugIds(c, f);
  }

  /** The words of the focus. */
  lemma Focus(m: seq<Word>, root: nat, ns: set<nat>, c: Ctx<nat>, f: Tree<nat>)
    requires Zip(m, root, ns, c, f) && f.Node?
    ensures f.id in ns && 5 <= f.id && f.id + 2 < |m|
    ensures Ptr(m[f.id]) == RootId(f.left, NIL) && Ptr(m[f.id + 1]) == RootId(f.right, NIL)
    ensures Ptr(m[f.id + 2]) == CtxId(c, NIL) && ColorAt(m, f.id) == f.color
    ensures CtxId(c, NIL) == NIL <==> c.Top?
    ensures f.left.Node? ==>
      f.left.id in ns && 5 <= f.left.id && f.left.id + 2 < |m| && ColorAt(m, f.left.id) == f.left.color &&
      f.left.id != f.id
    ensures f.right.Node? ==>
      f.right.id in ns && 5 <= f.right.id && f.right.id + 2 < |m| && ColorAt(m, f.right.id) == f.right.color &&
      f.right.id != f.id
    ensures f.left.Node? && f.right.Node? ==> f.left.id != f.right.id
  {
    var s := Cells(m, ns);
    assert CellIs(s, f.id, CellAt(m, f.id));
    if f.left.Node? {
      assert RepTree(s, NIL, f.left, f.id);
      assert CellIs(s, f.left.id, CellAt(m, f.left.id)) && f.left.id in Ids(f.left);
    }
    if f.right.Node? {
      assert RepTree(s, NIL, f.right, f.id);
      assert CellIs(s, f.right.id, CellAt(m, f.right.id)) && f.right.id in Ids(f.right);
    }
  }

  /** The words around the hole. */
  lemma Around(m: seq<Word>, root: nat, ns: set<nat>, c: Ctx<nat>, f: Tree<nat>)
    requires Zip(m, root, ns, c, f) && !c.Top?
    ensures c.id in ns && c.id != NIL && c.id + 2 < |m| && c.id !in Ids(f) && c.id >= 5
    ensures ColorAt(m, c.id) == c.color && Ptr(m[c.id + 2]) == CtxId(c.up, NIL) &&
      (CtxId(c.up, NIL) == NIL <==> c.up.Top?)
    ensures c.InLeft? ==> Ptr(m[c.id]) == RootId(f, NIL) && Ptr(m[c.id + 1]) == RootId(c.right, NIL)
    ensures c.InRight? ==> Ptr(m[c.id + 1]) == RootId(f, NIL) && Ptr(m[c.id]) == RootId(c.left, NIL)
    ensures f.Node? ==> (Ptr(m[c.id]) == f.id <==> c.InLeft?) && (Ptr(m[c.id + 1]) == f.id <==> c.InRight?)
    ensures Sibling(c).Node? ==>
      Sibling(c).id in ns && 5 <= Sibling(c).id && Sibling(c).id + 2 < |m| &&
      ColorAt(m, Sibling(c).id) == Sibling(c).color && Sibling(c).id != c.id
  {
    hide Ptr, Spaced, RepTree, RepCtx, Cells, CellAt;
    Up(m, root, ns, c, f);
    Focus(m, root, ns, c.up, UpTree(c, f));
  }

  // ------------------------------------------------------------- writing links

  function SetL(m: seq<Word>, n: nat, v: nat): seq<Word> requires n < |m| && NIL <= v { m[n := Off(v)] }

  function SetR(m: seq<Word>, n: nat, v: nat): seq<Word> requires n + 1 < |m| && NIL <= v { m[n + 1 := Off(v)] }

  function SetP(m: seq<Word>, n: nat, v: nat): seq<Word> requires n + 2 < |m| && NIL <= v { m[n + 2 := Off(v)] }

  function SetC(m: seq<Word>, n: nat, col: Color): seq<Word> requires 1 <= n <= |m| {
    m[n - 1 := m[n - 1].(b2 := col == Black)]
  }

  lemma LinkWrite(m: seq<Word>, ns: set<nat>, i: nat, w: Word)
    requires i < |m| && IsLink(ns, i)
    ensures OnlyLinks(m, m[i := w], ns)
  {
  }

  lemma HeadWrite(m: seq<Word>, ns: set<nat>, i: nat, w: Word)
    requires i < |m| && IsHead(ns, i) && SameButColor(m[i], w)
    ensures OnlyLinks(m, m[i := w], ns)
  {
  }

  lemma SetLCells(m: seq<Word>, ns: set<nat>, n: nat, v: nat)
    requires Spaced(m, ns) && n in ns && NIL <= v
    ensures Spaced(SetL(m, n, v), ns) && OnlyLinks(m, SetL(m, n, v), ns)
    ensures Cells(SetL(m, n, v), ns) == PutLeft(Cells(m, ns), n, v)
  {
    hide OnlyLinks, IsLink, IsHead, Value;
    LinkWrite(m, ns, n, Off(v));
  }

  lemma SetRCells(m: seq<Word>, ns: set<nat>, n: nat, v: nat)
    requires Spaced(m, ns) && n in ns && NIL <= v
    ensures Spaced(SetR(m, n, v), ns) && OnlyLinks(m, SetR(m, n, v), ns)
    ensures Cells(SetR(m, n, v), ns) == PutRight(Cells(m, ns), n, v)
  {
    hide OnlyLinks, IsLink, IsHead, Value;
    LinkWrite(m, ns, n + 1, Off(v));
  }

  lemma SetPCells(m: seq<Word>, ns: set<nat>, n: nat, v: nat)
    requires Spaced(m, ns) && n in ns && NIL <= v
    ensures Spaced(SetP(m, n, v), ns) && OnlyLinks(m, SetP(m, n, v), ns)
    ensures Cells(SetP(m, n, v), ns) == PutParent(Cells(m, ns), n, v)
  {
    hide OnlyLinks, IsLink, IsHead, Value;
    LinkWrite(m, ns, n + 2, Off(v));
  }

  lemma SetCCells(m: seq<Word>, ns: set<nat>, n: nat, col: Color)
    requires Spaced(m, ns) && n in ns
    ensures Spaced(SetC(m, n, col), ns) && OnlyLinks(m, SetC(m, n, col), ns)
    ensures Cells(SetC(m, n, col), ns) == PutColor(Cells(m, ns), n, col)
  {
    hide OnlyLinks, IsLink, IsHead, Value;
    HeadWrite(m, ns, n - 1, m[n - 1].(b2 := col == Black));
  }

  function Hung(m: seq<Word>, c: Ctx<nat>, v: nat): seq<Word>
    requires NIL <= v && (!c.Top? ==> c.id + 1 < |m|)
  {
    match c
    case Top => m
    case InLeft(_, n, _, _) => SetL(m, n, v)
    case InRight(_, _, n, _) => SetR(m, n, v)
  }

  function Adopted(m: seq<Word>, t: Tree<nat>, p: nat): seq<Word>
    requires NIL <= p && (t.Node? ==> t.id + 2 < |m|)
  {
    if t.Leaf? then m else SetP(m, t.id, p)
  }

  lemma HungCells(m: seq<Word>, ns: set<nat>, c: Ctx<nat>, v: nat)
    requires Spaced(m, ns) && NIL <= v && (!c.Top? ==> c.id in ns)
    ensures Spaced(Hung(m, c, v), ns) && OnlyLinks(m, Hung(m, c, v), ns)
    ensures Cells(Hung(m, c, v), ns) == PutHole(Cells(m, ns), c, v)
  {
    match c
    case Top =>
    case InLeft(_, n, _, _) => SetLCells(m, ns, n, v);
    case InRight(_, _, n, _) => SetRCells(m, ns, n, v);
  }

  lemma AdoptedCells(m: seq<Word>, ns: set<nat>, t: Tree<nat>, p: nat)
    requires Spaced(m, ns) && NIL <= p && (t.Node? ==> t.id in ns)
    ensures Spaced(Adopted(m, t, p), ns) && OnlyLinks(m, Adopted(m, t, p), ns)
    ensures Cells(Adopted(m, t, p), ns) == PutTop(Cells(m, ns), t, p)
  {
    if t.Node? { SetPCells(m, ns, t.id, p); }
  }

  /** The middle lines of both rotations and of TRANSPLANT. */
  method ReplaceChild(mem: array<Word>, root: nat, x: nat, v: nat, ghost c: Ctx<nat>) returns (root': nat)
    requires 5 <= x && x + 2 < mem.Length && NIL <= v && Ptr(mem[x + 2]) == CtxId(c, NIL)
    requires !c.Top? ==> 5 <= c.id && c.id + 2 < mem.Length && (Ptr(mem[c.id]) == x <==> c.InLeft?)
    modifies mem
    ensures root' == NewRoot(c, v, root) && mem[..] == Hung(old(mem[..]), c, v)
  {
    root' := root;
    if Ptr(mem[x + 2]) == NIL {
      root' := v;
    } else if x == Ptr(mem[Ptr(mem[x + 2])]) {
      mem[Ptr(mem[x + 2])] := Off(v);
    } else {
      mem[Ptr(mem[x + 2]) + 1] := Off(v);
    }
  }

  // ------------------------------------------------------------- rotations

  /** Memory after rb_left_rotate, assignment by assignment. */
  function LeftRotatedMem(m: seq<Word>, c: Ctx<nat>, f: Tree<nat>): seq<Word>
    requires f.Node? && f.right.Node? && f.id + 2 < |m| && f.right.id + 2 < |m|
    requires (!c.Top? ==> NIL <= c.id && c.id + 1 < |m|) && NIL <= f.id && NIL <= f.right.id
    requires f.right.left.Node? ==> NIL <= f.right.left.id && f.right.left.id + 2 < |m|
  {
    var x, y, b := f.id, f.right.id, f.right.left;
    SetP(SetL(Hung(SetP(Adopted(SetR(m, x, RootId(b, NIL)), b, x), y, CtxId(c, NIL)), c, y), y, x), x, y)
  }

  lemma LeftRotated(m: seq<Word>, root: nat, ns: set<nat>, c: Ctx<nat>, f: Tree<nat>)
    requires Zip(m, root, ns, c, f) && f.Node? && f.right.Node?
    ensures f.id in ns && f.right.id in ns && (!c.Top? ==> c.id in ns) && (f.right.left.Node? ==> f.right.left.id in ns)
    ensures Zip(LeftRotatedMem(m, c, f), NewRoot(c, f.right.id, root), ns, c, RotateLeft(f))
    ensures OnlyLinks(m, LeftRotatedMem(m, c, f), ns)
  {
    hide Rep, RepTree, RepCtx, RotatedLeft, SetL, SetR, SetP, Hung, Adopted, OnlyLinks;
    var s, x, y, b := Cells(m, ns), f.id, f.right.id, f.right.left;
    LeftSteps(s, NIL, root, c, f);
    var m1 := SetR(m, x, RootId(b, NIL));
    SetRCells(m, ns, x, RootId(b, NIL));
    var m2 := Adopted(m1, b, x);
    AdoptedCells(m1, ns, b, x);
    var m3 := SetP(m2, y, CtxId(c, NIL));
    SetPCells(m2, ns, y, CtxId(c, NIL));
    var m4 := Hung(m3, c, y);
    HungCells(m3, ns, c, y);
    var m5 := SetL(m4, y, x);
    SetLCells(m4, ns, y, x);
    var m6 := SetP(m5, x, y);
    SetPCells(m5, ns, x, y);
    OnlyLinksTrans(m, m1, m2, ns); OnlyLinksTrans(m, m2, m3, ns); OnlyLinksTrans(m, m3, m4, ns);
    OnlyLinksTrans(m, m4, m5, ns); OnlyLinksTrans(m, m5, m6, ns);
    RotateLeftRep(s, Cells(m6, ns), NIL, root, c, f);
    RotateLeftKeeps(f);
  }

  /** Memory after rb_right_rotate, assignment by assignment. */
  function RightRotatedMem(m: seq<Word>, c: Ctx<nat>, f: Tree<nat>): seq<Word>
    requires f.Node? && f.left.Node? && f.id + 2 < |m| && f.left.id + 2 < |m|
    requires (!c.Top? ==> NIL <= c.id && c.id + 1 < |m|) && NIL <= f.id && NIL <= f.left.id
    requires f.left.right.Node? ==> NIL <= f.left.right.id && f.left.right.id + 2 < |m|
  {
    var y, x, b := f.id, f.left.id, f.left.right;
    SetP(SetR(Hung(SetP(Adopted(SetL(m, y, RootId(b, NIL)), b, y), x, CtxId(c, NIL)), c, x), x, y), y, x)
  }

  lemma RightRotated(m: seq<Word>, root: nat, ns: set<nat>, c: Ctx<nat>, f: Tree<nat>)
    requires Zip(m, root, ns, c, f) && f.Node? && f.left.Node?
    ensures f.id in ns && f.left.id in ns && (!c.Top? ==> c.id in ns) && (f.left.right.Node? ==> f.left.right.id in ns)
    ensures Zip(RightRotatedMem(m, c, f), NewRoot(c, f.left.id, root), ns, c, RotateRight(f))
    ensures OnlyLinks(m, RightRotatedMem(m, c, f), ns)
  {
    hide Rep, RepTree, RepCtx, RotatedRight, SetL, SetR, SetP, Hung, Adopted, OnlyLinks;
    var s, y, x, b := Cells(m, ns), f.id, f.left.id, f.left.right;
    RightSteps(s, NIL, root, c, f);
    var m1 := SetL(m, y, RootId(b, NIL));
    SetLCells(m, ns, y, RootId(b, NIL));
    var m2 := Adopted(m1, b, y);
    AdoptedCells(m1, ns, b, y);
    var m3 := SetP(m2, x, CtxId(c, NIL));
    SetPCells(m2, ns, x, CtxId(c, NIL));
    var m4 := Hung(m3, c, x);
    HungCells(m3, ns, c, x);
    var m5 := SetR(m4, x, y);
    SetRCells(m4, ns, x, y);
    var m6 := SetP(m5, y, x);
    SetPCells(m5, ns, y, x);
    OnlyLinksTrans(m, m1, m2, ns); OnlyLinksTrans(m, m2, m3, ns); OnlyLinksTrans(m, m3, m4, ns);
    OnlyLinksTrans(m, m4, m5, ns); OnlyLinksTrans(m, m5, m6, ns);
    RotateRightRep(s, Cells(m6, ns), NIL, root, c, f);
    RotateRightKeeps(f);
  }

  /** Memory `m` spells out the zipper, and has changed since `m0` only in links and colours. */
  ghost predicate State(m0: seq<Word>, m: seq<Word>, root: nat, ns: set<nat>, c: Ctx<nat>, f: Tree<nat>) {
    Zip(m, root, ns, c, f) && OnlyLinks(m0, m, ns)
  }

  predicate At(m: seq<Word>, n: nat) { 5 <= n && n + 2 < |m| }

  predicate Clear(a: nat, b: nat) { a + 4 <= b || b + 4 <= a }

  /** What rb_left_rotate reads, and that no two of its words coincide. */
  ghost predicate LeftReady(m: seq<Word>, c: Ctx<nat>, f: Tree<nat>) {
    f.Node? && f.right.Node? && At(m, f.id) && At(m, f.right.id) && Clear(f.id, f.right.id) &&
    Ptr(m[f.id + 1]) == f.right.id && Ptr(m[f.right.id]) == RootId(f.right.left, NIL) &&
    Ptr(m[f.id + 2]) == CtxId(c, NIL) &&
    (!c.Top? ==>
      At(m, c.id) && Clear(c.id, f.id) && Clear(c.id, f.right.id) && (Ptr(m[c.id]) == f.id <==> c.InLeft?)) &&
    (f.right.left.Node? ==>
       At(m, f.right.left.id) && Clear(f.right.left.id, f.id) && Clear(f.right.left.id, f.right.id) &&
       (!c.Top? ==> Clear(f.right.left.id, c.id)))
  }

  lemma TopIn(t: Tree<nat>)
    requires t.Node?
    ensures t.id in Ids(t) && Ids(t.left) <= Ids(t) && Ids(t.right) <= Ids(t)
    ensures t.left.Node? ==> t.left.id in Ids(t.left)
    ensures t.right.Node? ==> t.right.id in Ids(t.right)
  {
  }

  lemma LeftIsReady(m: seq<Word>, root: nat, ns: set<nat>, c: Ctx<nat>, f: Tree<nat>)
    requires Zip(m, root, ns, c, f) && f.Node? && f.right.Node?
    ensures LeftReady(m, c, f)
  {
    hide RepTree, RepCtx, Rep, CtxIds, Ids, Cells, CellAt, Ptr;
    Focus(m, root, ns, c, f);
    if !c.Top? { Around(m, root, ns, c, f); }
    var cr := InRight(c, f.left, f.id, f.color);
    Up(m, root, ns, cr, f.right);
    Focus(m, root, ns, cr, f.right);
    Around(m, root, ns, cr, f.right);
    TopIn(f); TopIn(f.right);
  }

  method TurnLeft(mem: array<Word>, root: nat, x: nat, ghost c: Ctx<nat>, ghost f: Tree<nat>) returns (root': nat)
    requires LeftReady(mem[..], c, f) && x == f.id
    modifies mem
    ensures root' == NewRoot(c, f.right.id, root) && mem[..] == LeftRotatedMem(old(mem[..]), c, f)
  {
    hide Ptr, Off, Value;
    var y := Ptr(mem[x + 1]);
    mem[x + 1] := Off(Ptr(mem[y]));
    if Ptr(mem[y]) != NIL {
      mem[Ptr(mem[y]) + 2] := Off(x);
    }
    mem[y + 2] := Off(Ptr(mem[x + 2]));
    root' := ReplaceChild(mem, root, x, y, c);
    mem[y] := Off(x);
    mem[x + 2] := Off(y);
  }

  /** rb_left_rotate */
  method LeftRotate(mem: array<Word>, root: nat, x: nat, ghost m0: seq<Word>, ghost ns: set<nat>, ghost c: Ctx<nat>,
      ghost f: Tree<nat>)
    returns (root': nat)
    requires State(m0, mem[..], root, ns, c, f) && f.Node? && f.id == x && f.right.Node?
    modifies mem
    ensures State(m0, mem[..], root', ns, c, RotateLeft(f))
  {
    ghost var m := mem[..];
    LeftRotated(m, root, ns, c, f);
    LeftIsReady(m, root, ns, c, f);
    OnlyLinksTrans(m0, m, LeftRotatedMem(m, c, f), ns);
    root' := TurnLeft(mem, root, x, c, f);
  }

  /** What rb_right_rotate reads, and that no two of its words coincide. */
  ghost predicate RightReady(m: seq<Word>, c: Ctx<nat>, f: Tree<nat>) {
    f.Node? && f.left.Node? && At(m, f.id) && At(m, f.left.id) && Clear(f.id, f.left.id) &&
    Ptr(m[f.id]) == f.left.id && Ptr(m[f.left.id + 1]) == RootId(f.left.right, NIL) &&
    Ptr(m[f.id + 2]) == CtxId(c, NIL) &&
    (!c.Top? ==> At(m, c.id) && Clear(c.id, f.id) && Clear(c.id, f.left.id) && (Ptr(m[c.id]) == f.id <==> c.InLeft?)) &&
    (f.left.right.Node? ==>
       At(m, f.left.right.id) && Clear(f.left.right.id, f.id) && Clear(f.left.right.id, f.left.id) &&
       (!c.Top? ==> Clear(f.left.right.id, c.id)))
  }

  lemma RightIsReady(m: seq<Word>, root: nat, ns: set<nat>, c: Ctx<nat>, f: Tree<nat>)
    requires Zip(m, root, ns, c, f) && f.Node? && f.left.Node?
    ensures RightReady(m, c, f)
  {
    hide RepTree, RepCtx, Rep, CtxIds, Ids, Cells, CellAt, Ptr;
    Focus(m, root, ns, c, f);
    if !c.Top? { Around(m, root, ns, c, f); }
    var cl := InLeft(c, f.id, f.color, f.right);
    Up(m, root, ns, cl, f.left);
    Focus(m, root, ns, cl, f.left);
    Around(m, root, ns, cl, f.left);
    TopIn(f); TopIn(f.left);
  }

  method TurnRight(mem: array<Word>, root: nat, y: nat, ghost c: Ctx<nat>, ghost f: Tree<nat>) returns (root': nat)
    requires RightReady(mem[..], c, f) && y == f.id
    modifies mem
    ensures root' == NewRoot(c, f.left.id, root) && mem[..] == RightRotatedMem(old(mem[..]), c, f)
  {
    hide Ptr, Off, Value;
    var x := Ptr(mem[y]);
    mem[y] := Off(Ptr(mem[x + 1]));
    if Ptr(mem[x + 1]) != NIL {
      mem[Ptr(mem[x + 1]) + 2] := Off(y);
    }
    mem[x + 2] := Off(Ptr(mem[y + 2]));
    root' := ReplaceChild(mem, root, y, x, c);
    mem[x + 1] := Off(y);
    mem[y + 2] := Off(x);
  }

  /** rb_right_rotate */
  method RightRotate(mem: array<Word>, root: nat, y: nat, ghost m0: seq<Word>, ghost ns: set<nat>, ghost c: Ctx<nat>,
      ghost f: Tree<nat>)
    returns (root': nat)
    requires State(m0, mem[..], root, ns, c, f) && f.Node? && f.id == y && f.left.Node?
    modifies mem
    ensures State(m0, mem[..], root', ns, c, RotateRight(f))
  {
    ghost var m := mem[..];
    RightRotated(m, root, ns, c, f);
    RightIsReady(m, root, ns, c, f);
    OnlyLinksTrans(m0, m, RightRotatedMem(m, c, f), ns);
    root' := TurnRight(mem, root, y, c, f);
  }

  /** SET_RED or SET_BLACK on the header of a node brought into focus. */
  method SetColor(mem: array<Word>, n: nat, col: Color, ghost root: nat, ghost m0: seq<Word>, ghost ns: set<nat>,
      ghost c: Ctx<nat>, ghost f: Tree<nat>)
    requires State(m0, mem[..], root, ns, c, f) && f.Node? && f.id == n
    modifies mem
    ensures State(m0, mem[..], root, ns, c, Paint(f, col))
  {
    hide RepTree, RepCtx, OnlyLinks;
    ghost var m := mem[..];
    Focus(m, root, ns, c, f);
    SetCCells(m, ns, n, col);
    RecolorRep(Cells(m, ns), Cells(SetC(m, n, col), ns), NIL, root, c, f, col);
    OnlyLinksTrans(m0, m, SetC(m, n, col), ns);
    mem[n - 1] := mem[n - 1].(b2 := col == Black);
    assert mem[..] == SetC(m, n, col);
  }

  // ------------------------------------------------------------- insertion

  /** SET_BLACK or SET_RED on the parent of the focus. */
  method PaintParent(mem: array<Word>, p: nat, col: Color, ghost root: nat, ghost m0: seq<Word>, ghost ns: set<nat>,
      ghost c: Ctx<nat>, ghost f: Tree<nat>)
    returns (ghost c': Ctx<nat>)
    requires State(m0, mem[..], root, ns, c, f) && !c.Top? && c.id == p
    modifies mem
    ensures c' == (if c.InLeft? then InLeft(c.up, c.id, col, c.right) else InRight(c.up, c.left, c.id, col))
    ensures State(m0, mem[..], root, ns, c', f)
  {
    hide Zip, OnlyLinks, Ptr, Off;
    c' := if c.InLeft? then InLeft(c.up, c.id, col, c.right) else InRight(c.up, c.left, c.id, col);
    Up(mem[..], root, ns, c, f);
    SetColor(mem, p, col, root, m0, ns, c.up, UpTree(c, f));
    Up(mem[..], root, ns, c', f);
  }

  /** SET_BLACK or SET_RED on the sibling of the focus. */
  method PaintSibling(mem: array<Word>, w: nat, col: Color, ghost root: nat, ghost m0: seq<Word>, ghost ns: set<nat>,
      ghost c: Ctx<nat>, ghost f: Tree<nat>)
    requires State(m0, mem[..], root, ns, c, f) && !c.Top? && Sibling(c).Node? && Sibling(c).id == w
    modifies mem
    ensures State(m0, mem[..], root, ns, WithSibling(c, Paint(Sibling(c), col)), f)
  {
    hide Zip, OnlyLinks, Ptr, Off;
    Across(mem[..], root, ns, c, f);
    SetColor(mem, w, col, root, m0, ns, SiblingCtx(c, f), Sibling(c));
    Across(mem[..], root, ns, WithSibling(c, Paint(Sibling(c), col)), f);
  }

  /** Parent and uncle are red: recolour. */
  method RecolorUp(mem: array<Word>, p: nat, y: nat, g: nat, ghost root: nat, ghost m0: seq<Word>, ghost ns: set<nat>,
      ghost c: Ctx<nat>, ghost f: Tree<nat>)
    requires State(m0, mem[..], root, ns, c, f) && !c.Top? && !c.up.Top? && Sibling(c.up).Node?
    requires p == c.id && g == c.up.id && y == Sibling(c.up).id
    modifies mem
    ensures State(m0, mem[..], root, ns, c.up.up, RecolorStep(c, f))
  {
    hide Zip, OnlyLinks, Ptr, Off;
    ghost var t := UpTree(c, f);
    Up(mem[..], root, ns, c, f);
    SetColor(mem, p, Black, root, m0, ns, c.up, t);
    t := Paint(t, Black);
    PaintSibling(mem, y, Black, root, m0, ns, c.up, t);
    ghost var k := WithSibling(c.up, Paint(Sibling(c.up), Black));
    Up(mem[..], root, ns, k, t);
    assert UpTree(k, t) == UpTree(SiblingCtx(c.up, t), Paint(Sibling(c.up), Black));
    SetColor(mem, g, Red, root, m0, ns, c.up.up, UpTree(k, t));
  }

  /** An outer grandchild under a black uncle: exchange colours, ready for the rotation. */
  method RecolorLift(mem: array<Word>, p: nat, g: nat, ghost root: nat, ghost m0: seq<Word>, ghost ns: set<nat>,
      ghost c: Ctx<nat>, ghost f: Tree<nat>)
    requires State(m0, mem[..], root, ns, c, f) && !c.Top? && !c.up.Top? && p == c.id && g == c.up.id
    modifies mem
    ensures State(m0, mem[..], root, ns, c.up.up, LiftTree(c, f))
  {
    hide Zip, OnlyLinks, Ptr, Off;
    ghost var t := UpTree(c, f);
    Up(mem[..], root, ns, c, f);
    SetColor(mem, p, Black, root, m0, ns, c.up, t);
    t := Paint(t, Black);
    Up(mem[..], root, ns, c.up, t);
    SetColor(mem, g, Red, root, m0, ns, c.up.up, UpTree(c.up, t));
  }

  predicate RedHeader(m: seq<Word>, n: nat)
    requires 1 <= n <= |m|
  {
    !m[n - 1].b2
  }

  /** What the loop test of rb_insert_fixup sees around a red focus. */
  lemma InsertView(m0: seq<Word>, m: seq<Word>, root: nat, ns: set<nat>, c: Ctx<nat>, f: Tree<nat>)
    requires State(m0, m, root, ns, c, f) && InsertOk(c, f)
    ensures f.Node? && f.id != NIL && f.id + 2 < |m| && (Ptr(m[f.id + 2]) == NIL <==> c.Top?)
    ensures !c.Top? ==> At(m, c.id) && Ptr(m[f.id + 2]) == c.id && (Ptr(m[c.id + 2]) == NIL <==> c.up.Top?)
    ensures !c.Top? ==> (Ptr(m[c.id]) == f.id <==> c.InLeft?) && (Ptr(m[c.id + 1]) == f.id <==> c.InRight?)
    ensures !c.Top? ==> (RedHeader(m, c.id) <==> RedTop(c)) && (c.up.Top? ==> !RedTop(c))
    ensures RedTop(c) ==>
      At(m, c.up.id) && Ptr(m[c.id + 2]) == c.up.id && c.up.color == Black && Depth(c) == Depth(c.up.up) + 2
    ensures RedTop(c) ==> (Ptr(m[c.up.id]) == c.id <==> c.up.InLeft?)
    ensures RedTop(c) ==> (if c.up.InLeft? then Ptr(m[c.up.id + 1]) else Ptr(m[c.up.id])) == RootId(Sibling(c.up), NIL)
    ensures RedTop(c) && Sibling(c.up).Node? ==>
      At(m, Sibling(c.up).id) && (RedHeader(m, Sibling(c.up).id) <==> IsRed(Sibling(c.up)))
  {
    hide Zip, OnlyLinks, RB, Fits, BlackRoot, Ptr;
    Focus(m, root, ns, c, f);
    if !c.Top? { Around(m, root, ns, c, f); }
    if RedTop(c) {
      RedParent(c, f);
      Up(m, root, ns, c, f);
      Around(m, root, ns, c.up, UpTree(c, f));
    }
  }

  /** Cases 2 and 3, the parent being a left child. */
  method LiftLeftSide(mem: array<Word>, root: nat, start: nat, ghost m0: seq<Word>, ghost ns: set<nat>,
      ghost c0: Ctx<nat>, ghost f0: Tree<nat>)
    returns (root': nat, z: nat, ghost c: Ctx<nat>, ghost f: Tree<nat>)
    requires State(m0, mem[..], root, ns, c0, f0) && InsertOk(c0, f0) && f0.id == start
    requires RedTop(c0) && c0.up.InLeft? && !IsRed(c0.up.right)
    modifies mem
    ensures State(m0, mem[..], root', ns, c, f) && InsertOk(c, f) && f.id == z && !RedTop(c) && !c.Top? &&
      Depth(c) < Depth(c0)
    ensures Inorder(Plug(c, f)) == Inorder(Plug(c0, f0))
  {
    hide Zip, OnlyLinks, RB, Fits, BlackRoot, Inorder, Plug, Ptr, Off;
    root', z, c, f := root, start, c0, f0;
    InsertView(m0, mem[..], root', ns, c, f);
    if z == Ptr(mem[Ptr(mem[z + 2]) + 1]) {
      StraightenLeftOk(c, f);
      Up(mem[..], root', ns, c, f);
      z := Ptr(mem[z + 2]);
      root' := LeftRotate(mem, root', z, m0, ns, c.up, UpTree(c, f));
      f, c := RotateLeft(UpTree(c, f)).left, InLeft(c.up, f.id, Red, f.right);
      Up(mem[..], root', ns, c, f);
    }
    LiftRightOk(c, f);
    InsertView(m0, mem[..], root', ns, c, f);
    var p := Ptr(mem[z + 2]);
    var g := Ptr(mem[p + 2]);
    RecolorLift(mem, p, g, root', m0, ns, c, f);
    root' := RightRotate(mem, root', g, m0, ns, c.up.up, LiftTree(c, f));
    c := InLeft(c.up.up, c.id, Black, RotateRight(LiftTree(c, f)).right);
    Up(mem[..], root', ns, c, f);
  }

  /** Cases 2 and 3, the parent being a right child. */
  method LiftRightSide(mem: array<Word>, root: nat, start: nat, ghost m0: seq<Word>, ghost ns: set<nat>,
      ghost c0: Ctx<nat>, ghost f0: Tree<nat>)
    returns (root': nat, z: nat, ghost c: Ctx<nat>, ghost f: Tree<nat>)
    requires State(m0, mem[..], root, ns, c0, f0) && InsertOk(c0, f0) && f0.id == start
    requires RedTop(c0) && c0.up.InRight? && !IsRed(c0.up.left)
    modifies mem
    ensures State(m0, mem[..], root', ns, c, f) && InsertOk(c, f) && f.id == z && !RedTop(c) && !c.Top? &&
      Depth(c) < Depth(c0)
    ensures Inorder(Plug(c, f)) == Inorder(Plug(c0, f0))
  {
    hide Zip, OnlyLinks, RB, Fits, BlackRoot, Inorder, Plug, Ptr, Off;
    root', z, c, f := root, start, c0, f0;
    InsertView(m0, mem[..], root', ns, c, f);
    if z == Ptr(mem[Ptr(mem[z + 2])]) {
      StraightenRightOk(c, f);
      Up(mem[..], root', ns, c, f);
      z := Ptr(mem[z + 2]);
      root' := RightRotate(mem, root', z, m0, ns, c.up, UpTree(c, f));
      f, c := RotateRight(UpTree(c, f)).right, InRight(c.up, f.left, f.id, Red);
      Up(mem[..], root', ns, c, f);
    }
    LiftLeftOk(c, f);
    InsertView(m0, mem[..], root', ns, c, f);
    var p := Ptr(mem[z + 2]);
    var g := Ptr(mem[p + 2]);
    RecolorLift(mem, p, g, root', m0, ns, c, f);
    root' := LeftRotate(mem, root', g, m0, ns, c.up.up, LiftTree(c, f));
    c := InRight(c.up.up, RotateLeft(LiftTree(c, f)).left, c.id, Black);
    Up(mem[..], root', ns, c, f);
  }

  /** One pass of the loop. */
  method InsertStep(mem: array<Word>, root: nat, start: nat, ghost m0: seq<Word>, ghost ns: set<nat>,
      ghost c0: Ctx<nat>, ghost f0: Tree<nat>)
    returns (root': nat, z: nat, ghost c: Ctx<nat>, ghost f: Tree<nat>)
    requires State(m0, mem[..], root, ns, c0, f0) && InsertOk(c0, f0) && f0.id == start && RedTop(c0)
    modifies mem
    ensures State(m0, mem[..], root', ns, c, f) && InsertOk(c, f) && f.id == z && Depth(c) < Depth(c0)
    ensures Inorder(Plug(c, f)) == Inorder(Plug(c0, f0))
  {
    hide Zip, OnlyLinks, RB, Fits, BlackRoot, Inorder, Plug, Ptr, Off;
    root', z, c, f := root, start, c0, f0;
    InsertView(m0, mem[..], root', ns, c, f);
    var p := Ptr(mem[z + 2]);
    var g := Ptr(mem[p + 2]);
    var left := p == Ptr(mem[g]);
    var y := if left then Ptr(mem[g + 1]) else Ptr(mem[g]);
    if y != NIL && RedHeader(mem[..], y) {
      RecolorStepOk(c, f);
      RecolorUp(mem, p, y, g, root', m0, ns, c, f);
      c, f, z := c.up.up, RecolorStep(c, f), g;
    } else if left {
      root', z, c, f := LiftLeftSide(mem, root', z, m0, ns, c, f);
    } else {
      root', z, c, f := LiftRightSide(mem, root', z, m0, ns, c, f);
    }
  }

  /** rb_insert_fixup */
  method InsertFixup(mem: array<Word>, root: nat, start: nat, ghost m0: seq<Word>, ghost ns: set<nat>,
      ghost c0: Ctx<nat>, ghost f0: Tree<nat>)
    returns (root': nat, ghost t: Tree<nat>)
    requires State(m0, mem[..], root, ns, c0, f0) && InsertOk(c0, f0) && f0.id == start
    modifies mem
    ensures State(m0, mem[..], root', ns, Top, t) && RedBlack(t) && Inorder(t) == Inorder(Plug(c0, f0))
  {
    hide State, InsertOk, RedBlack, Inorder, Plug, Ptr, Off;
    root' := root;
    var z := start;
    ghost var c, f := c0, f0;
    InsertView(m0, mem[..], root', ns, c, f);
    while z != NIL && Ptr(mem[z + 2]) != NIL && Ptr(mem[Ptr(mem[z + 2]) + 2]) != NIL && !mem[Ptr(mem[z + 2]) - 1].b2
      invariant State(m0, mem[..], root', ns, c, f) && InsertOk(c, f) && f.Node? && f.id == z &&
        Inorder(Plug(c, f)) == Inorder(Plug(c0, f0))
      invariant z + 2 < mem.Length && (Ptr(mem[z + 2]) == NIL <==> c.Top?)
      invariant !c.Top? ==> Ptr(mem[z + 2]) == c.id && 5 <= c.id && c.id + 2 < mem.Length
      invariant !c.Top? ==> (!mem[c.id - 1].b2 <==> RedTop(c))
      invariant RedTop(c) ==> z != NIL && Ptr(mem[c.id + 2]) != NIL
      decreases Depth(c)
    {
      root', z, c, f := InsertStep(mem, root', z, m0, ns, c, f);
      InsertView(m0, mem[..], root', ns, c, f);
    }
    InsertDone(c, f);
    t := BlackenRoot(mem, root', m0, ns, c, f);
  }

  /** The last line of rb_insert_fixup. */
  method BlackenRoot(mem: array<Word>, root: nat, ghost m0: seq<Word>, ghost ns: set<nat>, ghost c: Ctx<nat>,
      ghost f: Tree<nat>)
    returns (ghost t: Tree<nat>)
    requires State(m0, mem[..], root, ns, c, f)
    modifies mem
    ensures State(m0, mem[..], root, ns, Top, t) && t == Paint(Plug(c, f), Black)
    ensures Inorder(t) == Inorder(Plug(c, f))
  {
    Whole(mem[..], root, ns, c, f);
    t := Plug(c, f);
    PaintKeeps(t, Black);
    assert root == RootId(t, NIL);
    if t.Node? { Focus(mem[..], root, ns, Top, t); }
    if root != NIL {
      SetColor(mem, root, Black, root, m0, ns, Top, t);
    }
    t := Paint(t, Black);
  }

  // ------------------------------------------------------------- deletion

  /** `x` is the focus, which may be empty, and `xp` the node above it. */
  ghost predicate Owing(m0: seq<Word>, m: seq<Word>, root: nat, ns: set<nat>, c: Ctx<nat>, f: Tree<nat>, x: nat,
      xp: nat) {
    State(m0, m, root, ns, c, f) && x == RootId(f, NIL) && (!c.Top? ==> xp == c.id)
  }

  /** What the loop test of rb_delete_fixup sees. */
  lemma OwingView(m0: seq<Word>, m: seq<Word>, root: nat, ns: set<nat>, c: Ctx<nat>, f: Tree<nat>, x: nat, xp: nat)
    requires Owing(m0, m, root, ns, c, f, x, xp)
    ensures (x == NIL <==> f.Leaf?) && (x == root <==> c.Top?) &&
      (x != NIL ==> At(m, x) && (RedHeader(m, x) <==> IsRed(f)))
    ensures f.Node? ==> Ptr(m[x + 2]) == CtxId(c, NIL)
  {
    RootInCtx(Cells(m, ns), NIL, root, c, x);
    if f.Node? { Focus(m, root, ns, c, f); }
  }

  /** The sibling and its children, of a focus that is a black node short. */
  lemma SiblingView(m0: seq<Word>, m: seq<Word>, root: nat, ns: set<nat>, c: Ctx<nat>, f: Tree<nat>, x: nat, xp: nat)
    requires Owing(m0, m, root, ns, c, f, x, xp) && DeleteOk(c, f) && !c.Top?
    ensures Sibling(c).Node? && At(m, xp) && At(m, Sibling(c).id)
    ensures x == Ptr(m[xp]) <==> c.InLeft?
    ensures Sibling(c).id == if c.InLeft? then Ptr(m[xp + 1]) else Ptr(m[xp])
    ensures (RedHeader(m, Sibling(c).id) <==> IsRed(Sibling(c))) && (RedHeader(m, xp) <==> c.color == Red)
    ensures Ptr(m[Sibling(c).id]) == RootId(Sibling(c).left, NIL) &&
      Ptr(m[Sibling(c).id + 1]) == RootId(Sibling(c).right, NIL)
    ensures Sibling(c).left.Node? ==>
      At(m, Sibling(c).left.id) && (RedHeader(m, Sibling(c).left.id) <==> IsRed(Sibling(c).left))
    ensures Sibling(c).right.Node? ==>
      At(m, Sibling(c).right.id) && (RedHeader(m, Sibling(c).right.id) <==> IsRed(Sibling(c).right))
  {
    hide Zip, OnlyLinks, RB, Fits, BlackRoot, DeleteOk, Ptr, Distinct, CtxDistinct;
    SiblingExists(c, f);
    Around(m, root, ns, c, f);
    Across(m, root, ns, c, f);
    Focus(m, root, ns, SiblingCtx(c, f), Sibling(c));
  }

  /** Case 2: the sibling turns red and the debt moves up. */
  method PushDebtUp(mem: array<Word>, xp: nat, w: nat, ghost root: nat, ghost x: nat, ghost m0: seq<Word>,
      ghost ns: set<nat>, ghost c: Ctx<nat>, ghost f: Tree<nat>)
    returns (x': nat, xp': nat)
    requires Owing(m0, mem[..], root, ns, c, f, x, xp) && !c.Top? && Sibling(c).Node? && w == Sibling(c).id && w != NIL
    modifies mem
    ensures Owing(m0, mem[..], root, ns, c.up, Case2Tree(c, f), x', xp') && x' == xp
  {
    hide Zip, OnlyLinks, Ptr;
    if w != NIL {
      PaintSibling(mem, w, Red, root, m0, ns, c, f);
    }
    x' := xp;
    Up(mem[..], root, ns, WithSibling(c, Paint(Sibling(c), Red)), f);
    OwingView(m0, mem[..], root, ns, c.up, Case2Tree(c, f), x', CtxId(c.up, NIL));
    xp' := xp;
    if x' != NIL {
      xp' := Ptr(mem[x' + 2]);
    }
  }

  lemma RootIs(m0: seq<Word>, m: seq<Word>, root: nat, ns: set<nat>, t: Tree<nat>)
    requires State(m0, m, root, ns, Top, t)
    ensures root == RootId(t, NIL)
  {
  }

  /** Case 1: the sibling is red. */
  method BorrowRedLeft(mem: array<Word>, root: nat, xp: nat, w: nat, ghost x: nat, ghost m0: seq<Word>,
      ghost ns: set<nat>, ghost c: Ctx<nat>, ghost f: Tree<nat>)
    returns (root': nat, ghost c': Ctx<nat>)
    requires Owing(m0, mem[..], root, ns, c, f, x, xp) && c.InLeft? && c.right.Node? && w == c.right.id
    modifies mem
    ensures c' == InLeft(InLeft(c.up, c.right.id, Black, c.right.right), c.id, Red, c.right.left)
    ensures Owing(m0, mem[..], root', ns, c', f, x, xp)
  {
    hide Zip, OnlyLinks, Ptr;
    PaintSibling(mem, w, Black, root, m0, ns, c, f);
    ghost var c1 := PaintParent(mem, xp, Red, root, m0, ns, WithSibling(c, Paint(c.right, Black)), f);
    Up(mem[..], root, ns, c1, f);
    root' := LeftRotate(mem, root, xp, m0, ns, c.up, UpTree(c1, f));
    c' := InLeft(InLeft(c.up, c.right.id, Black, c.right.right), c.id, Red, c.right.left);
    assert RotateLeft(UpTree(c1, f)) == UpTree(c'.up, UpTree(c', f));
    Up(mem[..], root', ns, c'.up, UpTree(c', f));
    Up(mem[..], root', ns, c', f);
  }

  /** Case 3: the inner nephew is red, the outer one black. */
  method TurnNephewLeft(mem: array<Word>, root: nat, w: nat, n: nat, ghost m0: seq<Word>, ghost ns: set<nat>,
      ghost c: Ctx<nat>, ghost f: Tree<nat>)
    returns (root': nat)
    requires State(m0, mem[..], root, ns, c, f) && c.InLeft? && c.right.Node? && w == c.right.id
    requires c.right.left.Node? && n == c.right.left.id
    modifies mem
    ensures State(m0, mem[..], root', ns, WithSibling(c, Case3Left(c.right)), f)
  {
    hide Zip, OnlyLinks, Ptr;
    ghost var k, s := SiblingCtx(c, f), c.right;
    ghost var kn := InLeft(k, s.id, s.color, s.right);
    Across(mem[..], root, ns, c, f);
    Up(mem[..], root, ns, kn, s.left);
    SetColor(mem, n, Black, root, m0, ns, kn, s.left);
    s := s.(left := Paint(s.left, Black));
    Up(mem[..], root, ns, kn, s.left);
    SetColor(mem, w, Red, root, m0, ns, k, s);
    root' := RightRotate(mem, root, w, m0, ns, k, Paint(s, Red));
    Across(mem[..], root', ns, WithSibling(c, Case3Left(c.right)), f);
  }

  /** Case 4: the outer nephew is red; the rotation settles the debt. */
  method SettleLeft(mem: array<Word>, root: nat, xp: nat, w: nat, n: nat, col: Color, ghost m0: seq<Word>,
      ghost ns: set<nat>, ghost c: Ctx<nat>, ghost f: Tree<nat>)
    returns (root': nat)
    requires State(m0, mem[..], root, ns, c, f) && c.InLeft? && c.right.Node? && w == c.right.id && xp == c.id
    requires c.right.right.Node? && n == c.right.right.id && col == c.color
    modifies mem
    ensures State(m0, mem[..], root', ns, Top, Plug(c.up, RotateLeft(Case4Left(c, f))))
  {
    hide Zip, OnlyLinks, Ptr;
    PaintSibling(mem, w, col, root, m0, ns, c, f);
    ghost var c1 := PaintParent(mem, xp, Black, root, m0, ns, WithSibling(c, Paint(c.right, col)), f);
    ghost var k, s := SiblingCtx(c1, f), c1.right;
    ghost var kn := InRight(k, s.left, s.id, s.color);
    Across(mem[..], root, ns, c1, f);
    Up(mem[..], root, ns, kn, s.right);
    SetColor(mem, n, Black, root, m0, ns, kn, s.right);
    s := s.(right := Paint(s.right, Black));
    Up(mem[..], root, ns, kn, s.right);
    Across(mem[..], root, ns, WithSibling(c1, s), f);
    Up(mem[..], root, ns, WithSibling(c1, s), f);
    root' := LeftRotate(mem, root, xp, m0, ns, c.up, Case4Left(c, f));
    Whole(mem[..], root', ns, c.up, RotateLeft(Case4Left(c, f)));
  }

  /** Cases 3 and 4. */
  method SettleDebtLeft(mem: array<Word>, root: nat, xp: nat, sibling: nat, ghost x: nat, ghost m0: seq<Word>,
      ghost ns: set<nat>, ghost c0: Ctx<nat>, ghost f: Tree<nat>)
    returns (root': nat, ghost t: Tree<nat>)
    requires Owing(m0, mem[..], root, ns, c0, f, x, xp) && DeleteOk(c0, f) && !IsRed(f) && c0.InLeft?
    requires c0.right.Node? && sibling == c0.right.id && !IsRed(c0.right) &&
      (IsRed(c0.right.left) || IsRed(c0.right.right))
    modifies mem
    ensures State(m0, mem[..], root', ns, Top, t) && DeleteOk(Top, t) && !IsRed(t) && t.Node? &&
      Inorder(t) == Inorder(Plug(c0, f))
  {
    hide Zip, OnlyLinks, RB, Fits, BlackRoot, DeleteOk, Inorder, Plug, Ptr, Off;
    root' := root;
    var w := sibling;
    ghost var c := c0;
    SiblingView(m0, mem[..], root', ns, c, f, x, xp);
    if Ptr(mem[w + 1]) == NIL || !RedHeader(mem[..], Ptr(mem[w + 1])) {
      Case3LeftOk(c, f);
      root' := TurnNephewLeft(mem, root', w, Ptr(mem[w]), m0, ns, c, f);
      c := WithSibling(c, Case3Left(c.right));
      SiblingView(m0, mem[..], root', ns, c, f, x, xp);
      w := Ptr(mem[xp + 1]);
    }
    Case4LeftOk(c, f);
    t := Plug(c.up, RotateLeft(Case4Left(c, f)));
    root' := SettleLeft(mem, root', xp, w, Ptr(mem[w + 1]), ColorAt(mem[..], xp), m0, ns, c, f);
  }

  /** One pass of the loop, for a focus that is a left child. */
  method EraseStepLeft(mem: array<Word>, root: nat, x: nat, xp: nat, ghost m0: seq<Word>, ghost ns: set<nat>,
      ghost c0: Ctx<nat>, ghost f0: Tree<nat>)
    returns (root': nat, x': nat, xp': nat, ghost c: Ctx<nat>, ghost f: Tree<nat>)
    requires Owing(m0, mem[..], root, ns, c0, f0, x, xp) && DeleteOk(c0, f0) && !IsRed(f0) && c0.InLeft?
    modifies mem
    ensures Owing(m0, mem[..], root', ns, c, f, x', xp') && DeleteOk(c, f) && Debt(c, f) < Debt(c0, f0)
    ensures Inorder(Plug(c, f)) == Inorder(Plug(c0, f0))
  {
    hide Zip, OnlyLinks, RB, Fits, BlackRoot, DeleteOk, Inorder, Plug, Ptr, Off;
    root', c, f := root, c0, f0;
    SiblingView(m0, mem[..], root', ns, c, f, x, xp);
    var w := Ptr(mem[xp + 1]);
    if w != NIL && RedHeader(mem[..], w) {
      Case1LeftOk(c, f);
      root', c := BorrowRedLeft(mem, root', xp, w, x, m0, ns, c, f);
      SiblingView(m0, mem[..], root', ns, c, f, x, xp);
      w := Ptr(mem[xp + 1]);
    }
    root', x', xp', c, f := EraseBlackLeft(mem, root', x, xp, w, m0, ns, c, f);
  }

  /** Cases 2 to 4: the sibling is black. */
  method EraseBlackLeft(mem: array<Word>, root: nat, x: nat, xp: nat, w: nat, ghost m0: seq<Word>, ghost ns: set<nat>,
      ghost c0: Ctx<nat>, ghost f0: Tree<nat>)
    returns (root': nat, x': nat, xp': nat, ghost c: Ctx<nat>, ghost f: Tree<nat>)
    requires Owing(m0, mem[..], root, ns, c0, f0, x, xp) && DeleteOk(c0, f0) && !IsRed(f0) && c0.InLeft?
    requires c0.right.Node? && w == c0.right.id && !IsRed(c0.right)
    modifies mem
    ensures Owing(m0, mem[..], root', ns, c, f, x', xp') && DeleteOk(c, f) && f.Node?
    ensures Inorder(Plug(c, f)) == Inorder(Plug(c0, f0))
    ensures (c == Top && !IsRed(f)) || (c == c0.up && f.color == c0.color)
  {
    hide Zip, OnlyLinks, RB, Fits, BlackRoot, DeleteOk, Inorder, Ptr, Off;
    root', xp' := root, xp;
    SiblingView(m0, mem[..], root', ns, c0, f0, x, xp);
    if (Ptr(mem[w]) == NIL || !RedHeader(mem[..], Ptr(mem[w]))) &&
       (Ptr(mem[w + 1]) == NIL || !RedHeader(mem[..], Ptr(mem[w + 1]))) {
      Case2Ok(c0, f0);
      x', xp' := PushDebtUp(mem, xp, w, root', x, m0, ns, c0, f0);
      c, f := c0.up, Case2Tree(c0, f0);
    } else {
      root', f := SettleDebtLeft(mem, root', xp, w, x, m0, ns, c0, f0);
      c, x' := Top, root';
      RootIs(m0, mem[..], root', ns, f);
    }
  }

  /** Case 1: the sibling is red. */
  method BorrowRedRight(mem: array<Word>, root: nat, xp: nat, w: nat, ghost x: nat, ghost m0: seq<Word>,
      ghost ns: set<nat>, ghost c: Ctx<nat>, ghost f: Tree<nat>)
    returns (root': nat, ghost c': Ctx<nat>)
    requires Owing(m0, mem[..], root, ns, c, f, x, xp) && c.InRight? && c.left.Node? && w == c.left.id
    modifies mem
    ensures c' == InRight(InRight(c.up, c.left.left, c.left.id, Black), c.left.right, c.id, Red)
    ensures Owing(m0, mem[..], root', ns, c', f, x, xp)
  {
    hide Zip, OnlyLinks, Ptr;
    PaintSibling(mem, w, Black, root, m0, ns, c, f);
    ghost var c1 := PaintParent(mem, xp, Red, root, m0, ns, WithSibling(c, Paint(c.left, Black)), f);
    Up(mem[..], root, ns, c1, f);
    root' := RightRotate(mem, root, xp, m0, ns, c.up, UpTree(c1, f));
    c' := InRight(InRight(c.up, c.left.left, c.left.id, Black), c.left.right, c.id, Red);
    assert RotateRight(UpTree(c1, f)) == UpTree(c'.up, UpTree(c', f));
    Up(mem[..], root', ns, c'.up, UpTree(c', f));
    Up(mem[..], root', ns, c', f);
  }

  /** Case 3: the inner nephew is red, the outer one black. */
  method TurnNephewRight(mem: array<Word>, root: nat, w: nat, n: nat, ghost m0: seq<Word>, ghost ns: set<nat>,
      ghost c: Ctx<nat>, ghost f: Tree<nat>)
    returns (root': nat)
    requires State(m0, mem[..], root, ns, c, f) && c.InRight? && c.left.Node? && w == c.left.id
    requires c.left.right.Node? && n == c.left.right.id
    modifies mem
    ensures State(m0, mem[..], root', ns, WithSibling(c, Case3Right(c.left)), f)
  {
    hide Zip, OnlyLinks, Ptr;
    ghost var k, s := SiblingCtx(c, f), c.left;
    ghost var kn := InRight(k, s.left, s.id, s.color);
    Across(mem[..], root, ns, c, f);
    Up(mem[..], root, ns, kn, s.right);
    SetColor(mem, n, Black, root, m0, ns, kn, s.right);
    s := s.(right := Paint(s.right, Black));
    Up(mem[..], root, ns, kn, s.right);
    SetColor(mem, w, Red, root, m0, ns, k, s);
    root' := LeftRotate(mem, root, w, m0, ns, k, Paint(s, Red));
    Across(mem[..], root', ns, WithSibling(c, Case3Right(c.left)), f);
  }

  /** Case 4: the outer nephew is red; the rotation settles the debt. */
  method SettleRight(mem: array<Word>, root: nat, xp: nat, w: nat, n: nat, col: Color, ghost m0: seq<Word>,
      ghost ns: set<nat>, ghost c: Ctx<nat>, ghost f: Tree<nat>)
    returns (root': nat)
    requires State(m0, mem[..], root, ns, c, f) && c.InRight? && c.left.Node? && w == c.left.id && xp == c.id
    requires c.left.left.Node? && n == c.left.left.id && col == c.color
    modifies mem
    ensures State(m0, mem[..], root', ns, Top, Plug(c.up, RotateRight(Case4Right(c, f))))
  {
    hide Zip, OnlyLinks, Ptr;
    PaintSibling(mem, w, col, root, m0, ns, c, f);
    ghost var c1 := PaintParent(mem, xp, Black, root, m0, ns, WithSibling(c, Paint(c.left, col)), f);
    ghost var k, s := SiblingCtx(c1, f), c1.left;
    ghost var kn := InLeft(k, s.id, s.color, s.right);
    Across(mem[..], root, ns, c1, f);
    Up(mem[..], root, ns, kn, s.left);
    SetColor(mem, n, Black, root, m0, ns, kn, s.left);
    s := s.(left := Paint(s.left, Black));
    Up(mem[..], root, ns, kn, s.left);
    Across(mem[..], root, ns, WithSibling(c1, s), f);
    Up(mem[..], root, ns, WithSibling(c1, s), f);
    root' := RightRotate(mem, root, xp, m0, ns, c.up, Case4Right(c, f));
    Whole(mem[..], root', ns, c.up, RotateRight(Case4Right(c, f)));
  }

  /** Cases 3 and 4. */
  method SettleDebtRight(mem: array<Word>, root: nat, xp: nat, sibling: nat, ghost x: nat, ghost m0: seq<Word>,
      ghost ns: set<nat>, ghost c0: Ctx<nat>, ghost f: Tree<nat>)
    returns (root': nat, ghost t: Tree<nat>)
    requires Owing(m0, mem[..], root, ns, c0, f, x, xp) && DeleteOk(c0, f) && !IsRed(f) && c0.InRight?
    requires c0.left.Node? && sibling == c0.left.id && !IsRed(c0.left) && (IsRed(c0.left.left) || IsRed(c0.left.right))
    modifies mem
    ensures State(m0, mem[..], root', ns, Top, t) && DeleteOk(Top, t) && !IsRed(t) && t.Node? &&
      Inorder(t) == Inorder(Plug(c0, f))
  {
    hide Zip, OnlyLinks, RB, Fits, BlackRoot, DeleteOk, Inorder, Plug, Ptr, Off;
    root' := root;
    var w := sibling;
    ghost var c := c0;
    SiblingView(m0, mem[..], root', ns, c, f, x, xp);
    if Ptr(mem[w]) == NIL || !RedHeader(mem[..], Ptr(mem[w])) {
      Case3RightOk(c, f);
      root' := TurnNephewRight(mem, root', w, Ptr(mem[w + 1]), m0, ns, c, f);
      c := WithSibling(c, Case3Right(c.left));
      SiblingView(m0, mem[..], root', ns, c, f, x, xp);
      w := Ptr(mem[xp]);
    }
    Case4RightOk(c, f);
    t := Plug(c.up, RotateRight(Case4Right(c, f)));
    root' := SettleRight(mem, root', xp, w, Ptr(mem[w]), ColorAt(mem[..], xp), m0, ns, c, f);
  }

  /** One pass of the loop, for a focus that is a right child. */
  method EraseStepRight(mem: array<Word>, root: nat, x: nat, xp: nat, ghost m0: seq<Word>, ghost ns: set<nat>,
      ghost c0: Ctx<nat>, ghost f0: Tree<nat>)
    returns (root': nat, x': nat, xp': nat, ghost c: Ctx<nat>, ghost f: Tree<nat>)
    requires Owing(m0, mem[..], root, ns, c0, f0, x, xp) && DeleteOk(c0, f0) && !IsRed(f0) && c0.InRight?
    modifies mem
    ensures Owing(m0, mem[..], root', ns, c, f, x', xp') && DeleteOk(c, f) && Debt(c, f) < Debt(c0, f0)
    ensures Inorder(Plug(c, f)) == Inorder(Plug(c0, f0))
  {
    hide Zip, OnlyLinks, RB, Fits, BlackRoot, DeleteOk, Inorder, Plug, Ptr, Off;
    root', c, f := root, c0, f0;
    SiblingView(m0, mem[..], root', ns, c, f, x, xp);
    var w := Ptr(mem[xp]);
    if w != NIL && RedHeader(mem[..], w) {
      Case1RightOk(c, f);
      root', c := BorrowRedRight(mem, root', xp, w, x, m0, ns, c, f);
      SiblingView(m0, mem[..], root', ns, c, f, x, xp);
      w := Ptr(mem[xp]);
    }
    root', x', xp', c, f := EraseBlackRight(mem, root', x, xp, w, m0, ns, c, f);
  }

  /** Cases 2 to 4: the sibling is black. */
  method EraseBlackRight(mem: array<Word>, root: nat, x: nat, xp: nat, w: nat, ghost m0: seq<Word>, ghost ns: set<nat>,
      ghost c0: Ctx<nat>, ghost f0: Tree<nat>)
    returns (root': nat, x': nat, xp': nat, ghost c: Ctx<nat>, ghost f: Tree<nat>)
    requires Owing(m0, mem[..], root, ns, c0, f0, x, xp) && DeleteOk(c0, f0) && !IsRed(f0) && c0.InRight?
    requires c0.left.Node? && w == c0.left.id && !IsRed(c0.left)
    modifies mem
    ensures Owing(m0, mem[..], root', ns, c, f, x', xp') && DeleteOk(c, f) && f.Node?
    ensures Inorder(Plug(c, f)) == Inorder(Plug(c0, f0))
    ensures (c == Top && !IsRed(f)) || (c == c0.up && f.color == c0.color)
  {
    hide Zip, OnlyLinks, RB, Fits, BlackRoot, DeleteOk, Inorder, Ptr, Off;
    root', xp' := root, xp;
    SiblingView(m0, mem[..], root', ns, c0, f0, x, xp);
    if (Ptr(mem[w + 1]) == NIL || !RedHeader(mem[..], Ptr(mem[w + 1]))) &&
       (Ptr(mem[w]) == NIL || !RedHeader(mem[..], Ptr(mem[w]))) {
      Case2Ok(c0, f0);
      x', xp' := PushDebtUp(mem, xp, w, root', x, m0, ns, c0, f0);
      c, f := c0.up, Case2Tree(c0, f0);
    } else {
      root', f := SettleDebtRight(mem, root', xp, w, x, m0, ns, c0, f0);
      c, x' := Top, root';
      RootIs(m0, mem[..], root', ns, f);
    }
  }

  /** rb_delete_fixup */
  method EraseFixup(mem: array<Word>, root: nat, x0: nat, xp0: nat, ghost m0: seq<Word>, ghost ns: set<nat>,
      ghost c0: Ctx<nat>, ghost f0: Tree<nat>)
    returns (root': nat, ghost t: Tree<nat>)
    requires Owing(m0, mem[..], root, ns, c0, f0, x0, xp0) && DeleteOk(c0, f0)
    modifies mem
    ensures State(m0, mem[..], root', ns, Top, t) && RedBlack(t) && Inorder(t) == Inorder(Plug(c0, f0))
  {
    hide State, RedBlack, DeleteOk, Inorder, Plug, Ptr, Off;
    root' := root;
    var x, xp := x0, xp0;
    ghost var c, f := c0, f0;
    OwingView(m0, mem[..], root', ns, c, f, x, xp);
    while x != root' && (x == NIL || !RedHeader(mem[..], x))
      invariant Owing(m0, mem[..], root', ns, c, f, x, xp) && DeleteOk(c, f) &&
        Inorder(Plug(c, f)) == Inorder(Plug(c0, f0))
      invariant (x == NIL <==> f.Leaf?) && (x == root' <==> c.Top?) &&
        (x != NIL ==> At(mem[..], x) && (RedHeader(mem[..], x) <==> IsRed(f)))
      decreases Debt(c, f)
    {
      SiblingView(m0, mem[..], root', ns, c, f, x, xp);
      if x == Ptr(mem[xp]) {
        root', x, xp, c, f := EraseStepLeft(mem, root', x, xp, m0, ns, c, f);
      } else {
        root', x, xp, c, f := EraseStepRight(mem, root', x, xp, m0, ns, c, f);
      }
      OwingView(m0, mem[..], root', ns, c, f, x, xp);
    }
    DeleteDone(c, f);
    t := BlackenFocus(mem, x, root', m0, ns, c, f);
  }

  /** The last line of rb_delete_fixup. */
  method BlackenFocus(mem: array<Word>, x: nat, ghost root: nat, ghost m0: seq<Word>, ghost ns: set<nat>,
      ghost c: Ctx<nat>, ghost f: Tree<nat>)
    returns (ghost t: Tree<nat>)
    requires State(m0, mem[..], root, ns, c, f) && x == RootId(f, NIL) && (x == NIL <==> f.Leaf?)
    modifies mem
    ensures t == Plug(c, Paint(f, Black)) && State(m0, mem[..], root, ns, Top, t)
  {
    hide Zip, OnlyLinks;
    if x != NIL {
      SetColor(mem, x, Black, root, m0, ns, c, f);
    }
    t := Plug(c, Paint(f, Black));
    Whole(mem[..], root, ns, c, Paint(f, Black));
  }

  // ------------------------------------------------------------- unlinking a node

  /** Memory after TRANSPLANT. */
  function Moved(m: seq<Word>, c: Ctx<nat>, v: nat): seq<Word>
    requires NIL <= v && (!c.Top? ==> NIL <= c.id && c.id + 2 < |m|) && (v != NIL ==> v + 2 < |m|)
  {
    if v == NIL then Hung(m, c, v) else SetP(Hung(m, c, v), v, CtxId(c, NIL))
  }

  /** TRANSPLANT: hangs `v`, which may be NIL, where `u` hangs. */
  method Transplant(mem: array<Word>, root: nat, u: nat, v: nat, ghost c: Ctx<nat>) returns (root': nat)
    requires At(mem[..], u) && NIL <= v && (v != NIL ==> At(mem[..], v)) && Ptr(mem[u + 2]) == CtxId(c, NIL)
    requires !c.Top? ==> At(mem[..], c.id) && Clear(c.id, u) && (Ptr(mem[c.id]) == u <==> c.InLeft?)
    modifies mem
    ensures root' == NewRoot(c, v, root) && mem[..] == Moved(old(mem[..]), c, v)
  {
    hide Ptr, Off;
    root' := ReplaceChild(mem, root, u, v, c);
    if v != NIL {
      mem[v + 2] := Off(Ptr(mem[u + 2]));
    }
  }

  /** The tree above a focus that has given way to one of its children. */
  lemma MovedRep(m: seq<Word>, root: nat, ns: set<nat>, c: Ctx<nat>, f: Tree<nat>, v: Tree<nat>)
    requires Zip(m, root, ns, c, f) && f.Node? && (v == f.left || v == f.right)
    ensures (!c.Top? ==> c.id in ns && NIL <= c.id && c.id + 2 < |m|) &&
      (v.Node? ==> v.id in ns && NIL < v.id && v.id + 2 < |m|)
    ensures Zip(Moved(m, c, RootId(v, NIL)), NewRoot(c, RootId(v, NIL), root), ns, c, v)
    ensures OnlyLinks(m, Moved(m, c, RootId(v, NIL)), ns) && |Moved(m, c, RootId(v, NIL))| == |m|
  {
    hide Ptr, OnlyLinks, CellAt, Cells, SetP, Hung, Rep, RepTree, RepCtx, CtxIds, Ids;
    Focus(m, root, ns, c, f);
    if !c.Top? { Around(m, root, ns, c, f); }
    TopIn(f);
    var s, m1 := Cells(m, ns), Hung(m, c, RootId(v, NIL));
    HungCells(m, ns, c, RootId(v, NIL));
    AdoptedCells(m1, ns, v, CtxId(c, NIL));
    OnlyLinksTrans(m, m1, Moved(m, c, RootId(v, NIL)), ns);
    CellsKeys(m, ns);
    MovedStore(s, root, c, f, v);
  }

  lemma CellsKeys(m: seq<Word>, ns: set<nat>)
    ensures Cells(m, ns).Keys == ns
  {
  }

  lemma MovedStore(s: Store<nat>, root: nat, c: Ctx<nat>, f: Tree<nat>, v: Tree<nat>)
    requires Rep(s, NIL, root, c, f) && f.Node? && (v == f.left || v == f.right)
    requires (!c.Top? ==> c.id in s) && (v.Node? ==> v.id in s)
    ensures Rep(PutTop(PutHole(s, c, RootId(v, NIL)), v, CtxId(c, NIL)), NIL, NewRoot(c, RootId(v, NIL), root), c, v)
  {
    hide RepTree, RepCtx, CtxIds;
    TopInFocus(c, f, v);
    TransplantRep(s, PutTop(PutHole(s, c, RootId(v, NIL)), v, CtxId(c, NIL)), NIL, root, c, f, v);
  }

  lemma TopInFocus(c: Ctx<nat>, f: Tree<nat>, v: Tree<nat>)
    requires ZipDistinct(c, f) && f.Node? && (v == f.left || v == f.right)
    ensures v.Node? && !c.Top? ==> v.id != c.id
  {
    if v.Node? { assert v.id in Ids(v); }
  }

  /** What TRANSPLANT reads when the focus gives way to one of its children. */
  lemma MoveIsReady(m: seq<Word>, root: nat, ns: set<nat>, c: Ctx<nat>, f: Tree<nat>, v: Tree<nat>)
    requires Zip(m, root, ns, c, f) && f.Node? && (v == f.left || v == f.right)
    ensures At(m, f.id) && (v.Node? ==> At(m, v.id) && RootId(v, NIL) != NIL) && Ptr(m[f.id + 2]) == CtxId(c, NIL)
    ensures !c.Top? ==> At(m, c.id) && Clear(c.id, f.id) && (Ptr(m[c.id]) == f.id <==> c.InLeft?)
  {
    hide Ptr, RepTree, RepCtx, Cells;
    Focus(m, root, ns, c, f);
    if !c.Top? { Around(m, root, ns, c, f); }
  }

  /** Cases 1 and 2 of tree_erase: `z` has at most one child, which takes its place. */
  method SpliceOut(mem: array<Word>, root: nat, z: nat, x: nat, ghost m0: seq<Word>, ghost ns: set<nat>,
      ghost c: Ctx<nat>, ghost f: Tree<nat>, ghost v: Tree<nat>)
    returns (root': nat, xp: nat)
    requires State(m0, mem[..], root, ns, c, f) && f.Node? && f.id == z && x == RootId(v, NIL)
    requires (f.left.Leaf? && v == f.right) || (f.right.Leaf? && v == f.left)
    modifies mem
    ensures Owing(m0, mem[..], root', ns, c, v, x, xp)
  {
    hide Ptr, Zip, OnlyLinks, Moved;
    ghost var m := mem[..];
    MoveIsReady(m, root, ns, c, f, v);
    MovedRep(m, root, ns, c, f, v);
    OnlyLinksTrans(m0, m, Moved(m, c, RootId(v, NIL)), ns);
    xp := Ptr(mem[z + 2]);
    root' := Transplant(mem, root, z, x, c);
  }

  // ------------------------------------------------------------- the successor

  lemma SuccessorZip(m: seq<Word>, root: nat, ns: set<nat>, c: Ctx<nat>, f: Tree<nat>, k: Ctx<nat>, g: Tree<nat>)
    requires Zip(m, root, ns, c, f) && f.Node? && f.right == Plug(k, g)
    ensures Zip(m, root, ns, SuccessorCtx(c, f, f.id, k), g)
    ensures k.Top? ==> SuccessorCtx(c, f, f.id, k) == InRight(c, f.left, f.id, f.color)
    ensures !k.Top? ==> SuccessorCtx(c, f, f.id, k).id == k.id && k.id != f.id
  {
    var kp := InRight(c, f.left, f.id, f.color);
    Up(m, root, ns, kp, f.right);
    ZipCompose(Cells(m, ns), NIL, root, k, kp, g);
    if !k.Top? {
      PlugIds(k, g);
      assert k.id in Ids(f.right);
    }
  }

  lemma SuccessorWords(m: seq<Word>, root: nat, ns: set<nat>, c: Ctx<nat>, f: Tree<nat>, k: Ctx<nat>, g: Tree<nat>)
    requires Zip(m, root, ns, c, f) && f.Node? && f.right == Plug(k, g) && g.Node?
    ensures At(m, g.id) && Ptr(m[g.id]) == RootId(g.left, NIL) && Ptr(m[g.id + 1]) == RootId(g.right, NIL)
    ensures (g.left.Node? ==> g.left.id != NIL) && (g.right.Node? ==> g.right.id != NIL)
    ensures Ptr(m[g.id + 2]) == (if k.Top? then f.id else k.id) && (Ptr(m[g.id + 2]) == f.id <==> k.Top?)
    ensures ColorAt(m, g.id) == g.color
  {
    hide Ptr, Zip;
    SuccessorZip(m, root, ns, c, f, k, g);
    Focus(m, root, ns, SuccessorCtx(c, f, f.id, k), g);
  }

  /** The leftmost node below the right child. */
  method Successor(mem: array<Word>, z: nat, ghost root: nat, ghost m0: seq<Word>, ghost ns: set<nat>,
      ghost c: Ctx<nat>, ghost f: Tree<nat>)
    returns (y: nat, ghost k: Ctx<nat>, ghost g: Tree<nat>)
    requires State(m0, mem[..], root, ns, c, f) && f.Node? && f.id == z && f.right.Node?
    ensures f.right == Plug(k, g) && Before(k) == [] && g.Node? && g.id == y && g.left.Leaf?
  {
    hide Ptr, Zip, OnlyLinks;
    Focus(mem[..], root, ns, c, f);
    y := Ptr(mem[z + 1]);
    k, g := Top, f.right;
    SuccessorWords(mem[..], root, ns, c, f, k, g);
    while Ptr(mem[y]) != NIL
      invariant f.right == Plug(k, g) && Before(k) == [] && g.Node? && g.id == y
      invariant At(mem[..], y) && Ptr(mem[y]) == RootId(g.left, NIL) && (g.left.Node? ==> g.left.id != NIL)
      decreases g
    {
      y := Ptr(mem[y]);
      k, g := InLeft(k, g.id, g.color, g.right), g.left;
      SuccessorWords(mem[..], root, ns, c, f, k, g);
    }
  }

  /** What is known once the successor `y` has left its place below `p`; `s` is the store of the
      tree without `y`, and the right subtree `r` of `p` has already been given to `y`. */
  ghost predicate SuccessorOut(m: seq<Word>, ns: set<nat>, p: nat, y: nat, s: Store<nat>, r: Tree<nat>) {
    Spaced(m, ns) && s.Keys == ns && p in ns && y in ns && p != y &&
    var now := Cells(m, ns);
    SameOutside(s, now, {p, y} + TopIds(r)) && now[y].right == RootId(r, NIL) &&
    now[p].left == s[p].left && now[p].parent == s[p].parent && now[p].color == s[p].color &&
    (r.Node? ==> r.id in ns && r.id != p && r.id != y && now[r.id] == s[r.id].(parent := y))
  }

  /** Memory after the second half of case 3. */
  function TakenMem(m: seq<Word>, c: Ctx<nat>, l: Tree<nat>, y: nat, col: Color): seq<Word>
    requires (!c.Top? ==> NIL <= c.id && c.id + 2 < |m|) && NIL < y && y + 2 < |m| && l.Node? && NIL < l.id &&
      l.id + 2 < |m|
  {
    SetC(SetP(SetL(Moved(m, c, y), y, l.id), l.id, y), y, col)
  }

  lemma TakenCells(m: seq<Word>, ns: set<nat>, c: Ctx<nat>, l: Tree<nat>, y: nat, col: Color)
    requires Spaced(m, ns) && (!c.Top? ==> c.id in ns) && y in ns && l.Node? && l.id in ns
    ensures (!c.Top? ==> NIL <= c.id && c.id + 2 < |m|) && NIL < y && y + 2 < |m| && NIL < l.id && l.id + 2 < |m|
    ensures var m' := TakenMem(m, c, l, y, col);
      Spaced(m', ns) && OnlyLinks(m, m', ns) &&
      Cells(m', ns) == TakenLinks(Cells(m, ns), c, l, y, col)
  {
    hide Ptr, Off, OnlyLinks, CellAt, SetL, SetR, SetP, SetC, Hung;
    var m1 := Hung(m, c, y);
    HungCells(m, ns, c, y);
    var m2 := SetP(m1, y, CtxId(c, NIL));
    SetPCells(m1, ns, y, CtxId(c, NIL));
    var m3 := SetL(m2, y, l.id);
    SetLCells(m2, ns, y, l.id);
    var m4 := SetP(m3, l.id, y);
    SetPCells(m3, ns, l.id, y);
    SetCCells(m4, ns, y, col);
    OnlyLinksTrans(m, m1, m2, ns); OnlyLinksTrans(m, m2, m3, ns); OnlyLinksTrans(m, m3, m4, ns);
    OnlyLinksTrans(m, m4, SetC(m4, y, col), ns);
  }

  ghost function TakenLinks(s: Store<nat>, c: Ctx<nat>, l: Tree<nat>, y: nat, col: Color): Store<nat>
    requires (!c.Top? ==> c.id in s) && y in s && l.Node? && l.id in s
  {
    PutColor(PutParent(PutLeft(PutParent(PutHole(s, c, y), y, CtxId(c, NIL)), y, l.id), l.id, y), y, col)
  }

  lemma TakenStore(s: Store<nat>, now: Store<nat>, root: nat, c: Ctx<nat>, t: Tree<nat>, y: nat)
    requires Rep(s, NIL, root, c, t) && t.Node? && t.left.Node? && y !in CtxIds(c) && y !in Ids(t)
    requires s.Keys == now.Keys && y in s && SameOutside(s, now, {t.id, y} + TopIds(t.right)) &&
      now[y].right == RootId(t.right, NIL)
    requires t.right.Node? ==> t.right.id in s && now[t.right.id] == s[t.right.id].(parent := y)
    ensures (!c.Top? ==> c.id in s) && t.left.id in s && (t.right.Node? ==> t.right.id in s)
    ensures var s' := TakenLinks(now, c, t.left, y, t.color);
      SameOutside(s, s', {y, t.id} + HoleIds(c) + TopIds(t.left) + TopIds(t.right)) &&
      Rehung(s, s', c, y) && Reparented(s, s', t.left, y) && Reparented(s, s', t.right, y) &&
      CellIs(s', y, Cell(RootId(t.left, NIL), RootId(t.right, NIL), CtxId(c, NIL), t.color))
  {
    hide RepTree, RepCtx, SameOutside;
    HoleWords(s, root, c, t);
    var ks := {t.id, y} + TopIds(t.right);
    if !c.Top? { FrameCell(s, now, ks, c.id); }
    FrameCell(s, now, ks, t.left.id);
    TakenOutside(now, c, t.left, y, t.color);
    SameOutsideTrans(s, now, TakenLinks(now, c, t.left, y, t.color), ks, {y} + HoleIds(c) + TopIds(t.left));
    assert ks + ({y} + HoleIds(c) + TopIds(t.left)) == {y, t.id} + HoleIds(c) + TopIds(t.left) + TopIds(t.right);
  }

  lemma TakenOutside(s: Store<nat>, c: Ctx<nat>, l: Tree<nat>, y: nat, col: Color)
    requires (!c.Top? ==> c.id in s) && y in s && l.Node? && l.id in s
    ensures SameOutside(s, TakenLinks(s, c, l, y, col), {y} + HoleIds(c) + TopIds(l))
  {
  }

  lemma TakenRep(m: seq<Word>, root: nat, ns: set<nat>, c: Ctx<nat>, t: Tree<nat>, y: nat, s: Store<nat>)
    requires Rep(s, NIL, root, c, t) && t.Node? && t.left.Node? && SuccessorOut(m, ns, t.id, y, s, t.right)
    requires CtxIds(c) + Ids(t) <= ns && y !in CtxIds(c) && y !in Ids(t)
    ensures (!c.Top? ==> c.id in ns) && t.left.id in ns && (!c.Top? ==> NIL <= c.id && c.id + 2 < |m|)
    ensures NIL < y && y + 2 < |m| && NIL < t.left.id && t.left.id + 2 < |m|
    ensures Zip(TakenMem(m, c, t.left, y, t.color), NewRoot(c, y, root), ns, c, t.(id := y))
    ensures OnlyLinks(m, TakenMem(m, c, t.left, y, t.color), ns)
  {
    hide Ptr, OnlyLinks, CellAt, RepTree, RepCtx, TakenMem, TakenLinks, SameOutside, Rehung, Reparented;
    HoleWords(s, root, c, t);
    TakenCells(m, ns, c, t.left, y, t.color);
    TakenStore(s, Cells(m, ns), root, c, t, y);
    ReplaceRep(s, Cells(TakenMem(m, c, t.left, y, t.color), ns), NIL, root, c, t, y);
  }

  lemma HoleWords(s: Store<nat>, root: nat, c: Ctx<nat>, t: Tree<nat>)
    requires Rep(s, NIL, root, c, t) && t.Node?
    ensures t.id in s && s[t.id] == Cell(RootId(t.left, NIL), RootId(t.right, NIL), CtxId(c, NIL), t.color)
    ensures !c.Top? ==> c.id in s && c.id in CtxIds(c) && c.id != t.id && c.id !in Ids(t)
    ensures c.InLeft? ==> s[c.id].left == t.id
    ensures c.InRight? ==> s[c.id].right == t.id && s[c.id].left != t.id
    ensures t.left.Node? ==> t.left.id in s && t.left.id in Ids(t) && t.left.id != t.id && t.left.id != NIL
    ensures t.right.Node? ==> t.right.id in s && t.right.id in Ids(t) && t.right.id != t.id && t.right.id != NIL
    ensures t.left.Node? && t.right.Node? ==> t.left.id != t.right.id
    ensures t.right.Node? ==> s[t.right.id].parent == t.id
  {
    RepIds(s, NIL, t, CtxId(c, NIL));
    assert t.right.Node? ==> RepTree(s, NIL, t.right, t.id);
    assert t.left.Node? ==> t.left.id in Ids(t.left);
    assert t.right.Node? ==> t.right.id in Ids(t.right);
  }

  /** The successor is the right child itself: memory already reads as if it were out. */
  lemma ChildOut(m: seq<Word>, root: nat, ns: set<nat>, c: Ctx<nat>, f: Tree<nat>, g: Tree<nat>) returns (s: Store<nat>)
    requires Zip(m, root, ns, c, f) && f.Node? && f.right == g && g.Node? && g.left.Leaf?
    ensures Rep(s, NIL, root, c, WithoutSuccessor(f, Top, g)) && SuccessorOut(m, ns, f.id, g.id, s, g.right)
  {
    hide Rep, RepTree, RepCtx, CellAt, CtxIds, Ids;
    var now, p, x := Cells(m, ns), f.id, RootId(g.right, NIL);
    SuccessorZip(m, root, ns, c, f, Top, g);
    HoleWords(now, root, c, f);
    HoleWords(now, root, SuccessorCtx(c, f, p, Top), g);
    s := PutTop(PutRight(now, p, x), g.right, p);
    UnlinkRep(now, s, NIL, root, c, f, Top, g);
  }

  lemma DeeperOut(m: seq<Word>, root: nat, ns: set<nat>, c: Ctx<nat>, f: Tree<nat>, k: Ctx<nat>, g: Tree<nat>)
      returns (m1: seq<Word>)
    requires Zip(m, root, ns, c, f) && f.Node? && f.right == Plug(k, g) && g.Node? && g.left.Leaf? && !k.Top?
    ensures var kc, x := SuccessorCtx(c, f, f.id, k), RootId(g.right, NIL);
      !kc.Top? && NIL <= kc.id && kc.id + 2 < |m| && NIL <= x && (x != NIL ==> x + 2 < |m|) && m1 == Moved(m, kc, x) &&
        |m1| == |m|
    ensures var r := Plug(k, g.right);
      r.Node? && r.id in ns && g.id in ns && g.id != r.id && f.id != r.id && f.id != g.id && At(m, g.id) &&
        At(m, r.id) &&
      Ptr(m1[f.id + 1]) == r.id && Zip(m1, root, ns, c, WithoutSuccessor(f, k, g)) && OnlyLinks(m, m1, ns)
  {
    hide Ptr, OnlyLinks, RepTree, RepCtx, Moved, Rep, Cells;
    var kc, r := SuccessorCtx(c, f, f.id, k), Plug(k, g.right);
    SuccessorZip(m, root, ns, c, f, k, g);
    Focus(m, root, ns, kc, g);
    MovedRep(m, root, ns, kc, g, g.right);
    m1 := Moved(m, kc, RootId(g.right, NIL));
    UnlinkedZip(m, m1, root, ns, c, f, k, g);
    Focus(m1, root, ns, c, WithoutSuccessor(f, k, g));
    PlugNode(k, g.right);
  }

  lemma UnlinkedZip(m: seq<Word>, m1: seq<Word>, root: nat, ns: set<nat>, c: Ctx<nat>, f: Tree<nat>, k: Ctx<nat>,
      g: Tree<nat>)
    requires Zip(m, root, ns, c, f) && f.Node? && f.right == Plug(k, g) && g.Node? && g.left.Leaf? && !k.Top?
    requires Zip(m1, root, ns, SuccessorCtx(c, f, f.id, k), g.right) && |m1| == |m|
    ensures Zip(m1, root, ns, c, WithoutSuccessor(f, k, g)) && f.id in ns && g.id in ns && f.id != g.id
    ensures g.id !in CtxIds(c) && g.id !in Ids(WithoutSuccessor(f, k, g))
    ensures var r := Plug(k, g.right); r.Node? && r.id in ns && r.id != g.id && r.id != f.id
  {
    WithoutSuccessorIds(c, f, k, g);
    PlugNode(k, g.right);
    var r := Plug(k, g.right);
    assert r.id in Ids(r);
    hide Rep, RepTree, RepCtx;
    WithoutRep(Cells(m1, ns), NIL, root, c, f, k, g);
    ZipIs(m1, root, ns, c, WithoutSuccessor(f, k, g));
  }

  /** The order of a zipper implies distinctness. */
  lemma ZipIs(m: seq<Word>, root: nat, ns: set<nat>, c: Ctx<nat>, f: Tree<nat>)
    requires Rep(Cells(m, ns), NIL, root, c, f)
    ensures ZipDistinct(c, f)
  {
  }

  lemma DeeperReady(m: seq<Word>, root: nat, ns: set<nat>, c: Ctx<nat>, f: Tree<nat>, k: Ctx<nat>, g: Tree<nat>)
    requires Zip(m, root, ns, c, f) && f.Node? && f.right == Plug(k, g) && g.Node? && !k.Top?
    ensures var kc := SuccessorCtx(c, f, f.id, k);
      At(m, g.id) && Ptr(m[g.id + 2]) == CtxId(kc, NIL) && At(m, kc.id) && Clear(kc.id, g.id) &&
      (Ptr(m[kc.id]) == g.id <==> kc.InLeft?) && (g.right.Node? ==> At(m, g.right.id)) &&
        Ptr(m[g.id + 1]) == RootId(g.right, NIL)
  {
    hide Ptr, RepTree, RepCtx, Rep, Cells;
    SuccessorZip(m, root, ns, c, f, k, g);
    MoveIsReady(m, root, ns, SuccessorCtx(c, f, f.id, k), g, g.right);
    Focus(m, root, ns, SuccessorCtx(c, f, f.id, k), g);
  }

  lemma OutIs(m1: seq<Word>, root: nat, ns: set<nat>, c: Ctx<nat>, t: Tree<nat>, y: nat)
    requires Zip(m1, root, ns, c, t) && t.Node? && t.right.Node? && y in ns && t.id in ns && t.right.id in ns
    requires y != t.id && y != t.right.id && t.id != t.right.id && t.right.id > NIL && y > NIL && y + 2 < |m1| &&
      t.right.id + 2 < |m1|
    ensures var m3 := SetP(SetR(m1, y, t.right.id), t.right.id, y);
      SuccessorOut(m3, ns, t.id, y, Cells(m1, ns), t.right) && OnlyLinks(m1, m3, ns)
  {
    hide Ptr, Off, OnlyLinks, CellAt, SetR, SetP, RepTree, RepCtx, Rep;
    var r := t.right.id;
    SetRCells(m1, ns, y, r);
    SetPCells(SetR(m1, y, r), ns, r, y);
    OnlyLinksTrans(m1, SetR(m1, y, r), SetP(SetR(m1, y, r), r, y), ns);
  }

  /** First half of case 3: unlinks the successor from its old place. */
  method UnlinkSuccessor(mem: array<Word>, root: nat, z: nat, y: nat, ghost m0: seq<Word>, ghost ns: set<nat>,
      ghost c: Ctx<nat>, ghost f: Tree<nat>, ghost k: Ctx<nat>, ghost g: Tree<nat>)
    returns (root': nat, x: nat, xp: nat, ghost s: Store<nat>)
    requires State(m0, mem[..], root, ns, c, f) && f.Node? && f.id == z && f.right == Plug(k, g)
    requires g.Node? && g.id == y && g.left.Leaf?
    modifies mem
    ensures root' == root && x == RootId(g.right, NIL) && xp == (if k.Top? then y else k.id)
    ensures Rep(s, NIL, root, c, WithoutSuccessor(f, k, g)) && SuccessorOut(mem[..], ns, z, y, s, Plug(k, g.right))
    ensures OnlyLinks(m0, mem[..], ns)
  {
    hide Ptr, Off, OnlyLinks, SuccessorOut, Rep, Moved;
    ghost var m := mem[..];
    root' := root;
    SuccessorWords(m, root, ns, c, f, k, g);
    x := Ptr(mem[y + 1]);
    if Ptr(mem[y + 2]) == z {
      xp := y;
      s := ChildOut(m, root, ns, c, f, g);
    } else {
      xp := Ptr(mem[y + 2]);
      root', s := UnlinkDeeper(mem, root, z, y, x, m0, ns, c, f, k, g);
    }
  }

  method UnlinkDeeper(mem: array<Word>, root: nat, z: nat, y: nat, x: nat, ghost m0: seq<Word>, ghost ns: set<nat>,
      ghost c: Ctx<nat>, ghost f: Tree<nat>, ghost k: Ctx<nat>, ghost g: Tree<nat>)
    returns (root': nat, ghost s: Store<nat>)
    requires State(m0, mem[..], root, ns, c, f) && f.Node? && f.id == z && f.right == Plug(k, g) && !k.Top?
    requires g.Node? && g.id == y && g.left.Leaf? && x == RootId(g.right, NIL)
    modifies mem
    ensures root' == root
    ensures Rep(s, NIL, root, c, WithoutSuccessor(f, k, g)) && SuccessorOut(mem[..], ns, z, y, s, Plug(k, g.right))
    ensures OnlyLinks(m0, mem[..], ns)
  {
    hide Ptr, Off, OnlyLinks, SuccessorOut, Rep, Moved, Plug;
    ghost var m := mem[..];
    ghost var m1 := DeeperOut(m, root, ns, c, f, k, g);
    DeeperReady(m, root, ns, c, f, k, g);
    Focus(m, root, ns, c, f);
    root' := Transplant(mem, root, y, x, SuccessorCtx(c, f, z, k));
    s := Cells(m1, ns);
    ghost var t := WithoutSuccessor(f, k, g);
    OutIs(m1, root, ns, c, t, y);
    OnlyLinksTrans(m0, m, m1, ns);
    OnlyLinksTrans(m0, m1, SetP(SetR(m1, y, t.right.id), t.right.id, y), ns);
    AdoptRight(mem, z, y, t.right.id);
  }

  method AdoptRight(mem: array<Word>, z: nat, y: nat, ghost r: nat)
    requires At(mem[..], z) && At(mem[..], y) && At(mem[..], r) && Ptr(mem[z + 1]) == r
    modifies mem
    ensures mem[..] == SetP(SetR(old(mem[..]), y, r), r, y)
  {
    hide Ptr, Off;
    mem[y + 1] := Off(Ptr(mem[z + 1]));
    if Ptr(mem[y + 1]) != NIL {
      mem[Ptr(mem[y + 1]) + 2] := Off(y);
    }
  }

  // ------------------------------------------------------------- the successor takes the place

  /** What the second half of case 3 reads. */
  lemma TakeIsReady(m: seq<Word>, root: nat, ns: set<nat>, c: Ctx<nat>, t: Tree<nat>, y: nat, s: Store<nat>)
    requires Rep(s, NIL, root, c, t) && t.Node? && t.left.Node? && SuccessorOut(m, ns, t.id, y, s, t.right)
    requires y !in CtxIds(c) && y !in Ids(t)
    ensures At(m, t.id) && At(m, y) && At(m, t.left.id) && Clear(y, t.id) && Clear(y, t.left.id) &&
      Clear(t.id, t.left.id)
    ensures Ptr(m[t.id + 2]) == CtxId(c, NIL) && Ptr(m[t.id]) == t.left.id && ColorAt(m, t.id) == t.color
    ensures !c.Top? ==> At(m, c.id) && Clear(c.id, t.id) && Clear(c.id, y) && (Ptr(m[c.id]) == t.id <==> c.InLeft?)
    ensures !c.Top? ==> c.id != t.left.id && Clear(c.id, t.left.id)
  {
    hide Ptr, RepTree, RepCtx, SameOutside;
    HoleWords(s, root, c, t);
    var now, ks := Cells(m, ns), {t.id, y} + TopIds(t.right);
    if !c.Top? { FrameCell(s, now, ks, c.id); }
  }

  /** Second half of case 3: `y` takes the place, left subtree and colour of `z`. */
  method TakePlace(mem: array<Word>, root: nat, z: nat, y: nat, ghost c: Ctx<nat>, ghost l: Tree<nat>,
      ghost col: Color) returns (root': nat)
    requires l.Node? && At(mem[..], z) && At(mem[..], y) && At(mem[..], l.id) && Clear(y, z) && Clear(y, l.id) &&
      Clear(z, l.id)
    requires Ptr(mem[z + 2]) == CtxId(c, NIL) && Ptr(mem[z]) == l.id && ColorAt(mem[..], z) == col
    requires !c.Top? ==> At(mem[..], c.id) && Clear(c.id, z) && Clear(c.id, y) && (Ptr(mem[c.id]) == z <==> c.InLeft?)
    requires !c.Top? ==> Clear(c.id, l.id)
    modifies mem
    ensures root' == NewRoot(c, y, root) && mem[..] == TakenMem(old(mem[..]), c, l, y, col)
  {
    hide Ptr, Off;
    root' := Transplant(mem, root, z, y, c);
    mem[y] := Off(Ptr(mem[z]));
    if Ptr(mem[y]) != NIL {
      mem[Ptr(mem[y]) + 2] := Off(y);
    }
    if RedHeader(mem[..], z) {
      mem[y - 1] := mem[y - 1].(b2 := false);
    } else {
      mem[y - 1] := mem[y - 1].(b2 := true);
    }
  }

  /** Case 3: `z` has two children and its successor `y` takes its place. */
  method ReplaceBySuccessor(mem: array<Word>, root: nat, z: nat, y: nat, ghost m0: seq<Word>, ghost ns: set<nat>,
      ghost c: Ctx<nat>, ghost f: Tree<nat>, ghost k: Ctx<nat>, ghost g: Tree<nat>)
    returns (root': nat, x: nat, xp: nat)
    requires State(m0, mem[..], root, ns, c, f) && f.Node? && f.id == z && f.left.Node? && f.right == Plug(k, g)
    requires g.Node? && g.id == y && g.left.Leaf?
    modifies mem
    ensures Owing(m0, mem[..], root', ns, SuccessorCtx(c, f, y, k), g.right, x, xp)
  {
    hide Ptr, Off, OnlyLinks, SuccessorOut, Rep, Distinct, CtxDistinct, RepTree, RepCtx, TakenMem;
    ZipIs(mem[..], root, ns, c, f);
    WithoutSuccessorIds(c, f, k, g);
    ghost var t := WithoutSuccessor(f, k, g);
    ghost var s;
    root', x, xp, s := UnlinkSuccessor(mem, root, z, y, m0, ns, c, f, k, g);
    ghost var m := mem[..];
    TakeIsReady(m, root, ns, c, t, y, s);
    TakenRep(m, root, ns, c, t, y, s);
    OnlyLinksTrans(m0, m, TakenMem(m, c, t.left, y, t.color), ns);
    root' := TakePlace(mem, root', z, y, c, t.left, t.color);
    BackToSuccessor(mem[..], root', ns, c, f, y, k, g);
  }

  lemma BackToSuccessor(m: seq<Word>, root: nat, ns: set<nat>, c: Ctx<nat>, f: Tree<nat>, y: nat, k: Ctx<nat>,
      g: Tree<nat>)
    requires f.Node? && g.Node? && Zip(m, root, ns, c, Node(f.left, y, f.color, Plug(k, g.right)))
    ensures Zip(m, root, ns, SuccessorCtx(c, f, y, k), g.right)
  {
    var kp := InRight(c, f.left, y, f.color);
    Up(m, root, ns, kp, Plug(k, g.right));
    ZipCompose(Cells(m, ns), NIL, root, k, kp, g.right);
  }

  // ------------------------------------------------------------- erasing

  /** Takes `z` out of the links; what is left may still owe a black node at `x`. */
  method Detach(mem: array<Word>, root: nat, z: nat, ghost m0: seq<Word>, ghost ns: set<nat>, ghost c: Ctx<nat>,
      ghost f: Tree<nat>)
    returns (root': nat, x: nat, xp: nat, originalColor: Color, ghost c': Ctx<nat>, ghost v: Tree<nat>)
    requires State(m0, mem[..], root, ns, c, f) && f.Node? && f.id == z && RedBlack(Plug(c, f))
    modifies mem
    ensures Owing(m0, mem[..], root', ns, c', v, x, xp)
    ensures Position(c, f) < |Inorder(Plug(c, f))| && Inorder(Plug(c', v)) == Drop(Inorder(Plug(c, f)), Position(c, f))
    ensures if originalColor == Black then DeleteOk(c', v) else RedBlack(Plug(c', v))
  {
    hide Ptr, Off, OnlyLinks, Zip, RedBlack, Plug, Inorder, DeleteOk;
    Focus(mem[..], root, ns, c, f);
    originalColor := ColorAt(mem[..], z);
    if Ptr(mem[z]) == NIL {
      x, c', v := Ptr(mem[z + 1]), c, f.right;
      DetachColors(c, f, v);
      root', xp := SpliceOut(mem, root, z, x, m0, ns, c, f, v);
    } else if Ptr(mem[z + 1]) == NIL {
      x, c', v := Ptr(mem[z]), c, f.left;
      DetachColors(c, f, v);
      root', xp := SpliceOut(mem, root, z, x, m0, ns, c, f, v);
    } else {
      var y;
      ghost var k, g;
      y, k, g := Successor(mem, z, root, m0, ns, c, f);
      SuccessorWords(mem[..], root, ns, c, f, k, g);
      originalColor := ColorAt(mem[..], y);
      SuccessorColors(c, f, k, g);
      c', v := SuccessorCtx(c, f, y, k), g.right;
      root', x, xp := ReplaceBySuccessor(mem, root, z, y, m0, ns, c, f, k, g);
    }
  }

  method EraseNode(mem: array<Word>, root: nat, z: nat, ghost m0: seq<Word>, ghost ns: set<nat>, ghost c: Ctx<nat>,
      ghost f: Tree<nat>)
    returns (root': nat, ghost t: Tree<nat>)
    requires State(m0, mem[..], root, ns, c, f) && f.Node? && f.id == z && RedBlack(Plug(c, f))
    modifies mem
    ensures State(m0, mem[..], root', ns, Top, t) && RedBlack(t)
    ensures Position(c, f) < |Inorder(Plug(c, f))| && Inorder(t) == Drop(Inorder(Plug(c, f)), Position(c, f))
  {
    hide Ptr, Off, OnlyLinks, Zip, RedBlack, Plug, Inorder, DeleteOk;
    var x, xp, originalColor;
    ghost var c', v;
    root', x, xp, originalColor, c', v := Detach(mem, root, z, m0, ns, c, f);
    if originalColor == Black {
      root', t := EraseFixup(mem, root', x, xp, m0, ns, c', v);
    } else {
      t := Plug(c', v);
      Whole(mem[..], root', ns, c', v);
    }
  }

  // ------------------------------------------------------------- the size-ordered tree

  /** Size, in double words, of the block at `n`. */
  function Size(m: seq<Word>, n: nat): nat { if 1 <= n <= |m| then m[n - 1].hi else 0 }

  ghost predicate Ascending(m: seq<Word>, s: seq<nat>) {
    forall i, j :: 0 <= i < j < |s| ==> Size(m, s[i]) <= Size(m, s[j])
  }

  /** The words below `root` are a red-black tree of the blocks `ns`, in order of size. */
  ghost predicate InTree(m: seq<Word>, root: nat, ns: set<nat>, t: Tree<nat>) {
    Zip(m, root, ns, Top, t) && Ids(t) == ns && RedBlack(t) && Ascending(m, Inorder(t))
  }

  /** Links and colours say nothing about sizes. */
  lemma SizesKept(m: seq<Word>, m': seq<Word>, ns: set<nat>, n: nat)
    requires OnlyLinks(m, m', ns) && Spaced(m, ns) && n in ns
    ensures Size(m', n) == Size(m, n)
  {
  }

  lemma OrderKept(m: seq<Word>, m': seq<Word>, ns: set<nat>, s: seq<nat>)
    requires OnlyLinks(m, m', ns) && Spaced(m, ns) && Ascending(m, s) && forall x :: x in s ==> x in ns
    ensures Ascending(m', s)
  {
    forall i, j | 0 <= i < j < |s| ensures Size(m', s[i]) <= Size(m', s[j]) {
      SizesKept(m, m', ns, s[i]);
      SizesKept(m, m', ns, s[j]);
    }
  }

  /** Fewer candidates: the words of nodes that are not linked do not matter. */
  lemma Narrow(m: seq<Word>, root: nat, ns: set<nat>, ks: set<nat>, t: Tree<nat>)
    requires Zip(m, root, ns, Top, t) && Ids(t) <= ks <= ns
    ensures Zip(m, root, ks, Top, t)
  {
    assert SameOutside(Cells(m, ns), Cells(m, ks), ns - ks);
    FrameTree(Cells(m, ns), Cells(m, ks), ns - ks, NIL, t, NIL);
  }

  /** More candidates. */
  lemma Widen(m: seq<Word>, root: nat, ns: set<nat>, ks: set<nat>, t: Tree<nat>)
    requires Zip(m, root, ns, Top, t) && ns <= ks && Spaced(m, ks)
    ensures Zip(m, root, ks, Top, t)
  {
    RepIds(Cells(m, ns), NIL, t, NIL);
    assert SameOutside(Cells(m, ns), Cells(m, ks), ks - ns);
    FrameTree(Cells(m, ns), Cells(m, ks), ks - ns, NIL, t, NIL);
  }

  lemma DroppedIds(t: Tree<nat>, t': Tree<nat>, k: nat)
    requires Distinct(t) && k < |Inorder(t)| && Inorder(t') == Drop(Inorder(t), k)
    ensures Ids(t') == Ids(t) - {Inorder(t)[k]}
  {
    hide Inorder, Ids, Drop, NoDup;
    DistinctInorder(t);
    var s := Inorder(t);
    forall x ensures x in Ids(t') <==> x in Ids(t) && x != s[k] {
      InorderIds(t', x);
      InorderIds(t, x);
      DroppedIn(s, k, x);
    }
  }

  lemma DroppedIn(s: seq<nat>, k: nat, x: nat)
    requires NoDup(s) && k < |s|
    ensures x in Drop(s, k) <==> x in s && x != s[k]
  {
    if x in s && x != s[k] {
      var i :| 0 <= i < |s| && s[i] == x;
      assert Drop(s, k)[if i < k then i else i - 1] == x;
    }
  }

  /** tree_erase: takes exactly `z` out; no word changes but links and colours of the tree's blocks. */
  method Erase(mem: array<Word>, root: nat, z: nat, ghost ns: set<nat>, ghost t0: Tree<nat>)
    returns (root': nat, ghost t: Tree<nat>, ghost k: nat)
    requires InTree(mem[..], root, ns, t0) && z in ns
    modifies mem
    ensures InTree(mem[..], root', ns - {z}, t) && OnlyLinks(old(mem[..]), mem[..], ns)
    ensures k < |Inorder(t0)| && Inorder(t0)[k] == z && Inorder(t) == Drop(Inorder(t0), k)
  {
    hide Ptr, Off, OnlyLinks, Spaced, Rep, RedBlack, Plug, Inorder, Ascending;
    ghost var m := mem[..];
    ghost var c, f := Locate(t0, z);
    k := Position(c, f);
    FocusOrder(c, f);
    Whole(m, root, ns, c, f);
    OnlyLinksRefl(m, ns);
    root', t := EraseNode(mem, root, z, m, ns, c, f);
    ErasedTree(m, mem[..], root, root', ns, t0, t, k);
  }

  lemma OnlyLinksRefl(m: seq<Word>, ns: set<nat>)
    ensures OnlyLinks(m, m, ns)
  {
  }

  lemma ErasedTree(m: seq<Word>, m': seq<Word>, root: nat, root': nat, ns: set<nat>, t0: Tree<nat>, t: Tree<nat>,
      k: nat)
    requires InTree(m, root, ns, t0) && State(m, m', root', ns, Top, t) && RedBlack(t)
    requires k < |Inorder(t0)| && Inorder(t) == Drop(Inorder(t0), k)
    ensures InTree(m', root', ns - {Inorder(t0)[k]}, t)
  {
    hide Rep, RedBlack, Spaced, OnlyLinks, Inorder;
    ZipIs(m, root, ns, Top, t0);
    DroppedIds(t0, t, k);
    Narrow(m', root', ns, Ids(t), t);
    assert Ascending(m, Inorder(t));
    forall x | x in Inorder(t) ensures x in ns { InorderIds(t, x); }
    OrderKept(m, m', ns, Inorder(t));
  }

  // ------------------------------------------------------------- searching and inserting

  ghost predicate AllBelow(m: seq<Word>, s: seq<nat>, size: nat) {
    forall i :: 0 <= i < |s| ==> Size(m, s[i]) < size
  }

  ghost predicate AllAtLeast(m: seq<Word>, s: seq<nat>, size: nat) {
    forall i :: 0 <= i < |s| ==> size <= Size(m, s[i])
  }

  /** Blocks before the hole are smaller than `size`, those after it are not. */
  ghost predicate SplitAt(m: seq<Word>, c: Ctx<nat>, size: nat) {
    AllBelow(m, Before(c), size) && AllAtLeast(m, After(c), size)
  }

  lemma SplitSizes(m: seq<Word>, a: seq<nat>, n: nat, b: seq<nat>, size: nat)
    requires Ascending(m, a + [n] + b)
    ensures Size(m, n) < size ==> AllBelow(m, a + [n], size)
    ensures size <= Size(m, n) ==> AllAtLeast(m, [n] + b, size)
  {
    var s := a + [n] + b;
    assert s[|a|] == n;
    forall i | 0 <= i < |a + [n]| ensures (a + [n])[i] == s[i] {}
    forall i | 0 <= i < |[n] + b| ensures ([n] + b)[i] == s[|a| + i] {}
  }

  lemma Descend(m: seq<Word>, c: Ctx<nat>, f: Tree<nat>, size: nat)
    requires f.Node? && Ascending(m, Inorder(Plug(c, f))) && SplitAt(m, c, size)
    ensures Size(m, f.id) < size ==> SplitAt(m, InRight(c, f.left, f.id, f.color), size)
    ensures size <= Size(m, f.id) ==> SplitAt(m, InLeft(c, f.id, f.color, f.right), size)
  {
    hide Plug, Ascending, AllBelow, AllAtLeast;
    FocusOrder(c, f);
    SplitSizes(m, Before(c) + Inorder(f.left), f.id, Inorder(f.right) + After(c), size);
    assert After(InLeft(c, f.id, f.color, f.right)) == [f.id] + (Inorder(f.right) + After(c));
    assert Before(InRight(c, f.left, f.id, f.color)) == Before(c) + Inorder(f.left) + [f.id];
  }

  lemma SplitTop(m: seq<Word>, size: nat)
    ensures SplitAt(m, Top, size)
  {
  }

  lemma DescentView(m: seq<Word>, root: nat, ns: set<nat>, c: Ctx<nat>, f: Tree<nat>)
    requires Zip(m, root, ns, c, f)
    ensures RootId(f, NIL) == NIL <==> f.Leaf?
    ensures f.Node? ==> At(m, f.id) && Size(m, f.id) == m[f.id - 1].hi
    ensures f.Node? ==> Ptr(m[f.id]) == RootId(f.left, NIL) && Ptr(m[f.id + 1]) == RootId(f.right, NIL)
    ensures f.Node? ==>
      Zip(m, root, ns, InLeft(c, f.id, f.color, f.right), f.left) &&
      Zip(m, root, ns, InRight(c, f.left, f.id, f.color), f.right)
  {
    hide Ptr, RepTree, RepCtx, Cells, Spaced;
    if f.Node? {
      Focus(m, root, ns, c, f);
      Up(m, root, ns, InLeft(c, f.id, f.color, f.right), f.left);
      Up(m, root, ns, InRight(c, f.left, f.id, f.color), f.right);
    }
  }

  /** tree_lower_bound: the smallest block of at least `size` double words, or NIL when none is big enough. */
  method LowerBound(mem: array<Word>, root: nat, size: nat, ghost ns: set<nat>, ghost t: Tree<nat>) returns (r: nat)
    requires InTree(mem[..], root, ns, t)
    ensures r == NIL ==> forall n :: n in ns ==> Size(mem[..], n) < size
    ensures r != NIL ==> r in ns && size <= Size(mem[..], r)
    ensures r != NIL ==> forall n :: n in ns && size <= Size(mem[..], n) ==> Size(mem[..], r) <= Size(mem[..], n)
  {
    hide Ptr, Zip, RedBlack, Inorder, AllBelow, AllAtLeast, Ascending, Plug;
    r := NIL;
    var ptr := root;
    ghost var m := mem[..];
    ghost var c, f := Top, t;
    SplitTop(m, size);
    StartOf(m, root, ns, t);
    DescentView(m, root, ns, c, f);
    while ptr != NIL && size != mem[ptr - 1].hi
      invariant Zip(m, root, ns, c, f) && Plug(c, f) == t && ptr == RootId(f, NIL) && SplitAt(m, c, size)
      invariant ptr == NIL <==> f.Leaf?
      invariant ptr != NIL ==> At(m, ptr) && Size(m, ptr) == m[ptr - 1].hi
      invariant r == NIL ==> After(c) == []
      invariant r != NIL ==> |After(c)| > 0 && After(c)[0] == r
      decreases f
    {
      Descend(m, c, f, size);
      DescentView(m, root, ns, c, f);
      DescentPlug(c, f);
      if mem[ptr - 1].hi < size {
        ptr := Ptr(mem[ptr + 1]);
        c, f := InRight(c, f.left, f.id, f.color), f.right;
      } else {
        r := ptr;
        ptr := Ptr(mem[ptr]);
        c, f := InLeft(c, f.id, f.color, f.right), f.left;
      }
      DescentView(m, root, ns, c, f);
    }
    if ptr != NIL && mem[ptr - 1].hi == size {
      r := ptr;
      FoundExact(m, c, f, size);
    } else {
      FoundBest(m, c, size);
    }
  }

  lemma StartOf(m: seq<Word>, root: nat, ns: set<nat>, t: Tree<nat>)
    requires Zip(m, root, ns, Top, t)
    ensures root == RootId(t, NIL) && Plug(Top, t) == t
  {
  }

  lemma DescentPlug(c: Ctx<nat>, f: Tree<nat>)
    requires f.Node?
    ensures Plug(InLeft(c, f.id, f.color, f.right), f.left) == Plug(c, f)
    ensures Plug(InRight(c, f.left, f.id, f.color), f.right) == Plug(c, f)
    ensures |After(InLeft(c, f.id, f.color, f.right))| > 0 && After(InLeft(c, f.id, f.color, f.right))[0] == f.id
    ensures After(InRight(c, f.left, f.id, f.color)) == After(c)
  {
  }

  lemma FoundExact(m: seq<Word>, c: Ctx<nat>, f: Tree<nat>, size: nat)
    requires f.Node? && Size(m, f.id) == size
    ensures f.id in Ids(Plug(c, f))
  {
    PlugIds(c, f);
  }

  lemma LeafOrder()
    ensures Inorder<nat>(Leaf) == []
  {
  }

  lemma FoundBest(m: seq<Word>, c: Ctx<nat>, size: nat)
    requires SplitAt(m, c, size) && Ascending(m, Inorder(Plug(c, Leaf)))
    ensures After(c) == [] ==> forall n :: n in Ids(Plug(c, Leaf)) ==> Size(m, n) < size
    ensures |After(c)| > 0 ==> After(c)[0] in Ids(Plug(c, Leaf)) && size <= Size(m, After(c)[0])
    ensures |After(c)| > 0 ==>
      forall n :: n in Ids(Plug(c, Leaf)) && size <= Size(m, n) ==> Size(m, After(c)[0]) <= Size(m, n)
  {
    hide Plug, Inorder, Ids, Size;
    var s, b := Inorder(Plug(c, Leaf)), Before(c);
    PlugInorder(c, Leaf);
    assert s == b + After(c) by { LeafOrder(); }
    if |After(c)| > 0 {
      assert s[|b|] == After(c)[0];
      InorderIds(Plug(c, Leaf), s[|b|]);
    }
    forall n | n in Ids(Plug(c, Leaf)) ensures n in s {
      InorderIds(Plug(c, Leaf), n);
    }
  }

  lemma InsertOrder(m: seq<Word>, c: Ctx<nat>, p: nat, col: Color)
    requires SplitAt(m, c, Size(m, p)) && Ascending(m, Inorder(Plug(c, Leaf)))
    ensures var s, k := Inorder(Plug(c, Leaf)), |Before(c)|;
      k <= |s| && Inorder(Plug(c, Node(Leaf, p, col, Leaf))) == s[..k] + [p] + s[k..] &&
      AllBelow(m, s[..k], Size(m, p)) && AllAtLeast(m, s[k..], Size(m, p))
    ensures Ascending(m, Inorder(Plug(c, Node(Leaf, p, col, Leaf))))
  {
    hide Inorder, Plug, Ascending;
    var a, b := Before(c), After(c);
    PlugInorder(c, Leaf);
    PlugInorder(c, Node(Leaf, p, col, Leaf));
    LeafInorder(p, col);
    var s := a + b;
    assert a + [] + b == s && s[..|a|] == a && s[|a|..] == b;
    InsertAscending(m, a, b, p);
  }

  lemma LeafInorder(p: nat, col: Color)
    ensures Inorder<nat>(Leaf) == [] && Inorder(Node(Leaf, p, col, Leaf)) == [p]
  {
  }

  lemma InsertAscending(m: seq<Word>, a: seq<nat>, b: seq<nat>, p: nat)
    requires Ascending(m, a + b) && AllBelow(m, a, Size(m, p)) && AllAtLeast(m, b, Size(m, p))
    ensures Ascending(m, a + [p] + b)
  {
    hide Size;
    var s, t := a + b, a + [p] + b;
    forall i, j | 0 <= i < j < |t| ensures Size(m, t[i]) <= Size(m, t[j]) {
      assert i < |a| ==> s[i] == a[i];
      assert j > |a| ==> s[j - 1] == b[j - |a| - 1];
      assert i > |a| ==> s[i - 1] == b[i - |a| - 1];
      assert j < |a| ==> s[j] == a[j];
    }
  }

  /** The first three lines of tree_insert. */
  method Prepare(mem: array<Word>, p: nat, ghost root: nat, ghost ns: set<nat>, ghost t: Tree<nat>)
    requires Zip(mem[..], root, ns, Top, t) && p in ns && p !in Ids(t)
    modifies mem
    ensures State(old(mem[..]), mem[..], root, ns, Top, t)
    ensures At(mem[..], p) && Cells(mem[..], ns)[p] == Cell(NIL, NIL, Ptr(mem[p + 2]), Red)
  {
    hide Ptr, Off, OnlyLinks, CellAt, RepTree, SetL, SetR, SetC;
    ghost var m := mem[..];
    SetLCells(m, ns, p, NIL);
    ghost var m1 := SetL(m, p, NIL);
    SetRCells(m1, ns, p, NIL);
    ghost var m2 := SetR(m1, p, NIL);
    SetCCells(m2, ns, p, Red);
    ghost var m3 := SetC(m2, p, Red);
    OnlyLinksTrans(m, m1, m2, ns); OnlyLinksTrans(m, m2, m3, ns);
    assert SameOutside(Cells(m, ns), Cells(m3, ns), {p});
    ForgetRep(Cells(m, ns), Cells(m3, ns), NIL, root, Top, t, p);
    WritePrepared(mem, p);
    ParentOf(m3, ns, p);
  }

  method WritePrepared(mem: array<Word>, p: nat)
    requires At(mem[..], p)
    modifies mem
    ensures mem[..] == SetC(SetR(SetL(old(mem[..]), p, NIL), p, NIL), p, Red)
  {
    mem[p] := Off(NIL);
    mem[p + 1] := Off(NIL);
    mem[p - 1] := mem[p - 1].(b2 := false);
  }

  lemma ParentOf(m: seq<Word>, ns: set<nat>, p: nat)
    requires Spaced(m, ns) && p in ns
    ensures Cells(m, ns)[p].parent == Ptr(m[p + 2])
  {
  }

  /** The descent of tree_insert, up to the place for a block of `size`. */
  method FindHole(mem: array<Word>, root: nat, size: nat, ghost ns: set<nat>, ghost t: Tree<nat>)
      returns (y: nat, ghost c: Ctx<nat>)
    requires Zip(mem[..], root, ns, Top, t) && Ascending(mem[..], Inorder(t))
    ensures Zip(mem[..], root, ns, c, Leaf) && Plug(c, Leaf) == t && SplitAt(mem[..], c, size) && y == CtxId(c, NIL)
    ensures !c.Top? ==> y != NIL && At(mem[..], y) && (mem[y - 1].hi < size <==> c.InRight?)
    ensures c.Top? ==> y == NIL
  {
    hide Ptr, Zip, Inorder, AllBelow, AllAtLeast, Ascending, Plug;
    y := NIL;
    var x := root;
    ghost var m, f := mem[..], t;
    c := Top;
    SplitTop(m, size);
    StartOf(m, root, ns, t);
    DescentView(m, root, ns, c, f);
    while x != NIL
      invariant Zip(m, root, ns, c, f) && Plug(c, f) == t && x == RootId(f, NIL) && SplitAt(m, c, size) &&
        y == CtxId(c, NIL)
      invariant !c.Top? ==> y != NIL && At(m, y) && (m[y - 1].hi < size <==> c.InRight?)
      invariant x == NIL <==> f.Leaf?
      decreases f
    {
      Descend(m, c, f, size);
      DescentView(m, root, ns, c, f);
      DescentPlug(c, f);
      y := x;
      if mem[x - 1].hi < size {
        x := Ptr(mem[x + 1]);
        c, f := InRight(c, f.left, f.id, f.color), f.right;
      } else {
        x := Ptr(mem[x]);
        c, f := InLeft(c, f.id, f.color, f.right), f.left;
      }
      DescentView(m, root, ns, c, f);
    }
  }

  /** Hangs the prepared block `p` into the hole. */
  method Hang(mem: array<Word>, root: nat, p: nat, y: nat, size: nat, ghost m0: seq<Word>, ghost ns: set<nat>,
      ghost c: Ctx<nat>)
    returns (root': nat)
    requires State(m0, mem[..], root, ns, c, Leaf) && p in ns && p !in CtxIds(c) && y == CtxId(c, NIL) &&
      (y == NIL <==> c.Top?)
    requires Cells(mem[..], ns)[p] == Cell(NIL, NIL, Ptr(mem[p + 2]), Red)
    requires !c.Top? ==> At(mem[..], y) && (mem[y - 1].hi < size <==> c.InRight?)
    modifies mem
    ensures State(m0, mem[..], root', ns, c, Node(Leaf, p, Red, Leaf))
  {
    hide Ptr, Off, OnlyLinks, CellAt, RepTree, RepCtx, SetP, Hung;
    ghost var m := mem[..];
    HoleBounds(m, root, ns, c);
    SetPCells(m, ns, p, y);
    ghost var m1 := SetP(m, p, y);
    HungCells(m1, ns, c, p);
    ghost var m2 := Hung(m1, c, p);
    OnlyLinksTrans(m0, m, m1, ns); OnlyLinksTrans(m0, m1, m2, ns);
    HangRep(Cells(m, ns), Cells(m2, ns), NIL, root, c, p);
    root' := WriteHung(mem, root, p, y, size, c);
  }

  lemma HoleBounds(m: seq<Word>, root: nat, ns: set<nat>, c: Ctx<nat>)
    requires Zip(m, root, ns, c, Leaf)
    ensures !c.Top? ==> c.id in ns && c.id in CtxIds(c)
  {
  }

  method WriteHung(mem: array<Word>, root: nat, p: nat, y: nat, size: nat, ghost c: Ctx<nat>) returns (root': nat)
    requires At(mem[..], p) && y == CtxId(c, NIL) && (y == NIL <==> c.Top?)
    requires !c.Top? ==> At(mem[..], y) && Clear(y, p) && (mem[y - 1].hi < size <==> c.InRight?)
    modifies mem
    ensures root' == NewRoot(c, p, root) && mem[..] == Hung(SetP(old(mem[..]), p, y), c, p)
  {
    hide Ptr, Off;
    root' := root;
    mem[p + 2] := Off(y);
    if y == NIL {
      root' := p;
    } else if mem[y - 1].hi < size {
      mem[y + 1] := Off(p);
    } else {
      mem[y] := Off(p);
    }
  }

  /** tree_insert: `p` goes before the first block that is not smaller. */
  method Insert(mem: array<Word>, root: nat, p: nat, ghost ns: set<nat>, ghost t0: Tree<nat>)
    returns (root': nat, ghost t: Tree<nat>, ghost k: nat)
    requires InTree(mem[..], root, ns, t0) && p !in ns && Spaced(mem[..], ns + {p})
    modifies mem
    ensures InTree(mem[..], root', ns + {p}, t) && OnlyLinks(old(mem[..]), mem[..], ns + {p})
    ensures k <= |Inorder(t0)| && Inorder(t) == Inorder(t0)[..k] + [p] + Inorder(t0)[k..]
    ensures AllBelow(old(mem[..]), Inorder(t0)[..k], Size(old(mem[..]), p)) &&
      AllAtLeast(old(mem[..]), Inorder(t0)[k..], Size(old(mem[..]), p))
  {
    hide Ptr, Off, OnlyLinks, Rep, RB, Plug, Inorder, Ascending, AllBelow, AllAtLeast, Cells, Ids, BlackRoot, Fits,
      InsertOk;
    ghost var m, ks := mem[..], ns + {p};
    Widen(m, root, ns, ks, t0);
    Prepare(mem, p, root, ks, t0);
    var size := mem[p - 1].hi;
    InsertKeeps(m, mem[..], ks, t0, p);
    var y;
    ghost var c;
    y, c := FindHole(mem, root, size, ks, t0);
    InsertReady(m, mem[..], ks, c, t0, p, size);
    k := |Before(c)|;
    root' := Hang(mem, root, p, y, size, m, ks, c);
    root', t := InsertFixup(mem, root', p, m, ks, c, Node(Leaf, p, Red, Leaf));
    InsertedTree(m, mem[..], root', ks, c, t0, t, p);
  }

  lemma InsertKeeps(m: seq<Word>, m1: seq<Word>, ks: set<nat>, t0: Tree<nat>, p: nat)
    requires OnlyLinks(m, m1, ks) && Spaced(m, ks) && Ascending(m, Inorder(t0)) && Ids(t0) <= ks && p in ks
    ensures Ascending(m1, Inorder(t0)) && Size(m1, p) == Size(m, p)
  {
    forall x | x in Inorder(t0) ensures x in ks { InorderIds(t0, x); }
    OrderKept(m, m1, ks, Inorder(t0));
    SizesKept(m, m1, ks, p);
  }

  lemma InsertReady(m: seq<Word>, m1: seq<Word>, ks: set<nat>, c: Ctx<nat>, t0: Tree<nat>, p: nat, size: nat)
    requires OnlyLinks(m, m1, ks) && Spaced(m, ks) && Plug(c, Leaf) == t0 && RedBlack(t0) && Ids(t0) <= ks &&
      p !in Ids(t0) && p in ks
    requires SplitAt(m1, c, size) && size == Size(m, p) && Ascending(m, Inorder(t0))
    ensures InsertOk(c, Node(Leaf, p, Red, Leaf)) && p !in CtxIds(c) && SplitAt(m, c, size)
  {
    hide OnlyLinks, CtxIds;
    PlugRB(c, Leaf); PlugBlackRoot(c, Leaf); PlugIds(c, Leaf);
    PlugInorder(c, Leaf);
    var s := Inorder(t0);
    assert s == Before(c) + After(c);
    forall x | x in Before(c) || x in After(c) ensures Size(m1, x) == Size(m, x) {
      assert x in s;
      InorderIds(t0, x);
      SizesKept(m, m1, ks, x);
    }
  }

  lemma InsertedTree(m: seq<Word>, m': seq<Word>, root': nat, ks: set<nat>, c: Ctx<nat>, t0: Tree<nat>, t: Tree<nat>,
      p: nat)
    requires Plug(c, Leaf) == t0 && Ids(t0) + {p} == ks && Spaced(m, ks) && Ascending(m, Inorder(t0)) &&
      SplitAt(m, c, Size(m, p))
    requires State(m, m', root', ks, Top, t) && RedBlack(t) && Inorder(t) == Inorder(Plug(c, Node(Leaf, p, Red, Leaf)))
    ensures InTree(m', root', ks, t)
    ensures var k := |Before(c)|;
      k <= |Inorder(t0)| && Inorder(t) == Inorder(t0)[..k] + [p] + Inorder(t0)[k..] &&
      AllBelow(m, Inorder(t0)[..k], Size(m, p)) && AllAtLeast(m, Inorder(t0)[k..], Size(m, p))
  {
    hide OnlyLinks, Spaced, AllBelow, AllAtLeast, SplitAt, Rep;
    InsertOrder(m, c, p, Red);
    forall x ensures x in Ids(t) <==> x in ks {
      InorderIds(t, x);
      InorderIds(t0, x);
      var s, k := Inorder(t0), |Before(c)|;
      assert s == s[..k] + s[k..];
      assert x in s <==> x in s[..k] || x in s[k..];
    }
    forall x | x in Inorder(t) ensures x in ks { InorderIds(t, x); }
    OrderKept(m, m', ks, Inorder(t));
  }
}
