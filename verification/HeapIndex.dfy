/**
 The index of free blocks in mm_tree_rbtree.c: blocks under 24 bytes are in the circular
 list, the others in the red-black tree.  Both live inside the blocks they index.
 */
module HeapIndex {
  import opened Words
  import opened Blocks
  import opened Trees
  import HeapTree
  import FreeList

  /** MINIMUM_TREE_BLOCK_SIZE, in double words. */
  const TREE_MIN: nat := 3

  ghost function TreeSet(B: Blocks): set<nat> {
    set b | b in B && B[b].status == Free && B[b].size >= TREE_MIN
  }

  ghost predicate ListMember(B: Blocks, b: nat) {
    b in B && B[b].status == Free && B[b].size < TREE_MIN
  }

  /** Each free block is exactly once in the list or exactly once in the tree, and nothing else is. */
  ghost predicate Index(m: seq<Word>, B: Blocks, root: nat, t: Tree<nat>, l: seq<nat>) {
    HeapTree.InTree(m, root, TreeSet(B), t) && FreeList.Ring(m, l) && forall b: nat :: b in l <==> ListMember(B, b)
  }

  /** What holds of the heap whenever no block is being moved, and almost always otherwise. */
  ghost predicate Inv(m: seq<Word>, E: nat, B: Blocks, root: nat, t: Tree<nat>, l: seq<nat>) {
    Layout(m, E, B) && Separated(B) && Index(m, B, root, t, l)
  }

  // ------------------------------------------------------------- frames

  /** `m'` differs from `m` only inside the bodies of unallocated blocks, short of their footers, in
      colours, and in the list head. */
  ghost predicate LinksOnly(m: seq<Word>, m': seq<Word>, E: nat, B: Blocks) {
    |m'| == |m| && FIRST <= E <= |m| && m'[3] == m[3] && m'[4] == m[4] && m'[E - 1] == m[E - 1] &&
    forall b {:trigger B[b]} :: b in B ==> LinksIn(m, m', B, b)
  }

  ghost predicate LinksIn(m: seq<Word>, m': seq<Word>, B: Blocks, b: nat) {
    b in B && 1 <= b && 1 <= B[b].size && b + 2 * B[b].size <= |m| == |m'| &&
    HeapTree.SameButColor(m[b - 1], m'[b - 1]) &&
    (if Occupied(B[b].status) then SameBody(m, m', b, B[b].size)
      else m'[b + 2 * B[b].size - 2] == m[b + 2 * B[b].size - 2])
  }

  lemma LinksKeep(m: seq<Word>, m': seq<Word>, E: nat, B: Blocks)
    requires Layout(m, E, B) && LinksOnly(m, m', E, B)
    ensures Layout(m', E, B) && Kept(m, m', B, B, 0)
  {
    forall b | b in B ensures BlockOk(m', B, b) { LinksKeepBlock(m, m', E, B, b); }
  }

  lemma LinksKeepBlock(m: seq<Word>, m': seq<Word>, E: nat, B: Blocks, b: nat)
    requires Layout(m, E, B) && LinksOnly(m, m', E, B) && b in B
    ensures BlockOk(m', B, b)
  {
    assert BlockOk(m, B, b) && LinksIn(m, m', B, b);
    var n := Next(B, b);
    if n in B { assert LinksIn(m, m', B, n); }
  }

  /** Words of a block from its header to the next one belong to it alone. */
  lemma TreeWord(B: Blocks, E: nat, ns: set<nat>, b: nat, i: nat)
    requires Tiling(B, E) && b in B && b - 1 <= i < Next(B, b) - 1
    requires forall n :: n in ns ==> n in B && B[n].size >= TREE_MIN
    ensures HeapTree.IsLink(ns, i) ==> b in ns && b <= i <= b + 2
    ensures HeapTree.IsHead(ns, i) ==> b in ns && i == b - 1
  {
    forall k | k in {i, i - 1, i - 2} && k in ns ensures k == b {
      assert B[k].size >= TREE_MIN && B[b].size >= 1;
    }
    if i + 1 in ns { assert B[i + 1].size >= TREE_MIN && B[b].size >= 1; }
  }

  lemma TreeLinks(m: seq<Word>, m': seq<Word>, E: nat, B: Blocks, ns: set<nat>)
    requires Layout(m, E, B) && HeapTree.OnlyLinks(m, m', ns)
    requires forall n :: n in ns ==> n in B && B[n].size >= TREE_MIN && !Occupied(B[n].status)
    ensures LinksOnly(m, m', E, B) && m'[1] == m[1] && m'[2] == m[2]
    ensures forall b {:trigger B[b]} :: b in B && b !in ns && B[b].size >= 2 ==> m'[b] == m[b] && m'[b + 1] == m[b + 1]
  {
    hide LinksIn, HeapTree.OnlyLinks, Layout;
    TreeLinksEnds(m, m', E, B, ns);
    forall b | b in B ensures LinksIn(m, m', B, b) { TreeLinksIn(m, m', E, B, ns, b); }
    forall b {:trigger B[b]} | b in B && b !in ns && B[b].size >= 2 ensures m'[b] == m[b] && m'[b + 1] == m[b + 1] {
      TreeLinksIn(m, m', E, B, ns, b);
    }
  }

  /** The words before the first block, and the epilogue. */
  lemma TreeLinksEnds(m: seq<Word>, m': seq<Word>, E: nat, B: Blocks, ns: set<nat>)
    requires Layout(m, E, B) && HeapTree.OnlyLinks(m, m', ns)
    requires forall n :: n in ns ==> n in B && B[n].size >= TREE_MIN && !Occupied(B[n].status)
    ensures |m'| == |m| && FIRST <= E <= |m| && m'[1] == m[1] && m'[2] == m[2] && m'[3] == m[3] && m'[4] == m[4] &&
      m'[E - 1] == m[E - 1]
    ensures forall b :: b in B ==> 1 <= b && b + 2 * B[b].size <= |m|
  {
    assert forall n :: n in ns ==> B[n].size >= 3;
  }

  lemma TreeLinksIn(m: seq<Word>, m': seq<Word>, E: nat, B: Blocks, ns: set<nat>, b: nat)
    requires Layout(m, E, B) && HeapTree.OnlyLinks(m, m', ns) && b in B
    requires forall n :: n in ns ==> n in B && B[n].size >= TREE_MIN && !Occupied(B[n].status)
    ensures LinksIn(m, m', B, b) && (b !in ns && B[b].size >= 2 ==> m'[b] == m[b] && m'[b + 1] == m[b + 1])
  {
    hide HeapTree.IsLink, HeapTree.IsHead;
    assert B[b].size >= 1;
    forall i | b - 1 <= i < Next(B, b) - 1
      ensures b !in ns ==> m'[i] == m[i]
      ensures i > b + 2 ==> m'[i] == m[i]
      ensures i == b - 1 ==> HeapTree.SameButColor(m[i], m'[i])
    {
      TreeWord(B, E, ns, b, i);
    }
  }

  lemma ListWords(B: Blocks, E: nat, l: seq<nat>, b: nat, i: nat)
    requires Tiling(B, E) && b in B && b - 1 <= i < Next(B, b) - 1
    requires forall n :: n in l ==> n in B && B[n].size >= 2
    ensures FreeList.ListWord(l, i) ==> b in l && b <= i <= b + 1
  {
    forall k | k in {i, i - 1} && k in l ensures k == b {
      assert B[k].size >= 2 && B[b].size >= 1;
    }
    assert B[b].size >= 1;
  }

  lemma RingLinks(m: seq<Word>, m': seq<Word>, E: nat, B: Blocks, l: seq<nat>)
    requires Layout(m, E, B) && FreeList.OnlyRing(m, m', l)
    requires forall n :: n in l ==> n in B && B[n].size >= 2 && !Occupied(B[n].status)
    ensures LinksOnly(m, m', E, B)
    ensures forall b {:trigger B[b]} :: b in B && b !in l ==> SameBody(m, m', b, B[b].size) && m'[b - 1] == m[b - 1]
  {
    forall b | b in B
      ensures LinksIn(m, m', B, b) && (b !in l ==> SameBody(m, m', b, B[b].size) && m'[b - 1] == m[b - 1])
    {
      RingLinksIn(m, m', E, B, l, b);
    }
    assert forall n :: n in l ==> B[n].size >= 2;
  }

  lemma RingLinksIn(m: seq<Word>, m': seq<Word>, E: nat, B: Blocks, l: seq<nat>, b: nat)
    requires Layout(m, E, B) && FreeList.OnlyRing(m, m', l) && b in B
    requires forall n :: n in l ==> n in B && B[n].size >= 2 && !Occupied(B[n].status)
    ensures LinksIn(m, m', B, b) && (b !in l ==> SameBody(m, m', b, B[b].size) && m'[b - 1] == m[b - 1])
  {
    hide FreeList.ListWord;
    assert B[b].size >= 1;
    forall i | b - 1 <= i < Next(B, b) - 1
      ensures b !in l ==> m'[i] == m[i]
      ensures i > b + 1 || i == b - 1 ==> m'[i] == m[i]
    {
      ListWords(B, E, l, b, i);
    }
  }

  // ------------------------------------------------------------- changing status

  lemma RelabelLayout(m: seq<Word>, E: nat, B: Blocks, b: nat, s: Status)
    requires Layout(m, E, B) && b in B && !Occupied(B[b].status) && !Occupied(s) && B[b].size >= 2
    ensures Layout(m, E, WithStatus(B, b, s))
  {
    var B' := WithStatus(B, b, s);
    StatusTiling(B, E, b, s);
    forall x | x in B' ensures BlockOk(m, B', x) {
      assert BlockOk(m, B, x) && Next(B', x) == Next(B, x);
    }
  }

  lemma LoosenSeparated(B: Blocks, b: nat)
    requires Separated(B) && b in B && B[b].status == Free
    ensures Separated(WithStatus(B, b, Loose))
  {
    var B' := WithStatus(B, b, Loose);
    forall a | a in B' && Next(B', a) in B' ensures Fine(B'[a].status, B'[Next(B', a)].status) {
      var n := Next(B, a);
      assert n == Next(B', a) && n in B;
      LooseIsFine(B[a].status, B[n].status);
    }
  }

  lemma LooseIsFine(s: Status, t: Status)
    requires Fine(s, t)
    ensures s == Free ==> Fine(Loose, t) && (t == Free ==> Fine(Loose, Loose))
    ensures t == Free ==> Fine(s, Loose)
  {
  }

  lemma SettleSeparated(B: Blocks, b: nat)
    requires Separated(B) && b in B && Isolated(B, b) && B[b].size >= 1
    ensures Separated(WithStatus(B, b, Free))
  {
    var B' := WithStatus(B, b, Free);
    forall a | a in B' && Next(B', a) in B' ensures Fine(B'[a].status, B'[Next(B', a)].status) {
      assert Next(B', a) == Next(B, a);
    }
  }

  /** Free blocks of the index are spaced the way the tree wants them. */
  lemma TreeSpaced(m: seq<Word>, E: nat, B: Blocks, ns: set<nat>)
    requires Tiling(B, E) && E <= |m|
    requires forall n :: n in ns ==> n in B && B[n].size >= TREE_MIN
    ensures HeapTree.Spaced(m, ns)
  {
    assert forall n :: n in ns ==> B[n].size >= 3;
    forall a, b | a in ns && b in ns && a < b ensures a + 4 <= b {
      assert B[a].size >= 3 && B[b].size >= 3;
    }
  }

  lemma ListSpaced(m: seq<Word>, E: nat, B: Blocks, l: seq<nat>)
    requires Tiling(B, E) && E <= |m|
    requires forall n :: n in l ==> n in B && B[n].size >= 2
    requires forall j, k :: 0 <= j < k < |l| ==> l[j] != l[k]
    ensures FreeList.InList(m, l)
  {
    forall k {:trigger l[k]} | 0 <= k < |l| ensures 6 <= l[k] && l[k] + 1 < |m| {
      assert l[k] in l && B[l[k]].size >= 2;
    }
    forall j, k {:trigger l[j], l[k]} | 0 <= j < k < |l| ensures l[j] + 2 <= l[k] || l[k] + 2 <= l[j] {
      assert l[j] in l && l[k] in l && B[l[j]].size >= 2 && B[l[k]].size >= 2;
    }
  }

  // ------------------------------------------------------------- ERASE_FROM_TREE_OR_LIST

  lemma RemoveAt(m: seq<Word>, l: seq<nat>, k: nat)
    requires FreeList.InList(m, l) && k < |l|
    ensures forall b: nat :: b in l[..k] + l[k + 1..] <==> b in l && b != l[k]
  {
    var l' := l[..k] + l[k + 1..];
    forall b: nat | b in l && b != l[k] ensures b in l' {
      var i :| 0 <= i < |l| && l[i] == b;
      assert l'[if i < k then i else i - 1] == b;
    }
    forall b: nat | b in l' ensures b in l && b != l[k] {
      var i :| 0 <= i < |l'| && l'[i] == b;
      var j := if i < k then i else i + 1;
      assert l[j] == b && j != k;
      assert j < k ==> l[j] + 2 <= l[k] || l[k] + 2 <= l[j];
    }
  }

  lemma TreeFrame(m: seq<Word>, m': seq<Word>, root: nat, ns: set<nat>, t: Tree<nat>)
    requires HeapTree.InTree(m, root, ns, t) && |m'| == |m|
    requires forall n :: n in ns ==>
      1 <= n && n + 2 < |m| && m'[n] == m[n] && m'[n + 1] == m[n + 1] && m'[n + 2] == m[n + 2] &&
      m'[n - 1].hi == m[n - 1].hi && m'[n - 1].b2 == m[n - 1].b2
    ensures HeapTree.InTree(m', root, ns, t)
  {
    assert HeapTree.Cells(m', ns) == HeapTree.Cells(m, ns);
    forall i,
      j | 0 <= i < j < |Inorder(t)| ensures HeapTree.Size(m', Inorder(t)[i]) <= HeapTree.Size(m', Inorder(t)[j]) {
      InorderIds(t, Inorder(t)[i]);
      InorderIds(t, Inorder(t)[j]);
    }
  }

  lemma HeaderOf(m: seq<Word>, E: nat, B: Blocks, b: nat)
    requires Layout(m, E, B) && b in B
    ensures FIRST <= b && b < |m| && m[b - 1].hi == B[b].size && B[b].size >= 1 && Next(B, b) <= E <= |m|
    ensures B[b].status != Loose ==> B[b].size >= 2
    ensures !Occupied(B[b].status) ==> m[Next(B, b) - 2].hi == B[b].size && !m[b - 1].b0
    ensures B[b].status == Live ==> m[b - 1].b0
    ensures m[Next(B, b) - 1].b1 <==> Occupied(B[b].status)
  {
    assert BlockOk(m, B, b);
  }

  lemma TreeSetIs(m: seq<Word>, E: nat, B: Blocks, root: nat, t: Tree<nat>, l: seq<nat>)
    requires Layout(m, E, B) && Index(m, B, root, t, l)
    ensures forall n :: n in TreeSet(B) ==> n in B && B[n].size >= TREE_MIN && !Occupied(B[n].status)
    ensures forall n :: n in l ==> n in B && B[n].size >= 2 && !Occupied(B[n].status) && n !in TreeSet(B)
    ensures FreeList.InList(m, l)
  {
    forall n | n in l ensures n in B && B[n].size >= 2 && !Occupied(B[n].status) && n !in TreeSet(B) {
      assert ListMember(B, n);
    }
  }

  lemma KeptRelabel(m: seq<Word>, m': seq<Word>, B: Blocks, b: nat, s: Status, x: nat)
    requires Kept(m, m', B, B, x) && b in B && !Occupied(B[b].status) && !Occupied(s)
    ensures Kept(m, m', B, WithStatus(B, b, s), x)
  {
  }

  lemma ErasedFromTree(m: seq<Word>, m': seq<Word>, E: nat, B: Blocks, b: nat, root: nat, t: Tree<nat>, l: seq<nat>,
      root': nat, t': Tree<nat>)
    requires Layout(m, E, B) && Index(m, B, root, t, l) && b in TreeSet(B)
    requires HeapTree.OnlyLinks(m, m', TreeSet(B)) && HeapTree.InTree(m', root', TreeSet(B) - {b}, t')
    ensures Layout(m', E, WithStatus(B, b, Loose)) && Index(m', WithStatus(B, b, Loose), root', t', l)
    ensures Kept(m, m', B, WithStatus(B, b, Loose), 0)
  {
    hide HeapTree.OnlyLinks, HeapTree.InTree, BlockOk, Tiling, FreeList.Ring, SameBody, LinksOnly;
    var B' := WithStatus(B, b, Loose);
    TreeSetIs(m, E, B, root, t, l);
    TreeLinks(m, m', E, B, TreeSet(B));
    LinksKeep(m, m', E, B);
    RelabelLayout(m', E, B, b, Loose);
    KeptRelabel(m, m', B, b, Loose, 0);
    assert TreeSet(B') == TreeSet(B) - {b};
    InListWords(m, l);
    assert LinksOnly(m, m', E, B);
    SameLength(m, m', E, B);
    FreeList.RingFrame(m, m', l);
    forall x: nat ensures x in l <==> ListMember(B', x) {
      assert ListMember(B, x) <==> ListMember(B', x);
    }
  }

  lemma SameLength(m: seq<Word>, m': seq<Word>, E: nat, B: Blocks)
    requires LinksOnly(m, m', E, B)
    ensures |m'| == |m|
  {
  }

  lemma InListWords(m: seq<Word>, l: seq<nat>)
    requires FreeList.Ring(m, l)
    ensures forall k {:trigger l[k]} :: 0 <= k < |l| ==> 6 <= l[k] && l[k] + 1 < |m| && l[k] in l
    ensures 3 <= |m|
  {
  }

  lemma ErasedFromList(m: seq<Word>, m': seq<Word>, E: nat, B: Blocks, b: nat, root: nat, t: Tree<nat>, l: seq<nat>,
      k: nat)
    requires Layout(m, E, B) && Index(m, B, root, t, l) && ListMember(B, b) && k < |l| && l[k] == b
    requires FreeList.OnlyRing(m, m', l) && FreeList.Ring(m', l[..k] + l[k + 1..])
    ensures Layout(m', E, WithStatus(B, b, Loose)) && Index(m', WithStatus(B, b, Loose), root, t, l[..k] + l[k + 1..])
    ensures Kept(m, m', B, WithStatus(B, b, Loose), 0)
  {
    hide HeapTree.InTree, BlockOk, Tiling, FreeList.Ring, FreeList.InList, FreeList.OnlyRing, LinksOnly;
    var B' := WithStatus(B, b, Loose);
    TreeSetIs(m, E, B, root, t, l);
    RingLinks(m, m', E, B, l);
    LinksKeep(m, m', E, B);
    HeaderOf(m, E, B, b);
    RelabelLayout(m', E, B, b, Loose);
    KeptRelabel(m, m', B, b, Loose, 0);
    assert TreeSet(B') == TreeSet(B);
    SameLength(m, m', E, B);
    TreeUntouched(m, m', E, B, root, t, l);
    RemoveAt(m, l, k);
    forall x: nat ensures x in l[..k] + l[k + 1..] <==> ListMember(B', x) {
      assert ListMember(B', x) <==> ListMember(B, x) && x != b;
    }
  }

  lemma TreeUntouched(m: seq<Word>, m': seq<Word>, E: nat, B: Blocks, root: nat, t: Tree<nat>, l: seq<nat>)
    requires Layout(m, E, B) && HeapTree.InTree(m, root, TreeSet(B), t) && |m'| == |m|
    requires forall n :: n in TreeSet(B) ==> n !in l
    requires forall b {:trigger B[b]} :: b in B && b !in l ==> SameBody(m, m', b, B[b].size) && m'[b - 1] == m[b - 1]
    ensures HeapTree.InTree(m', root, TreeSet(B), t)
  {
    hide HeapTree.InTree;
    forall n | n in TreeSet(B)
      ensures 1 <= n && n + 2 < |m| && m'[n] == m[n] && m'[n + 1] == m[n + 1] && m'[n + 2] == m[n + 2]
      ensures m'[n - 1] == m[n - 1]
    {
      assert B[n].size >= 3 && SameBody(m, m', n, B[n].size);
      assert n <= n < n + 2 * B[n].size - 1;
    }
    TreeFrame(m, m', root, TreeSet(B), t);
  }

  /** ERASE_FROM_TREE_OR_LIST: a free block leaves the index and becomes loose. */
  method EraseFromIndex(mem: array<Word>, root: nat, bp: nat, ghost E: nat, ghost B: Blocks, ghost t: Tree<nat>,
      ghost l: seq<nat>)
    returns (root': nat, ghost t': Tree<nat>, ghost l': seq<nat>)
    requires Layout(mem[..], E, B) && Index(mem[..], B, root, t, l) && bp in B && B[bp].status == Free
    modifies mem
    ensures Layout(mem[..], E, WithStatus(B, bp, Loose)) && Index(mem[..], WithStatus(B, bp, Loose), root', t', l')
    ensures Kept(old(mem[..]), mem[..], B, WithStatus(B, bp, Loose), 0)
  {
    hide Layout, HeapTree.InTree, FreeList.Ring, Separated, Kept;
    ghost var m := mem[..];
    HeaderOf(m, E, B, bp);
    root', t', l' := root, t, l;
    if mem[bp - 1].hi < TREE_MIN {
      assert ListMember(B, bp);
      ghost var k :| 0 <= k < |l| && l[k] == bp;
      FreeList.Unlink(mem, l, k, bp);
      ErasedFromList(m, mem[..], E, B, bp, root, t, l, k);
      l' := l[..k] + l[k + 1..];
    } else {
      ghost var k;
      root', t', k := HeapTree.Erase(mem, root, bp, TreeSet(B), t);
      ErasedFromTree(m, mem[..], E, B, bp, root, t, l, root', t');
    }
  }

  // ------------------------------------------------------------- INSERT or tree_insert

  lemma InsertedInTree(m: seq<Word>, m': seq<Word>, E: nat, B: Blocks, b: nat, root: nat, t: Tree<nat>, l: seq<nat>,
      root': nat, t': Tree<nat>)
    requires Layout(m, E, B) && Separated(B) && Index(m, B, root, t, l) && b in B && B[b].status == Loose &&
      B[b].size >= TREE_MIN && Isolated(B, b)
    requires HeapTree.OnlyLinks(m, m', TreeSet(B) + {b}) && HeapTree.InTree(m', root', TreeSet(B) + {b}, t')
    ensures Inv(m', E, WithStatus(B, b, Free), root', t', l) && Kept(m, m', B, WithStatus(B, b, Free), 0)
  {
    hide HeapTree.OnlyLinks, HeapTree.InTree, BlockOk, Tiling, FreeList.Ring, SameBody, LinksOnly;
    var B' := WithStatus(B, b, Free);
    TreeSetIs(m, E, B, root, t, l);
    TreeLinks(m, m', E, B, TreeSet(B) + {b});
    LinksKeep(m, m', E, B);
    RelabelLayout(m', E, B, b, Free);
    SettleSeparated(B, b);
    KeptRelabel(m, m', B, b, Free, 0);
    assert TreeSet(B') == TreeSet(B) + {b};
    InListWords(m, l);
    SameLength(m, m', E, B);
    assert !ListMember(B, b);
    FreeList.RingFrame(m, m', l);
    forall x: nat ensures x in l <==> ListMember(B', x) {
      assert ListMember(B, x) <==> ListMember(B', x);
    }
  }

  lemma InsertedInList(m: seq<Word>, m': seq<Word>, E: nat, B: Blocks, b: nat, root: nat, t: Tree<nat>, l: seq<nat>)
    requires Layout(m, E, B) && Separated(B) && Index(m, B, root, t, l) && b in B && B[b].status == Loose &&
      2 <= B[b].size < TREE_MIN && Isolated(B, b)
    requires FreeList.OnlyRing(m, m', [b] + l) && FreeList.Ring(m', [b] + l)
    ensures Inv(m', E, WithStatus(B, b, Free), root, t, [b] + l) && Kept(m, m', B, WithStatus(B, b, Free), 0)
  {
    hide HeapTree.InTree, BlockOk, Tiling, FreeList.Ring, FreeList.InList, FreeList.OnlyRing, LinksOnly;
    var B' := WithStatus(B, b, Free);
    TreeSetIs(m, E, B, root, t, l);
    assert b !in TreeSet(B);
    RingLinks(m, m', E, B, [b] + l);
    LinksKeep(m, m', E, B);
    RelabelLayout(m', E, B, b, Free);
    SettleSeparated(B, b);
    KeptRelabel(m, m', B, b, Free, 0);
    assert TreeSet(B') == TreeSet(B);
    SameLength(m, m', E, B);
    TreeUntouched(m, m', E, B, root, t, [b] + l);
    forall x: nat ensures x in [b] + l <==> ListMember(B', x) {
      assert ListMember(B', x) <==> ListMember(B, x) || x == b;
    }
  }

  lemma FrontSpaced(m: seq<Word>, E: nat, B: Blocks, b: nat, l: seq<nat>)
    requires Layout(m, E, B) && FreeList.InList(m, l) && b in B && B[b].size >= 2 && B[b].status == Loose
    requires forall x: nat :: x in l <==> ListMember(B, x)
    ensures FreeList.InList(m, [b] + l)
  {
    var l' := [b] + l;
    assert !ListMember(B, b);
    forall n | n in l' ensures n in B && B[n].size >= 2 {
      if n != b { assert n in l && ListMember(B, n); }
    }
    forall j, k | 0 <= j < k < |l'| ensures l'[j] != l'[k] {
      assert l'[k] == l[k - 1] && l[k - 1] in l;
      if j > 0 { assert l'[j] == l[j - 1]; }
    }
    ListSpaced(m, E, B, l');
  }

  /** The last lines of mm_free, mm_init and place: a loose block between allocated ones enters the index. */
  method InsertIntoIndex(mem: array<Word>, root: nat, bp: nat, ghost E: nat, ghost B: Blocks, ghost t: Tree<nat>,
      ghost l: seq<nat>)
    returns (root': nat, ghost t': Tree<nat>, ghost l': seq<nat>)
    requires Layout(mem[..], E, B) && Separated(B) && Index(mem[..], B, root, t, l)
    requires bp in B && B[bp].status == Loose && B[bp].size >= 2 && Isolated(B, bp)
    modifies mem
    ensures Inv(mem[..], E, WithStatus(B, bp, Free), root', t', l')
    ensures Kept(old(mem[..]), mem[..], B, WithStatus(B, bp, Free), 0)
  {
    hide Layout, HeapTree.InTree, FreeList.Ring, FreeList.InList, Separated, Kept, Isolated;
    ghost var m := mem[..];
    HeaderOf(m, E, B, bp);
    TreeSetIs(m, E, B, root, t, l);
    root', t', l' := root, t, l;
    if mem[bp - 1].hi < TREE_MIN {
      FrontSpaced(m, E, B, bp, l);
      FreeList.PushFront(mem, bp, l);
      l' := [bp] + l;
      InsertedInList(m, mem[..], E, B, bp, root, t, l);
    } else {
      SpacedWith(m, E, B, bp);
      ghost var k;
      root', t', k := HeapTree.Insert(mem, root, bp, TreeSet(B), t);
      InsertedInTree(m, mem[..], E, B, bp, root, t, l, root', t');
    }
  }

  lemma SpacedWith(m: seq<Word>, E: nat, B: Blocks, b: nat)
    requires Layout(m, E, B) && b in B && B[b].size >= TREE_MIN
    ensures HeapTree.Spaced(m, TreeSet(B) + {b})
  {
    TreeSpaced(m, E, B, TreeSet(B) + {b});
  }
}
