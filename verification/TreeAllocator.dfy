/**
 mm_tree_rbtree.c: the boundary-tag allocator whose free blocks hold the index that finds them.
 */
module TreeAllocators {
  import opened Words
  import opened Blocks
  import opened Trees
  import opened HeapIndex
  import HeapTree
  import FreeList
  import Memlib

  /** CHUNKSIZE, in double words. */
  const CHUNK: nat := 512

  /** ALIGN, in bytes. */
  function Align(size: nat): nat { (size + 7) / 8 * 8 }

  /** size_in_need, in double words: the least block, of at least two double words, whose payload
      (all but the header word) holds `size` bytes. */
  function SizeInNeed(size: nat): (d: nat)
    ensures d >= 2 && size + 4 <= 8 * d && (d == 2 || 8 * (d - 1) < size + 4)
  {
    var a := if Align(size) - size >= 4 then Align(size) else Align(size) + 8;
    (if a > 16 then a else 16) / 8
  }

  // ------------------------------------------------------------- header steps

  /** What a rewritten stretch must look like for the rest of the heap not to notice. */
  ghost predicate Sound(m': seq<Word>, E: nat, B: Blocks, B': Blocks, lo: nat, hi: nat, x: nat) {
    Tiling(B', E) && Sized(B') && Stretch(B, E, lo, hi) && Within(B, B', lo, hi) &&
    (forall b {:trigger BlockOk(m', B', b)} :: b in B' && lo <= b < hi ==> BlockOk(m', B', b)) &&
    (forall b {:trigger B'[b]} :: b in B' && lo <= b < hi ==> B'[b].status != Free) &&
    (forall b {:trigger B[b]} :: b in B && lo <= b < hi ==> B[b].status != Free && (Occupied(B[b].status) ==> b == x))
  }

  lemma IndexAround(m: seq<Word>, m': seq<Word>, E: nat, B: Blocks, B': Blocks, lo: nat, hi: nat, x: nat, root: nat,
      t: Tree<nat>, l: seq<nat>)
    requires Layout(m, E, B) && Index(m, B, root, t, l) && Rewritten(m, m', lo, hi) && Sound(m', E, B, B', lo, hi, x)
    ensures Index(m', B', root, t, l)
  {
    hide HeapTree.InTree, FreeList.Ring, BlockOk;
    assert TreeSet(B') == TreeSet(B);
    assert FIRST <= lo by { assert B[lo].size >= 1; }
    forall n | n in TreeSet(B)
      ensures 1 <= n && n + 2 < |m| && m'[n] == m[n] && m'[n + 1] == m[n + 1] && m'[n + 2] == m[n + 2]
      ensures m'[n - 1].hi == m[n - 1].hi && m'[n - 1].b2 == m[n - 1].b2
    {
      assert B[n].size >= 3 && B[lo].size >= 1;
    }
    TreeFrame(m, m', root, TreeSet(B), t);
    InListWords(m, l);
    forall k | 0 <= k < |l| ensures l[k] + 1 < |m| && m'[l[k]] == m[l[k]] && m'[l[k] + 1] == m[l[k] + 1] {
      assert l[k] in l && ListMember(B, l[k]) && B[l[k]].size >= 2;
    }
    FreeList.RingFrame(m, m', l);
    forall b: nat ensures b in l <==> ListMember(B', b) {
      assert ListMember(B', b) <==> ListMember(B, b);
    }
  }

  /** A sound rewriting of a stretch without free blocks keeps layout, index and contents. */
  lemma Restructure(m: seq<Word>, m': seq<Word>, E: nat, B: Blocks, B': Blocks, lo: nat, hi: nat, x: nat, root: nat,
      t: Tree<nat>, l: seq<nat>)
    requires Layout(m, E, B) && Index(m, B, root, t, l) && Rewritten(m, m', lo, hi) && Sound(m', E, B, B', lo, hi, x)
    ensures Layout(m', E, B') && Index(m', B', root, t, l) && Kept(m, m', B, B', x)
  {
    IndexAround(m, m', E, B, B', lo, hi, x, root, t, l);
    hide HeapTree.InTree, FreeList.Ring, Index, BlockOk, Tiling, Rewritten, Within, Kept;
    Reshape(m, m', E, B, B', lo, hi);
    ReshapeKept(m, m', E, B, B', lo, hi, x);
  }

  lemma StatusSound(m: seq<Word>, m': seq<Word>, E: nat, B: Blocks, p: nat, s: Status, x: nat)
    requires Layout(m, E, B) && p in B && B[p].status != Free && (Occupied(B[p].status) ==> p == x) && s != Free &&
      B[p].size >= 2
    requires BlockOk(m', WithStatus(B, p, s), p)
    ensures Sound(m', E, B, WithStatus(B, p, s), p, p + 2 * B[p].size, x)
  {
    hide BlockOk, Tiling, Within;
    HeaderOf(m, E, B, p);
    LayoutTiling(m, E, B);
    StatusTiling(B, E, p, s);
    OnlyBlock(m, E, B, p);
    EndsAt(m, E, B, p);
  }

  lemma JoinSound(m: seq<Word>, m': seq<Word>, E: nat, B: Blocks, lo: nat, hi: nat, s: Status, x: nat)
    requires Layout(m, E, B) && Stretch(B, E, lo, hi) && s != Free && (s == Loose || lo + 4 <= hi)
    requires forall b {:trigger B[b]} ::
      b in B && lo <= b < hi ==> B[b].status != Free && (Occupied(B[b].status) ==> b == x)
    requires BlockOk(m', Join(B, lo, hi, s), lo)
    ensures Sound(m', E, B, Join(B, lo, hi, s), lo, hi, x)
  {
    hide BlockOk, Tiling, Within;
    LayoutTiling(m, E, B);
    JoinTiling(B, E, lo, hi, s);
  }

  lemma OnlyBlock(m: seq<Word>, E: nat, B: Blocks, p: nat)
    requires Layout(m, E, B) && p in B
    ensures forall b {:trigger B[b]} :: b in B && p <= b < Next(B, p) ==> b == p
  {
    forall b | b in B && p <= b < Next(B, p) ensures b == p { assert B[p].size >= 1 && B[b].size >= 1; }
  }

  /** Memory after the header steps of mm_free. */
  function FreedMem(m: seq<Word>, p: nat, d: nat): seq<Word>
    requires 1 <= p && 1 <= d && p + 2 * d <= |m|
  {
    m[p - 1 := m[p - 1].(b0 := false)][p + 2 * d - 1 := m[p + 2 * d - 1].(b1 := false)][p + 2 * d - 2 := Pack(d, false)]
  }

  lemma Freed(m: seq<Word>, E: nat, B: Blocks, p: nat, root: nat, t: Tree<nat>, l: seq<nat>)
    requires Layout(m, E, B) && Index(m, B, root, t, l) && p in B && Occupied(B[p].status)
    ensures var (m', B') := (FreedMem(m, p, B[p].size), WithStatus(B, p, Loose));
      Layout(m', E, B') && Index(m', B', root, t, l) && Kept(m, m', B, B', p)
  {
    hide HeapTree.InTree, FreeList.Ring, Index, Layout, Sound, Kept;
    HeaderOf(m, E, B, p);
    var m', B' := FreedMem(m, p, B[p].size), WithStatus(B, p, Loose);
    assert BlockOk(m', B', p);
    StatusSound(m, m', E, B, p, Loose, p);
    Restructure(m, m', E, B, B', p, Next(B, p), p, root, t, l);
  }

  /** Memory after SET_ALLOC on a block and SET_TAG on the next one. */
  function TakenMem(m: seq<Word>, p: nat, d: nat): seq<Word>
    requires 1 <= p && 1 <= d && p + 2 * d <= |m|
  {
    m[p - 1 := m[p - 1].(b0 := true)][p + 2 * d - 1 := m[p + 2 * d - 1].(b1 := true)]
  }

  lemma Taken(m: seq<Word>, E: nat, B: Blocks, p: nat, root: nat, t: Tree<nat>, l: seq<nat>, x: nat)
    requires Layout(m, E, B) && Index(m, B, root, t, l) && p in B && B[p].status != Free && B[p].size >= 2 &&
      (Occupied(B[p].status) ==> p == x)
    ensures 1 <= p && p + 2 * B[p].size <= |m|
    ensures var (m', B') := (TakenMem(m, p, B[p].size), WithStatus(B, p, Live));
      Layout(m', E, B') && Index(m', B', root, t, l) && Kept(m, m', B, B', x)
  {
    hide HeapTree.InTree, FreeList.Ring, Index, Layout, Sound, Kept;
    HeaderOf(m, E, B, p);
    var m', B' := TakenMem(m, p, B[p].size), WithStatus(B, p, Live);
    assert BlockOk(m', B', p);
    StatusSound(m, m', E, B, p, Live, x);
    Restructure(m, m', E, B, B', p, Next(B, p), x, root, t, l);
  }

  /** Memory in which the blocks from `lo` to `hi` have become one loose block. */
  ghost predicate JoinedMem(m: seq<Word>, m': seq<Word>, lo: nat, hi: nat) {
    Rewritten(m, m', lo, hi) && lo + 2 <= hi && (hi - lo) % 2 == 0 && m'[lo - 1].hi == (hi - lo) / 2 &&
    m'[lo - 1].b0 == m[lo - 1].b0 && m'[hi - 1] == m[hi - 1] && m'[hi - 2].hi == (hi - lo) / 2
  }

  /** SET_SIZE on a header and PUT on the footer of what becomes one block. */
  function JoinedWords(m: seq<Word>, lo: nat, hi: nat, size: nat): (m': seq<Word>)
    requires 1 <= lo && lo + 2 <= hi <= |m| && hi - lo == 2 * size
    ensures JoinedMem(m, m', lo, hi)
  {
    m[lo - 1 := m[lo - 1].(hi := size)][hi - 2 := Pack(size, false)]
  }

  /** A stretch of loose blocks. */
  ghost predicate AllLoose(B: Blocks, lo: nat, hi: nat) {
    forall b {:trigger B[b]} :: b in B && lo <= b < hi ==> B[b].status == Loose
  }

  lemma LastOf(B: Blocks, E: nat, lo: nat, hi: nat) returns (p: nat)
    requires Tiling(B, E) && Stretch(B, E, lo, hi)
    ensures p in B && Next(B, p) == hi && lo <= p < hi
  {
    assert FIRST <= lo by { assert B[lo].size >= 1; }
    p := PrevBlock(B, E, hi);
    assert B[p].size >= 1 && B[lo].size >= 1;
  }

  lemma Joined(m: seq<Word>, m': seq<Word>, E: nat, B: Blocks, lo: nat, hi: nat, root: nat, t: Tree<nat>, l: seq<nat>)
    requires Layout(m, E, B) && Index(m, B, root, t, l) && Stretch(B, E, lo, hi) && AllLoose(B, lo, hi) &&
      JoinedMem(m, m', lo, hi)
    ensures Layout(m', E, Join(B, lo, hi, Loose)) && Index(m', Join(B, lo, hi, Loose), root, t, l) &&
      Kept(m, m', B, Join(B, lo, hi, Loose), 0)
  {
    hide HeapTree.InTree, FreeList.Ring, Index, Layout, Sound, Kept, Tiling;
    var B' := Join(B, lo, hi, Loose);
    HeaderOf(m, E, B, lo);
    LayoutTiling(m, E, B);
    var p := LastOf(B, E, lo, hi);
    HeaderOf(m, E, B, p);
    assert BlockOk(m', B', lo);
    JoinSound(m, m', E, B, lo, hi, Loose, 0);
    Restructure(m, m', E, B, B', lo, hi, 0, root, t, l);
  }

  // ------------------------------------------------------------- coalescing

  /** Loose block `p` and the free blocks right before and after it reach from `lo` to `hi`. */
  ghost predicate FreeRun(B: Blocks, p: nat, lo: nat, hi: nat) {
    p in B && B[p].status == Loose && lo in B &&
    (if lo == p then forall a {:trigger Next(B, a)} :: a in B && Next(B, a) == p ==> B[a].status != Free
     else Next(B, lo) == p && B[lo].status == Free) &&
    (var n := Next(B, p);
     if hi == n then n in B ==> B[n].status != Free
     else n in B && B[n].status == Free && hi == Next(B, n))
  }

  /** The free block that ends at `e` begins at `p`; when none does, `p` is `e` itself. */
  ghost predicate EndAt(B: Blocks, e: nat, p: nat) {
    if p == e then forall a {:trigger Next(B, a)} :: a in B && a < e && Next(B, a) == e ==> B[a].status != Free
    else p in B && p < e && Next(B, p) == e && B[p].status == Free
  }

  ghost function EndStart(B: Blocks, e: nat): (p: nat)
    ensures EndAt(B, e, p)
  {
    if exists p: nat {:trigger Next(B, p)} :: p in B && p < e && Next(B, p) == e && B[p].status == Free then
      var p: nat {:trigger Next(B, p)} :| p in B && p < e && Next(B, p) == e && B[p].status == Free; p
    else e
  }

  lemma EndUnique(B: Blocks, E: nat, e: nat, p: nat)
    requires Tiling(B, E) && EndAt(B, e, p)
    ensures p == EndStart(B, e) && p <= e
  {
    hide Tiling;
    var q := EndStart(B, e);
    if p in B { TileAt(B, E, p); }
    if q in B { TileAt(B, E, q); }
    if p in B && q in B && p != e && q != e {
      if p < q { TileBefore(B, E, p, q); }
      if q < p { TileBefore(B, E, q, p); }
    }
  }

  /** Where the free block right behind block `p` ends, or where `p` does when there is none. */
  ghost function Back(B: Blocks, p: nat): nat
    requires p in B
  {
    var n := Next(B, p);
    if n in B && B[n].status == Free then Next(B, n) else n
  }

  lemma RunEnds(B: Blocks, E: nat, p: nat, lo: nat, hi: nat)
    requires Tiling(B, E) && p in B && B[p].status != Free && FreeRun(WithStatus(B, p, Loose), p, lo, hi)
    ensures lo == EndStart(B, p) && hi == Back(B, p)
  {
    hide Tiling;
    var L := WithStatus(B, p, Loose);
    TileAt(B, E, p);
    forall a | a in B ensures Next(L, a) == Next(B, a) {}
    if lo == p { forall a | a in B && Next(B, a) == p ensures B[a].status != Free { assert Next(L, a) == p; } }
    if lo in B { TileAt(B, E, lo); }
    EndUnique(B, E, p, lo);
  }

  /** The end of the heap as extend_heap sees it. */
  lemma LastRun(B: Blocks, E: nat, d: nat, lo: nat, hi: nat)
    requires Tiling(B, E) && d >= 1 && FreeRun(Append(B, E, d, Loose), E, lo, hi)
    ensures lo == EndStart(B, E)
  {
    hide Tiling;
    var A := Append(B, E, d, Loose);
    forall a | a in B ensures a != E && Next(A, a) == Next(B, a) { TileAt(B, E, a); }
    if lo == E { forall a | a in B && Next(B, a) == E ensures B[a].status != Free { assert Next(A, a) == E; } }
    if lo in B { TileAt(B, E, lo); }
    EndUnique(B, E, E, lo);
  }

  /** The heap extended to `E'`, the new memory joined to a free block before it. */
  ghost function WithMore(B: Blocks, E: nat, E': nat): Blocks
    requires E < E'
  {
    Join(Append(B, E, (E' - E) / 2, Free), EndStart(B, E), E', Free)
  }

  lemma RunIsStretch(B: Blocks, E: nat, p: nat, lo: nat, hi: nat)
    requires Tiling(B, E) && FreeRun(B, p, lo, hi)
    ensures Stretch(B, E, lo, hi) && lo <= p < hi && lo + 2 <= hi
    ensures forall b {:trigger B[b]} :: b in B && lo <= b < hi ==> b == lo || b == p || b == Next(B, p)
  {
    assert B[p].size >= 1 && B[lo].size >= 1 && Next(B, lo) <= E;
    var n := Next(B, p);
    if n in B { assert B[n].size >= 1 && Next(B, n) <= E; }
  }

  lemma RunJoined(B: Blocks, E: nat, p: nat, lo: nat, hi: nat)
    requires Tiling(B, E) && Separated(B) && OneLoose(B, p) && FreeRun(B, p, lo, hi)
    ensures var B' := Join(B, lo, hi, Loose);
      lo in B' && B'[lo] == Block((hi - lo) / 2, Loose) && Separated(B') && OneLoose(B', lo) && Isolated(B', lo)
  {
    hide Tiling, Separated, FreeRun, Isolated, OneLoose;
    RunIsStretch(B, E, p, lo, hi);
    JoinTiling(B, E, lo, hi, Loose);
    RunLoose(B, E, p, lo, hi);
    if hi in B { RunAfter(B, E, p, lo, hi); }
    forall a | a in B && Next(B, a) == lo ensures B[a].status == Live { RunBefore(B, E, p, lo, hi, a); }
    JoinSeparated(B, E, lo, hi, Loose);
  }

  lemma RunLoose(B: Blocks, E: nat, p: nat, lo: nat, hi: nat)
    requires Tiling(B, E) && OneLoose(B, p) && FreeRun(B, p, lo, hi) && lo < hi
    ensures OneLoose(Join(B, lo, hi, Loose), lo)
  {
    RunIsStretch(B, E, p, lo, hi);
  }

  lemma JoinSeparated(B: Blocks, E: nat, lo: nat, hi: nat, s: Status)
    requires Tiling(B, E) && Separated(B) && Stretch(B, E, lo, hi)
    requires hi in B ==> B[hi].status == Live
    requires forall a {:trigger Next(B, a)} :: a in B && Next(B, a) == lo ==> B[a].status == Live
    ensures Separated(Join(B, lo, hi, s)) && lo in Join(B, lo, hi, s) && Isolated(Join(B, lo, hi, s), lo)
  {
    hide Tiling;
    JoinTiling(B, E, lo, hi, s);
    var B' := Join(B, lo, hi, s);
    forall a | a in B' && Next(B', a) in B' ensures Fine(B'[a].status, B'[Next(B', a)].status) {
      if a != lo {
        var n := Next(B, a);
        assert Next(B', a) == n && Fine(B[a].status, B[n].status);
        assert n == lo ==> B'[a].status == Live;
      }
    }
    forall a | a in B' && Next(B', a) == lo ensures B'[a].status == Live {
      if a != lo { assert Next(B, a) == lo; }
    }
  }

  lemma RunAfter(B: Blocks, E: nat, p: nat, lo: nat, hi: nat)
    requires Tiling(B, E) && Separated(B) && OneLoose(B, p) && FreeRun(B, p, lo, hi) && hi in B
    ensures B[hi].status == Live
  {
    var n := Next(B, p);
    assert B[p].size >= 1 && (n in B ==> B[n].size >= 1);
    assert n in B ==> Fine(B[p].status, B[n].status);
    if hi != n { assert Fine(B[n].status, B[Next(B, n)].status); }
  }

  lemma RunBefore(B: Blocks, E: nat, p: nat, lo: nat, hi: nat, a: nat)
    requires Tiling(B, E) && Separated(B) && OneLoose(B, p) && FreeRun(B, p, lo, hi) && a in B && Next(B, a) == lo
    ensures B[a].status == Live
  {
    assert B[a].size >= 1 && B[lo].size >= 1;
    assert Fine(B[a].status, B[Next(B, a)].status);
  }

  /** Between allocated neighbours, the tag is set and the next block is marked allocated. */
  lemma IsolatedBits(m: seq<Word>, E: nat, B: Blocks, p: nat)
    requires Layout(m, E, B) && p in B && Isolated(B, p)
    ensures FIRST <= p && p + 2 * B[p].size <= E <= |m| && m[p - 1].b1 && m[p + 2 * B[p].size - 1].b0 && B[p].size >= 1
  {
    HeaderOf(m, E, B, p);
    if p != FIRST {
      var a := PrevBlock(B, E, p);
      HeaderOf(m, E, B, a);
    }
    if Next(B, p) in B { HeaderOf(m, E, B, Next(B, p)); }
  }

  /** Memory after a loose stretch has been split into a live part and a loose one. */
  ghost predicate SplitMem(m: seq<Word>, m': seq<Word>, lo: nat, mid: nat, hi: nat, front: bool) {
    Rewritten(m, m', lo, hi) && lo + 2 <= mid && mid + 2 <= hi && (mid - lo) % 2 == 0 && (hi - mid) % 2 == 0 &&
    m'[lo - 1].hi == (mid - lo) / 2 && m'[mid - 1].hi == (hi - mid) / 2 &&
    if front
      then m'[lo - 1].b0 && m'[mid - 1].b1 && !m'[mid - 1].b0 && m'[hi - 2].hi == (hi - mid) / 2 && !m'[hi - 1].b1
    else !m'[lo - 1].b0 && m'[mid - 2].hi == (mid - lo) / 2 && !m'[mid - 1].b1 && m'[mid - 1].b0 && m'[hi - 1].b1
  }

  /** Memory after a block has been cut, the new one behind the rest. */
  function BackMem(m: seq<Word>, lo: nat, mid: nat, hi: nat): seq<Word>
    requires 1 <= lo && lo + 2 <= mid && mid + 2 <= hi <= |m|
  {
    m[lo - 1 := Word((mid - lo) / 2, m[lo - 1].b2, true, false)][mid - 2 := Pack((mid - lo) / 2, false)]
     [mid - 1 := Word((hi - mid) / 2, m[mid - 1].b2, false, true)][hi - 1 := m[hi - 1].(b1 := true)]
  }

  lemma BackIsSplit(m: seq<Word>, lo: nat, mid: nat, hi: nat)
    requires 1 <= lo && lo + 4 <= mid && mid + 4 <= hi <= |m| && (mid - lo) % 2 == 0 && (hi - mid) % 2 == 0 &&
      m[lo - 1].b1
    ensures SplitMem(m, BackMem(m, lo, mid, hi), lo, mid, hi, false)
  {
  }

  lemma SplitUp(m: seq<Word>, m': seq<Word>, E: nat, B: Blocks, p: nat, d: nat, front: bool, root: nat, t: Tree<nat>,
      l: seq<nat>)
    requires Layout(m, E, B) && Index(m, B, root, t, l) && p in B && B[p].status == Loose && 2 <= d &&
      d + 2 <= B[p].size
    requires SplitMem(m, m', p, p + 2 * d, p + 2 * B[p].size, front)
    ensures var B' := if front then Split(B, p, d, Live, Loose) else Split(B, p, d, Loose, Live);
      Layout(m', E, B') && Index(m', B', root, t, l) && Kept(m, m', B, B', 0)
  {
    hide Index, Tiling, Sized, BlockOk, Sound, SplitMem, Split;
    var s, u := if front then Live else Loose, if front then Loose else Live;
    var B' := Split(B, p, d, s, u);
    SplitSound(m, m', E, B, p, d, front);
    MemIsRewritten(m, m', p, p + 2 * d, p + 2 * B[p].size, front);
    Restructure(m, m', E, B, B', p, Next(B, p), 0, root, t, l);
  }

  lemma MemIsRewritten(m: seq<Word>, m': seq<Word>, lo: nat, mid: nat, hi: nat, front: bool)
    requires SplitMem(m, m', lo, mid, hi, front)
    ensures Rewritten(m, m', lo, hi)
  {
  }

  lemma SplitSound(m: seq<Word>, m': seq<Word>, E: nat, B: Blocks, p: nat, d: nat, front: bool)
    requires Layout(m, E, B) && p in B && B[p].status == Loose && 2 <= d && d + 2 <= B[p].size
    requires SplitMem(m, m', p, p + 2 * d, p + 2 * B[p].size, front)
    ensures var B' := if front then Split(B, p, d, Live, Loose) else Split(B, p, d, Loose, Live);
      Sound(m', E, B, B', p, p + 2 * B[p].size, 0)
  {
    hide Tiling, BlockOk, Sized, SplitMem, Within, Split;
    var s, u := if front then Live else Loose, if front then Loose else Live;
    HeaderOf(m, E, B, p);
    SplitTiling(B, E, p, d, s, u);
    SplitShape(m, E, B, p, d, s, u);
    EndsAt(m, E, B, p);
    SplitBlocks(m, m', E, B, p, d, front);
  }

  lemma SplitShape(m: seq<Word>, E: nat, B: Blocks, p: nat, d: nat, s: Status, u: Status)
    requires Layout(m, E, B) && p in B && 2 <= d && d + 2 <= B[p].size
    ensures Sized(Split(B, p, d, s, u))
    ensures p in Split(B, p, d, s, u) && Split(B, p, d, s, u)[p].status == s
    ensures p + 2 * d in Split(B, p, d, s, u) && Split(B, p, d, s, u)[p + 2 * d].status == u
    ensures forall b {:trigger B[b]} :: b in B && p <= b < Next(B, p) ==> b == p
  {
    forall b | b in B && p <= b < Next(B, p) ensures b == p { assert B[p].size >= 1 && B[b].size >= 1; }
  }

  lemma EndsAt(m: seq<Word>, E: nat, B: Blocks, p: nat)
    requires Layout(m, E, B) && p in B
    ensures Next(B, p) in B || Next(B, p) == E
  {
  }

  lemma SplitBlocks(m: seq<Word>, m': seq<Word>, E: nat, B: Blocks, p: nat, d: nat, front: bool)
    requires p in B && 2 <= d && d + 2 <= B[p].size && 1 <= p
    requires SplitMem(m, m', p, p + 2 * d, p + 2 * B[p].size, front)
    ensures var B' := if front then Split(B, p, d, Live, Loose) else Split(B, p, d, Loose, Live);
      BlockOk(m', B', p) && BlockOk(m', B', p + 2 * d)
  {
  }

  lemma SplitSeparated(B: Blocks, E: nat, p: nat, d: nat, front: bool)
    requires Tiling(B, E) && Separated(B) && p in B && Isolated(B, p) && 1 <= d < B[p].size
    ensures var B' := if front then Split(B, p, d, Live, Loose) else Split(B, p, d, Loose, Live);
      Separated(B') && Isolated(B', if front then p + 2 * d else p)
  {
    hide Tiling, Within;
    var s, u := if front then Live else Loose, if front then Loose else Live;
    SplitTiling(B, E, p, d, s, u);
    var B', q := Split(B, p, d, s, u), p + 2 * d;
    forall a | a in B' && Next(B', a) in B' ensures Fine(B'[a].status, B'[Next(B', a)].status) {
      if a != p && a != q {
        assert Next(B', a) == Next(B, a);
        QNotNext(B, E, p, q, a);
        if Next(B, a) in B { assert Fine(B[a].status, B[Next(B, a)].status); }
      }
    }
    var f := if front then q else p;
    forall a | a in B' && Next(B', a) == f ensures B'[a].status == Live {
      if a != p && a != q { assert Next(B, a) == f; QNotNext(B, E, p, q, a); }
    }
  }

  lemma QNotNext(B: Blocks, E: nat, p: nat, q: nat, a: nat)
    requires Tiling(B, E) && p in B && p < q < Next(B, p) && a in B
    ensures Next(B, a) != q
  {
    assert B[a].size >= 1 && B[p].size >= 1 && Next(B, p) <= E;
  }

  lemma TakenSeparated(B: Blocks, p: nat)
    requires Separated(B) && p in B
    ensures Separated(WithStatus(B, p, Live))
  {
    var B' := WithStatus(B, p, Live);
    forall a | a in B' && Next(B', a) in B' ensures Fine(B'[a].status, B'[Next(B', a)].status) {
      var n := Next(B, a);
      assert Next(B', a) == n && Fine(B[a].status, B[n].status);
      assert a != p ==> B'[a] == B[a];
      assert n != p ==> B'[n] == B[n];
    }
  }

  /** Memory after the new block of extend_heap has its header and footer and the epilogue has moved. */
  function ExtendedMem(m: seq<Word>, E: nat, d: nat): seq<Word>
    requires 1 <= E && 1 <= d && E + 2 * d <= |m|
  {
    m[E - 1 := m[E - 1].(hi := d, b0 := false)][E + 2 * d - 2 := Pack(d, false)][E + 2 * d - 1 := Pack(0, true)]
  }

  lemma Extended(m: seq<Word>, E: nat, B: Blocks, d: nat, root: nat, t: Tree<nat>, l: seq<nat>)
    requires Layout(m, E, B) && Index(m, B, root, t, l) && d >= 1 && E + 2 * d <= |m|
    ensures var (m', B') := (ExtendedMem(m, E, d), Append(B, E, d, Loose));
      Layout(m', E + 2 * d, B') && Index(m', B', root, t, l) && Kept(m, m', B, B', 0)
  {
    hide Layout, HeapTree.InTree, FreeList.Ring, FreeList.InList, Append, ExtendedMem, Kept;
    EndBounds(m, E, B);
    var m', B' := ExtendedMem(m, E, d), Append(B, E, d, Loose);
    ExtendedLayout(m, E, B, d);
    ExtendedSets(m, E, B, d);
    forall n | n in TreeSet(B)
      ensures 1 <= n && n + 2 < |m| && m'[n] == m[n] && m'[n + 1] == m[n + 1] && m'[n + 2] == m[n + 2] &&
        m'[n - 1] == m[n - 1]
    {
      ExtendedClear(m, E, B, d, n);
    }
    TreeFrame(m, m', root, TreeSet(B), t);
    InListWords(m, l);
    forall k | 0 <= k < |l| ensures l[k] + 1 < |m| && m'[l[k]] == m[l[k]] && m'[l[k] + 1] == m[l[k] + 1] {
      assert l[k] in l && ListMember(B, l[k]);
      ExtendedClear(m, E, B, d, l[k]);
    }
    FreeList.RingFrame(m, m', l);
    forall b: nat ensures b in l <==> ListMember(B', b) {
      assert ListMember(B', b) <==> ListMember(B, b);
    }
  }

  /** A loose block at the end belongs to no index. */
  lemma ExtendedSets(m: seq<Word>, E: nat, B: Blocks, d: nat)
    requires Layout(m, E, B) && d >= 1 && E + 2 * d <= |m|
    ensures var B' := Append(B, E, d, Loose);
      TreeSet(B') == TreeSet(B) && forall b: nat :: ListMember(B', b) <==> ListMember(B, b)
    ensures var m' := ExtendedMem(m, E, d); |m'| == |m| >= 6 && m'[1] == m[1] && m'[2] == m[2]
  {
    AppendTiling(B, E, d, Loose);
    EndBounds(m, E, B);
  }

  /** Free blocks keep clear of the end of the heap. */
  lemma ExtendedClear(m: seq<Word>, E: nat, B: Blocks, d: nat, n: nat)
    requires Layout(m, E, B) && d >= 1 && E + 2 * d <= |m| && n in B && B[n].status == Free
    ensures var m' := ExtendedMem(m, E, d);
      1 <= n && n + 2 < |m| && |m'| == |m| && m'[n] == m[n] && m'[n + 1] == m[n + 1] && m'[n - 1] == m[n - 1] &&
        (B[n].size >= 3 ==> m'[n + 2] == m[n + 2])
  {
    HeaderOf(m, E, B, n);
    assert B[n].size >= 2 && n + 2 * B[n].size <= E;
    hide Layout, Tiling, Sized;
  }

  lemma ExtendedLayout(m: seq<Word>, E: nat, B: Blocks, d: nat)
    requires Layout(m, E, B) && d >= 1 && E + 2 * d <= |m|
    ensures var (m', B') := (ExtendedMem(m, E, d), Append(B, E, d, Loose));
      Layout(m', E + 2 * d, B') && Kept(m, m', B, B', 0)
  {
    hide Tiling, BlockOk, SameBody;
    EndBounds(m, E, B);
    var m', B' := ExtendedMem(m, E, d), Append(B, E, d, Loose);
    AppendTiling(B, E, d, Loose);
    FirstTag(m, E, B);
    forall b | b in B ensures b in B' && b != E && B'[b] == B[b] && BlockOk(m', B', b) &&
      SameBody(m, m', b, B[b].size) {
      ExtendedBlock(m, E, B, d, b);
    }
    assert BlockOk(m', B', E) by { ExtendedEnd(m, E, B, d); }
  }

  lemma FirstTag(m: seq<Word>, E: nat, B: Blocks)
    requires Layout(m, E, B)
    ensures |m| >= 6 && m[5].b1 && m[E - 1].hi == 0 && m[E - 1].b0
  {
  }

  lemma ExtendedBlock(m: seq<Word>, E: nat, B: Blocks, d: nat, b: nat)
    requires Layout(m, E, B) && d >= 1 && E + 2 * d <= |m| && b in B
    ensures var (m', B') := (ExtendedMem(m, E, d), Append(B, E, d, Loose));
      b != E && B'[b] == B[b] && BlockOk(m', B', b) && SameBody(m, m', b, B[b].size)
  {
    HeaderOf(m, E, B, b);
    assert BlockOk(m, B, b);
    hide Tiling;
  }

  lemma ExtendedEnd(m: seq<Word>, E: nat, B: Blocks, d: nat)
    requires 1 <= E && d >= 1 && E + 2 * d <= |m|
    ensures BlockOk(ExtendedMem(m, E, d), Append(B, E, d, Loose), E)
  {
  }

  lemma AppendSeparated(B: Blocks, E: nat, d: nat)
    requires Tiling(B, E) && Separated(B) && d >= 1
    requires forall a {:trigger Next(B, a)} :: a in B && Next(B, a) == E ==> B[a].status != Limbo
    ensures Separated(Append(B, E, d, Loose))
  {
    AppendTiling(B, E, d, Loose);
    var B' := Append(B, E, d, Loose);
    forall a | a in B' && Next(B', a) in B' ensures Fine(B'[a].status, B'[Next(B', a)].status) {
      if a != E {
        assert Next(B', a) == Next(B, a);
        if Next(B, a) in B { assert Fine(B[a].status, B[Next(B, a)].status); }
      }
    }
  }

  ghost predicate Unused(B: Blocks, b: nat) { b !in B || !Occupied(B[b].status) }

  /** No block of `B'` in use is new, but for `y`. */
  ghost predicate NoneNew(B: Blocks, B': Blocks, y: nat) {
    forall b {:trigger B'[b]} :: b in B' && b != y && Occupied(B'[b].status) ==> b in B && B[b] == B'[b]
  }

  ghost predicate Settled(B: Blocks) {
    forall b {:trigger B[b]} :: b in B ==> B[b].status == Live || B[b].status == Free
  }

  ghost predicate NoLoose(B: Blocks) {
    forall b {:trigger B[b]} :: b in B ==> B[b].status != Loose
  }

  class TreeAllocator {
    const mem: array<Word>    // what memlib can hand out
    var brk: nat              // words handed out so far
    var root: nat             // tree_root
    var epilogue: nat         // heap_epilogue
    ghost var blocks: Blocks
    ghost var tree: Tree<nat>
    ghost var list: seq<nat>

    /** mem_init (memlib.c) */
    constructor (capacity: nat)
      ensures brk == 0 && mem.Length == capacity && fresh(mem)
    {
      mem := new Word[capacity](_ => OfValue(0));
      brk, root, epilogue := 0, 0, 0;
      blocks, tree, list := map[], Leaf, [];
    }

    /** The heap is in order, whatever call is under way. */
    ghost predicate Heap()
      reads this, mem
    {
      Inv(mem[..], brk, blocks, root, tree, list) && epilogue + 1 == brk
    }

    /** Blocks and index are in order; two unallocated blocks may touch. */
    ghost predicate Sturdy()
      reads this, mem
    {
      Layout(mem[..], brk, blocks) && Index(mem[..], blocks, root, tree, list) && epilogue + 1 == brk
    }

    /** Takes a free block out of the index. */
    method DropFromIndex(bp: nat)
      requires Sturdy() && bp in blocks && blocks[bp].status == Free
      modifies this, mem
      ensures Sturdy() && brk == old(brk) && blocks == WithStatus(old(blocks), bp, Loose)
      ensures Kept(old(mem[..]), mem[..], old(blocks), blocks, 0)
    {
      hide Layout, Index, Kept;
      root, tree, list := EraseFromIndex(mem, root, bp, brk, blocks, tree, list);
      blocks := WithStatus(blocks, bp, Loose);
    }

    /** Puts a loose block between allocated ones into the index. */
    method AddToIndex(bp: nat)
      requires Heap() && bp in blocks && blocks[bp].status == Loose && blocks[bp].size >= 2 && Isolated(blocks, bp)
      modifies this, mem
      ensures Heap() && brk == old(brk) && blocks == WithStatus(old(blocks), bp, Free)
      ensures Kept(old(mem[..]), mem[..], old(blocks), blocks, 0)
    {
      hide Layout, Separated, Index, Kept, Isolated;
      root, tree, list := InsertIntoIndex(mem, root, bp, brk, blocks, tree, list);
      blocks := WithStatus(blocks, bp, Free);
    }

    /** The blocks from `lo` to `hi` are one loose block from now on. */
    ghost method Adopt(m: seq<Word>, lo: nat, hi: nat, B: Blocks)
      requires Layout(m, brk, blocks) && Index(m, blocks, root, tree, list) && epilogue + 1 == brk
      requires Stretch(blocks, brk, lo, hi) && AllLoose(blocks, lo, hi) && JoinedMem(m, mem[..], lo, hi)
      requires B == Join(blocks, lo, hi, Loose) && Separated(B)
      modifies this
      ensures Heap() && brk == old(brk) && blocks == B
      ensures Kept(m, mem[..], old(blocks), blocks, 0)
    {
      hide Layout, Index, JoinedMem, AllLoose, Stretch, Kept, Separated, Join;
      Joined(m, mem[..], brk, blocks, lo, hi, root, tree, list);
      blocks := B;
    }

    /** Case 2: the next block is free. */
    method MergeNext(bp: nat, size0: nat, ghost hi: nat)
      requires Heap() && OneLoose(blocks, bp) && FreeRun(blocks, bp, bp, hi) && hi != Next(blocks, bp) &&
        size0 == blocks[bp].size
      modifies this, mem
      ensures Heap() && brk == old(brk) && blocks == Join(old(blocks), bp, hi, Loose)
      ensures Kept(old(mem[..]), mem[..], old(blocks), blocks, 0)
    {
      hide Tiling, BlockOk, Sized, Index, Kept, Separated, Join, JoinedMem;
      ghost var m0, B0, n := mem[..], blocks, Next(blocks, bp);
      var size := size0;
      HeaderOf(mem[..], brk, blocks, bp);
      RunJoined(blocks, brk, bp, bp, hi);
      RunIsStretch(blocks, brk, bp, bp, hi);
      DropFromIndex(bp + 2 * mem[bp - 1].hi);
      ghost var m1 := mem[..];
      HeaderOf(mem[..], brk, blocks, bp);
      HeaderOf(mem[..], brk, blocks, n);
      size := size + mem[bp + 2 * mem[bp - 1].hi - 1].hi;
      mem[bp - 1] := mem[bp - 1].(hi := size);
      mem[bp + 2 * mem[bp - 1].hi - 2] := Pack(size, false);
      assert mem[..] == JoinedWords(m1, bp, hi, size);
      JoinAfterDrop(B0, bp, hi, n);
      Adopt(m1, bp, hi, Join(B0, bp, hi, Loose));
      KeptTrans(m0, m1, mem[..], B0, WithStatus(B0, n, Loose), blocks, 0);
    }

    lemma JoinAfterDrop(B: Blocks, lo: nat, hi: nat, n: nat)
      requires n in B && lo <= n < hi
      ensures Join(WithStatus(B, n, Loose), lo, hi, Loose) == Join(B, lo, hi, Loose)
    {
    }

    /** Case 3: the previous block is free. */
    method MergePrev(bp: nat, size0: nat, ghost lo: nat) returns (p: nat)
      requires Heap() && bp in blocks && OneLoose(blocks, bp) && FreeRun(blocks, bp, lo, Next(blocks, bp)) &&
        lo != bp && size0 == blocks[bp].size
      modifies this, mem
      ensures p == lo && Heap() && brk == old(brk) && blocks == Join(old(blocks), lo, old(Next(blocks, bp)), Loose)
      ensures Kept(old(mem[..]), mem[..], old(blocks), blocks, 0)
    {
      hide Tiling, BlockOk, Sized, Index, Kept, Separated, Join, JoinedMem;
      ghost var m0, B0, hi := mem[..], blocks, Next(blocks, bp);
      var size := size0;
      HeaderOf(mem[..], brk, blocks, bp);
      HeaderOf(mem[..], brk, blocks, lo);
      RunJoined(blocks, brk, bp, lo, hi);
      RunIsStretch(blocks, brk, bp, lo, hi);
      DropFromIndex(bp - 2 * mem[bp - 2].hi);
      ghost var m1 := mem[..];
      HeaderOf(mem[..], brk, blocks, bp);
      HeaderOf(mem[..], brk, blocks, lo);
      size := size + mem[bp - 2 * mem[bp - 2].hi - 1].hi;
      mem[bp + 2 * mem[bp - 1].hi - 2] := Pack(size, false);
      p := bp - 2 * mem[bp - 2].hi;
      mem[p - 1] := mem[p - 1].(hi := size);
      p := bp - 2 * mem[bp - 2].hi;
      assert mem[..] == JoinedWords(m1, lo, hi, size);
      JoinAfterDrop(B0, lo, hi, lo);
      Adopt(m1, lo, hi, Join(B0, lo, hi, Loose));
      KeptTrans(m0, m1, mem[..], B0, WithStatus(B0, lo, Loose), blocks, 0);
    }

    /** The PUTs of case 4. */
    method FuseBoth(bp: nat, size0: nat, ghost lo: nat, ghost n: nat, ghost hi: nat, ghost B: Blocks) returns (p: nat)
      requires Sturdy() && lo in blocks && bp in blocks && n in blocks && lo < bp < n < hi
      requires Next(blocks, lo) == bp && Next(blocks, bp) == n && Next(blocks, n) == hi && size0 == blocks[bp].size
      requires blocks[lo].status == blocks[bp].status == blocks[n].status == Loose
      requires Stretch(blocks, brk, lo, hi) && AllLoose(blocks, lo, hi) && B == Join(blocks, lo, hi, Loose) &&
        Separated(B)
      modifies this, mem
      ensures p == lo && Heap() && brk == old(brk) && blocks == B
      ensures Kept(old(mem[..]), mem[..], old(blocks), blocks, 0)
    {
      hide Layout, Index, Kept, Separated, Join, JoinedMem, Stretch, AllLoose;
      ghost var m2 := mem[..];
      HeaderOf(m2, brk, blocks, bp);
      HeaderOf(m2, brk, blocks, lo);
      HeaderOf(m2, brk, blocks, n);
      var next := bp + 2 * mem[bp - 1].hi;
      p := bp - 2 * mem[bp - 2].hi;
      var size := size0 + mem[p - 1].hi + mem[next + 2 * mem[next - 1].hi - 2].hi;
      mem[p - 1] := mem[p - 1].(hi := size);
      mem[next + 2 * mem[next - 1].hi - 2] := Pack(size, false);
      p := bp - 2 * mem[bp - 2].hi;
      assert mem[..] == JoinedWords(m2, lo, hi, size);
      Adopt(m2, lo, hi, B);
    }

    /** Case 4: both neighbours are free. */
    method MergeBoth(bp: nat, size0: nat, ghost lo: nat, ghost hi: nat) returns (p: nat)
      requires Heap() && OneLoose(blocks, bp) && FreeRun(blocks, bp, lo, hi) && lo != bp && hi != Next(blocks, bp) &&
        size0 == blocks[bp].size
      modifies this, mem
      ensures p == lo && Heap() && brk == old(brk) && blocks == Join(old(blocks), lo, hi, Loose)
      ensures Kept(old(mem[..]), mem[..], old(blocks), blocks, 0)
    {
      hide Tiling, BlockOk, Sized, Index, Kept, Separated, Join, JoinedMem;
      ghost var m0, B0, n := mem[..], blocks, Next(blocks, bp);
      RunJoined(blocks, brk, bp, lo, hi);
      RunIsStretch(blocks, brk, bp, lo, hi);
      DropBoth(bp, lo, hi);
      ghost var m2, B2 := mem[..], blocks;
      JoinAfterDrop(B0, lo, hi, n);
      JoinAfterDrop(WithStatus(B0, n, Loose), lo, hi, lo);
      p := FuseBoth(bp, size0, lo, n, hi, Join(B0, lo, hi, Loose));
      KeptTrans(m0, m2, mem[..], B0, B2, blocks, 0);
    }

    /** Both neighbours leave the index. */
    method DropBoth(bp: nat, ghost lo: nat, ghost hi: nat)
      requires Heap() && OneLoose(blocks, bp) && FreeRun(blocks, bp, lo, hi) && lo != bp && hi != Next(blocks, bp)
      modifies this, mem
      ensures Sturdy() && brk == old(brk) && Next(old(blocks), bp) in old(blocks) &&
        lo in WithStatus(old(blocks), Next(old(blocks), bp), Loose)
      ensures blocks == WithStatus(WithStatus(old(blocks), Next(old(blocks), bp), Loose), lo, Loose)
      ensures Kept(old(mem[..]), mem[..], old(blocks), blocks, 0)
    {
      hide Tiling, BlockOk, Sized, Index, Kept, Separated, Join;
      ghost var m0, B0, n := mem[..], blocks, Next(blocks, bp);
      HeaderOf(mem[..], brk, blocks, bp);
      RunIsStretch(blocks, brk, bp, lo, hi);
      DropFromIndex(bp + 2 * mem[bp - 1].hi);
      ghost var m1, B1 := mem[..], blocks;
      HeaderOf(mem[..], brk, blocks, bp);
      HeaderOf(mem[..], brk, blocks, lo);
      DropFromIndex(bp - 2 * mem[bp - 2].hi);
      KeptTrans(m0, m1, mem[..], B0, B1, blocks, 0);
    }

    /** Where the free run around loose block `bp` begins and ends, as the header bits tell. */
    lemma RunBounds(bp: nat) returns (lo: nat, hi: nat)
      requires Heap() && bp in blocks && blocks[bp].status == Loose && OneLoose(blocks, bp)
      ensures FreeRun(blocks, bp, lo, hi) && FIRST <= bp && Next(blocks, bp) <= brk <= mem.Length &&
        mem[bp - 1].hi == blocks[bp].size
      ensures mem[bp - 1].b1 <==> lo == bp
      ensures mem[Next(blocks, bp) - 1].b0 <==> hi == Next(blocks, bp)
      ensures lo == if mem[bp - 1].b1 then bp else bp - 2 * mem[bp - 2].hi
      ensures hi == if mem[Next(blocks, bp) - 1].b0 then Next(blocks, bp)
        else Next(blocks, bp) + 2 * mem[Next(blocks, bp) - 1].hi
    {
      hide BlockOk, Index, Tiling, Sized, Separated, OneLoose;
      HeaderOf(mem[..], brk, blocks, bp);
      lo := RunStart(bp);
      hi := RunEnd(bp);
    }

    lemma RunStart(bp: nat) returns (lo: nat)
      requires Heap() && bp in blocks && blocks[bp].status == Loose && OneLoose(blocks, bp)
      ensures 2 <= bp <= mem.Length && lo in blocks
      ensures if lo == bp then forall a {:trigger Next(blocks, a)} ::
        a in blocks && Next(blocks, a) == bp ==> blocks[a].status != Free
        else Next(blocks, lo) == bp && blocks[lo].status == Free
      ensures (mem[bp - 1].b1 <==> lo == bp) && lo == if mem[bp - 1].b1 then bp else bp - 2 * mem[bp - 2].hi
    {
      hide BlockOk, Index, Tiling, Sized;
      HeaderOf(mem[..], brk, blocks, bp);
      if mem[bp - 1].b1 {
        lo := bp;
        forall a | a in blocks && Next(blocks, a) == bp ensures blocks[a].status != Free {
          HeaderOf(mem[..], brk, blocks, a);
        }
      } else {
        lo := TagPrev(mem[..], brk, blocks, bp);
        HeaderOf(mem[..], brk, blocks, lo);
      }
    }

    lemma RunEnd(bp: nat) returns (hi: nat)
      requires Heap() && bp in blocks && blocks[bp].status == Loose && OneLoose(blocks, bp)
      ensures var n := Next(blocks, bp);
        1 <= n <= mem.Length && (mem[n - 1].b0 <==> hi == n) &&
          hi == (if mem[n - 1].b0 then n else n + 2 * mem[n - 1].hi)
      ensures var n := Next(blocks, bp);
        if hi == n then n in blocks ==> blocks[n].status != Free
        else n in blocks && blocks[n].status == Free && hi == Next(blocks, n)
    {
      hide BlockOk, Index, Sized;
      var n := Next(blocks, bp);
      HeaderOf(mem[..], brk, blocks, bp);
      if n in blocks {
        HeaderOf(mem[..], brk, blocks, n);
        assert Fine(blocks[bp].status, blocks[n].status);
      }
      hi := if n in blocks && blocks[n].status == Free then Next(blocks, n) else n;
    }

    /** Merges a loose block with the free blocks around it.  `settled` says that both
        neighbours are allocated, when only the header bits must be right. */
    method Coalesce(bp: nat, ghost settled: bool) returns (p: nat, ghost lo: nat, ghost hi: nat)
      requires 1 <= bp < mem.Length && bp + 2 * mem[bp - 1].hi <= mem.Length && mem[bp - 1].hi >= 1
      requires settled ==> mem[bp - 1].b1 && mem[bp + 2 * mem[bp - 1].hi - 1].b0
      requires !settled ==> Heap() && bp in blocks && blocks[bp].status == Loose && OneLoose(blocks, bp)
      modifies this, mem
      ensures settled ==>
        p == bp && mem[..] == old(mem[..]) && root == old(root) && brk == old(brk) && epilogue == old(epilogue)
      ensures settled ==> blocks == old(blocks) && tree == old(tree) && list == old(list)
      ensures !settled ==>
        Heap() && brk == old(brk) && FreeRun(old(blocks), bp, lo, hi) && lo < hi &&
        blocks == Join(old(blocks), lo, hi, Loose)
      ensures !settled ==>
        p == lo && p in blocks && blocks[p] == Block((hi - lo) / 2, Loose) && OneLoose(blocks, p) && Isolated(blocks, p)
      ensures !settled ==> Kept(old(mem[..]), mem[..], old(blocks), blocks, 0)
      ensures !settled ==> lo == if old(mem[bp - 1].b1) then bp else bp - 2 * old(mem[bp - 2].hi)
    {
      hide Inv, Kept, Isolated, OneLoose, Join, FreeRun;
      var prevAlloc := mem[bp - 1].b1;
      var nextAlloc := mem[bp + 2 * mem[bp - 1].hi - 1].b0;
      var size := mem[bp - 1].hi;
      p, lo, hi := bp, bp, bp;
      if !settled {
        lo, hi := RunBounds(bp);
        RunFacts(bp, lo, hi);
      }
      if prevAlloc && nextAlloc {
        if !settled { NothingToJoin(mem[..], bp, hi); }
      } else if prevAlloc && !nextAlloc {
        MergeNext(bp, size, hi);
      } else if !prevAlloc && nextAlloc {
        p := MergePrev(bp, size, lo);
      } else {
        p := MergeBoth(bp, size, lo, hi);
      }
    }

    lemma RunFacts(p: nat, lo: nat, hi: nat)
      requires Heap() && OneLoose(blocks, p) && FreeRun(blocks, p, lo, hi)
      ensures lo < hi
      ensures var B' := Join(blocks, lo, hi, Loose);
        lo in B' && B'[lo] == Block((hi - lo) / 2, Loose) && OneLoose(B', lo) && Isolated(B', lo)
    {
      RunIsStretch(blocks, brk, p, lo, hi);
      RunJoined(blocks, brk, p, lo, hi);
    }

    lemma NothingToJoin(m: seq<Word>, p: nat, hi: nat)
      requires Heap() && p in blocks && blocks[p].status == Loose && hi == Next(blocks, p) && p < hi && m == mem[..]
      ensures blocks == Join(blocks, p, hi, Loose) && Kept(m, m, blocks, blocks, 0)
    {
      JoinNothing(m, blocks, brk, p);
    }

    // ------------------------------------------------------------- extending

    /** Grows the heap by at least `words` words; null when memlib has no more. */
    method ExtendHeap(words: nat) returns (p: nat)
      requires Heap() && NoLoose(blocks) && words >= 1
      requires forall a {:trigger Next(blocks, a)} ::
        a in blocks && Next(blocks, a) == brk ==> blocks[a].status != Limbo
      modifies this, mem
      ensures p == 0 <==> old(brk) + 2 * ((words + 1) / 2) > mem.Length
      ensures p == 0 ==> mem[..] == old(mem[..]) && Heap() && brk == old(brk) && blocks == old(blocks)
      ensures p != 0 ==> Heap() && brk == old(brk) + 2 * ((words + 1) / 2)
      ensures p != 0 ==>
        p in blocks && blocks[p].status == Loose && OneLoose(blocks, p) && Isolated(blocks, p) && Next(blocks, p) == brk
      ensures p != 0 ==> p == if old(mem[brk - 1].b1) then old(brk) else old(brk) - 2 * old(mem[brk - 2].hi)
      ensures p != 0 ==>
        p == EndStart(old(blocks), old(brk)) &&
        blocks == Join(Append(old(blocks), old(brk), (words + 1) / 2, Loose), p, brk, Loose)
      ensures p != 0 ==> Kept(old(mem[..]), mem[..], old(blocks), blocks, 0) && NoneNew(old(blocks), blocks, 0)
    {
      hide Layout, Index, Kept, Separated, Isolated, OneLoose, NoneNew, Join, Append, FreeRun, EndAt;
      ghost var m0, B0, E := mem[..], blocks, brk;
      EndBounds(m0, E, B0);
      var size := if words % 2 == 1 then words + 1 else words;
      var bp := AppendBlock(size);
      if bp == 0 {
        return 0;
      }
      ghost var m1, d := mem[..], size / 2;
      ghost var lo, hi;
      p, lo, hi := Coalesce(bp, false);
      EndRun(m1, brk, Append(B0, E, d, Loose), E, lo, hi);
      KeptTrans(m0, m1, mem[..], B0, Append(B0, E, d, Loose), blocks, 0);
      RunNoneNew(B0, E, d, lo, hi);
      LayoutTiling(m0, E, B0);
      LastRun(B0, E, d, lo, hi);
    }

    method PutBlock(bp: nat, size: nat)
      requires 1 <= bp && bp + size <= mem.Length && size >= 2 && size % 2 == 0
      modifies `epilogue, mem
      ensures mem[..] == ExtendedMem(old(mem[..]), bp, size / 2) && epilogue + 1 == bp + size
    {
      mem[bp - 1] := mem[bp - 1].(hi := size / 2);
      mem[bp - 1] := mem[bp - 1].(b0 := false);
      mem[bp + 2 * mem[bp - 1].hi - 2] := Pack(size / 2, false);
      mem[bp + 2 * mem[bp - 1].hi - 1] := Pack(0, true);
      epilogue := bp + 2 * mem[bp - 1].hi - 1;
    }

    /** The PUTs of extend_heap: a loose block of `size` words in place of the epilogue, and a new epilogue. */
    method AppendBlock(size: nat) returns (bp: nat)
      requires Heap() && NoLoose(blocks) && size >= 2 && size % 2 == 0
      requires forall a {:trigger Next(blocks, a)} ::
        a in blocks && Next(blocks, a) == brk ==> blocks[a].status != Limbo
      modifies this, mem
      ensures bp == 0 <==> old(brk) + size > mem.Length
      ensures bp == 0 ==> mem[..] == old(mem[..]) && Heap() && brk == old(brk) && blocks == old(blocks)
      ensures bp != 0 ==>
        bp == old(brk) >= FIRST && Heap() && brk == bp + size && blocks == Append(old(blocks), bp, size / 2, Loose) &&
        OneLoose(blocks, bp)
      ensures bp != 0 ==> bp in blocks && blocks[bp] == Block(size / 2, Loose) && brk <= mem.Length
      ensures bp != 0 ==>
        mem[bp - 1].hi == size / 2 && mem[bp - 1].b1 == old(mem[brk - 1].b1) && mem[bp - 2] == old(mem[brk - 2])
      ensures bp != 0 ==> Kept(old(mem[..]), mem[..], old(blocks), blocks, 0)
    {
      hide Layout, Index, Kept, Separated, OneLoose, Append;
      ghost var m0, E, d := mem[..], brk, size / 2;
      EndBounds(m0, E, blocks);
      var p;
      p, brk := Memlib.Sbrk(brk, size, mem.Length);
      if p == -1 {
        return 0;
      }
      bp := p;
      PutBlock(bp, size);
      Extended(m0, E, blocks, d, root, tree, list);
      AppendedHeap(m0, E, blocks, d);
      blocks := Append(blocks, E, d, Loose);
    }

    // ------------------------------------------------------------- placing

    /** The new block at the front of the free one. */
    method CarveFront(bp: nat, asize: nat, ghost m0: seq<Word>, ghost size: nat) returns (next: nat)
      requires 1 <= bp && bp + 2 * size <= mem.Length == |m0| && 2 <= asize && asize + 2 <= size &&
        m0[bp - 1].hi == size
      requires m0[bp - 1].b1 && m0[bp + 2 * size - 1].b0 && !m0[bp + 2 * size - 1].b1
      requires mem[..] == m0[bp - 1 := m0[bp - 1].(b0 := true)]
      modifies this, mem
      ensures next == bp + 2 * asize && SplitMem(m0, mem[..], bp, next, bp + 2 * size, true)
      ensures root == old(root) && brk == old(brk) && epilogue == old(epilogue) && blocks == old(blocks) &&
        tree == old(tree) && list == old(list)
    {
      var nextSize := mem[bp - 1].hi - asize;
      mem[bp - 1] := mem[bp - 1].(hi := asize);
      next := bp + 2 * mem[bp - 1].hi;
      mem[next - 1] := Pack(nextSize, false);
      mem[next + 2 * mem[next - 1].hi - 2] := Pack(nextSize, false);
      SetTag(bp + 2 * mem[bp - 1].hi);
      ghost var lo, hi;
      next, lo, hi := Coalesce(next, true);
      Detag(next);
    }

    /** The PUTs that give the back of a block away. */
    method PutBack(bp: nat, asize: nat) returns (r: nat, next: nat)
      requires 1 <= bp <= mem.Length && 2 <= asize && asize + 2 <= mem[bp - 1].hi &&
        bp + 2 * mem[bp - 1].hi <= mem.Length
      modifies mem
      ensures next == bp && r == bp + 2 * (old(mem[bp - 1].hi) - asize)
      ensures var m, d := old(mem[..]), old(mem[bp - 1].hi) - asize;
        mem[..] == m[bp - 1 := m[bp - 1].(hi := d)][r - 2 := Pack(d, false)]
          [r - 1 := m[r - 1].(hi := asize, b0 := true)]
          [r + 2 * asize - 1 := m[r + 2 * asize - 1].(b1 := true)]
    {
      var nextSize := mem[bp - 1].hi - asize;
      next := bp;
      mem[next - 1] := mem[next - 1].(hi := nextSize);
      mem[next + 2 * mem[next - 1].hi - 2] := Pack(nextSize, false);
      r := next + 2 * mem[next - 1].hi;
      mem[r - 1] := mem[r - 1].(b0 := true);
      mem[r - 1] := mem[r - 1].(hi := asize);
      SetTag(r + 2 * mem[r - 1].hi);
    }

    /** The new block at the back of the free one. */
    method CarveBack(bp: nat, asize: nat, ghost m0: seq<Word>, ghost size: nat) returns (r: nat, next: nat)
      requires 1 <= bp && bp + 2 * size <= mem.Length == |m0| && 2 <= asize && asize + 2 <= size &&
        m0[bp - 1].hi == size
      requires m0[bp - 1].b1 && m0[bp + 2 * size - 1].b0 && !m0[bp + 2 * size - 1].b1
      requires mem[..] == m0[bp - 1 := m0[bp - 1].(b0 := true)]
      modifies this, mem
      ensures next == bp && r == bp + 2 * (size - asize) && SplitMem(m0, mem[..], bp, r, bp + 2 * size, false)
      ensures root == old(root) && brk == old(brk) && epilogue == old(epilogue) && blocks == old(blocks) &&
        tree == old(tree) && list == old(list)
    {
      hide SplitMem;
      r, next := PutBack(bp, asize);
      ghost var lo, hi;
      next, lo, hi := Coalesce(next, true);
      Detag(next);
      assert mem[..] == BackMem(m0, bp, r, bp + 2 * size);
      BackIsSplit(m0, bp, r, bp + 2 * size);
    }

    /** SET_TAG(HDRP(bp)) */
    method SetTag(bp: nat)
      requires 1 <= bp <= mem.Length
      modifies mem
      ensures mem[..] == old(mem[..])[bp - 1 := old(mem[bp - 1]).(b1 := true)]
    {
      mem[bp - 1] := mem[bp - 1].(b1 := true);
    }

    /** CLR_TAG(HDRP(bp)) */
    method ClearTag(bp: nat)
      requires 1 <= bp <= mem.Length
      modifies mem
      ensures mem[..] == old(mem[..])[bp - 1 := old(mem[bp - 1]).(b1 := false)]
    {
      mem[bp - 1] := mem[bp - 1].(b1 := false);
    }

    /** The last PUTs of place: block `bp` is free behind a used block, and the next block's tag says so. */
    method Detag(bp: nat)
      requires 1 <= bp <= mem.Length && mem[bp - 1].hi >= 1 && bp + 2 * mem[bp - 1].hi <= mem.Length
      modifies mem
      ensures var n := bp + 2 * old(mem[bp - 1].hi);
        mem[..] == old(mem[..])[bp - 1 := old(mem[bp - 1]).(b1 := true, b0 := false)]
          [n - 1 := old(mem[n - 1]).(b1 := false)]
    {
      SetTag(bp);
      mem[bp - 1] := mem[bp - 1].(b0 := false);
      ClearTag(bp + 2 * mem[bp - 1].hi);
    }

    /** SPLIT_BACK: despite its name, whether the new block goes to the front. */
    static predicate SplitBack(asize: nat, nextSize: nat) { 8 * asize < 96 || 8 * nextSize < 48 }

    /** Cuts `asize` double words out of loose block `bp` and returns the rest to the index. */
    method Carve(bp: nat, asize: nat, trivialSplit: bool, ghost m0: seq<Word>) returns (r: nat)
      requires Layout(m0, brk, blocks) && Index(m0, blocks, root, tree, list) && Separated(blocks) &&
        epilogue + 1 == brk && |m0| == mem.Length
      requires bp in blocks && blocks[bp].status == Loose && OneLoose(blocks, bp) && Isolated(blocks, bp) &&
        2 <= asize && asize + 2 <= blocks[bp].size
      requires 1 <= bp <= |m0| && mem[..] == m0[bp - 1 := m0[bp - 1].(b0 := true)]
      modifies this, mem
      ensures Heap() && brk == old(brk) && Kept(m0, mem[..], old(blocks), blocks, 0)
      ensures var rest := old(blocks)[bp].size - asize;
        if trivialSplit || asize < 12 || rest < 6 then r == bp && blocks == Split(old(blocks), bp, asize, Live, Free)
        else r == bp + 2 * rest && blocks == Split(old(blocks), bp, rest, Free, Live)
    {
      hide Layout, Index, Kept, Separated, Isolated, OneLoose, SplitMem, Split;
      ghost var B0, d := blocks, blocks[bp].size;
      HeaderOf(m0, brk, B0, bp);
      IsolatedBits(m0, brk, B0, bp);
      var next;
      ghost var first;
      var size := mem[bp - 1].hi;
      if trivialSplit || SplitBack(asize, size - asize) {
        r, first := bp, asize;
        next := CarveFront(bp, asize, m0, d);
      } else {
        first := d - asize;
        r, next := CarveBack(bp, asize, m0, d);
      }
      ghost var m1, front := mem[..], r == bp;
      SplitUp(m0, m1, brk, B0, bp, first, front, root, tree, list);
      LayoutTiling(m0, brk, B0);
      SplitSeparated(B0, brk, bp, first, front);
      SplitHas(B0, bp, first, front);
      blocks := if front then Split(B0, bp, first, Live, Loose) else Split(B0, bp, first, Loose, Live);
      ghost var B1 := blocks;
      AddToIndex(next);
      KeptTrans(m0, m1, mem[..], B0, B1, blocks, 0);
    }

    /** What is left stays a free block. */
    method TakePart(bp: nat, asize: nat, trivialSplit: bool, ghost m0: seq<Word>) returns (r: nat)
      requires Inv(m0, brk, blocks, root, tree, list) && epilogue + 1 == brk && |m0| == mem.Length
      requires bp in blocks && blocks[bp].status == Loose && OneLoose(blocks, bp) && Isolated(blocks, bp) &&
        2 <= asize && asize + 2 <= blocks[bp].size
      requires 1 <= bp <= |m0| && mem[..] == m0[bp - 1 := m0[bp - 1].(b0 := true)]
      modifies this, mem
      ensures Heap() && brk == old(brk) && NoLoose(blocks) && Kept(m0, mem[..], old(blocks), blocks, 0)
      ensures r in blocks && blocks[r] == Block(asize, Live) && NoneNew(old(blocks), blocks, r) &&
        Unused(old(blocks), r)
      ensures var rest := old(blocks)[bp].size - asize;
        if trivialSplit || asize < 12 || rest < 6 then r == bp && blocks == Split(old(blocks), bp, asize, Live, Free)
        else r == bp + 2 * rest && blocks == Split(old(blocks), bp, rest, Free, Live)
    {
      hide Layout, Index, Kept, Separated, Isolated, OneLoose, NoneNew, NoLoose, Split, Unused;
      ghost var B0 := blocks;
      r := Carve(bp, asize, trivialSplit, m0);
      LayoutTiling(m0, brk, B0);
      PlacedIn(B0, brk, bp, r, asize, blocks);
      HeaderOf(mem[..], brk, blocks, r);
      ghost var m1 := mem[..];
      SetTag(r + 2 * mem[r - 1].hi);
      assert mem[..] == m1;
    }

    /** What is left would be too small for a block. */
    method TakeWhole(bp: nat, ghost m0: seq<Word>)
      requires Inv(m0, brk, blocks, root, tree, list) && epilogue + 1 == brk && |m0| == mem.Length
      requires bp in blocks && blocks[bp].status == Loose && OneLoose(blocks, bp) && blocks[bp].size >= 2
      requires 1 <= bp <= |m0| && mem[..] == m0[bp - 1 := m0[bp - 1].(b0 := true)]
      modifies `blocks, mem
      ensures Heap() && NoLoose(blocks) && blocks == WithStatus(old(blocks), bp, Live)
      ensures Kept(m0, mem[..], old(blocks), blocks, 0) && NoneNew(old(blocks), blocks, bp)
    {
      hide Layout, Index, Kept, Separated, OneLoose, NoneNew, NoLoose;
      HeaderOf(m0, brk, blocks, bp);
      SetTag(bp + 2 * mem[bp - 1].hi);
      Taken(m0, brk, blocks, bp, root, tree, list, 0);
      TakenSeparated(blocks, bp);
      PlacedWhole(blocks, bp);
      blocks := WithStatus(blocks, bp, Live);
    }

    /** place: allocates `asize` double words in loose block `bp0`. */
    method Place(bp0: nat, asize: nat, trivialSplit: bool) returns (bp: nat)
      requires Heap() && bp0 in blocks && blocks[bp0].status == Loose && OneLoose(blocks, bp0) &&
        Isolated(blocks, bp0) && 2 <= asize <= blocks[bp0].size
      modifies this, mem
      ensures Heap() && brk == old(brk) && NoLoose(blocks) && Kept(old(mem[..]), mem[..], old(blocks), blocks, 0)
      ensures bp in blocks && blocks[bp].status == Live && asize <= blocks[bp].size < asize + 2 &&
        NoneNew(old(blocks), blocks, bp)
      ensures Unused(old(blocks), bp)
      ensures var d := old(blocks)[bp0].size;
        if d < asize + 2 then bp == bp0 && blocks == WithStatus(old(blocks), bp0, Live)
        else if trivialSplit || asize < 12 || d - asize < 6
          then bp == bp0 && blocks == Split(old(blocks), bp0, asize, Live, Free)
        else bp == bp0 + 2 * (d - asize) && blocks == Split(old(blocks), bp0, d - asize, Free, Live)
    {
      hide Layout, Index, Kept, Separated, Isolated, OneLoose, NoneNew, NoLoose, Split;
      ghost var m0, B0, d := mem[..], blocks, blocks[bp0].size;
      HeaderOf(m0, brk, B0, bp0);
      bp := bp0;
      mem[bp - 1] := mem[bp - 1].(b0 := true);
      var size := mem[bp - 1].hi;
      if size > asize && size - asize >= 2 {
        bp := TakePart(bp, asize, trivialSplit, m0);
      } else {
        TakeWhole(bp, m0);
      }
    }

    // ------------------------------------------------------------- mm_malloc

    /** find_fit: takes the first block of the list that is big enough out of it. */
    method FindFit(asize: nat) returns (r: nat)
      requires Heap()
      modifies this, mem
      ensures r == 0 ==>
        mem[..] == old(mem[..]) && blocks == old(blocks) &&
        (forall b :: ListMember(blocks, b) ==> blocks[b].size < asize)
      ensures r != 0 ==>
        ListMember(old(blocks), r) && asize <= old(blocks)[r].size && blocks == WithStatus(old(blocks), r, Loose)
      ensures r != 0 ==> Kept(old(mem[..]), mem[..], old(blocks), blocks, 0)
      ensures Sturdy() && brk == old(brk)
    {
      hide Layout, FreeList.Ring, Separated, HeapTree.InTree, Kept;
      ghost var k, m, B, l := 0, mem[..], blocks, list;
      KeptSame(m, brk, B);
      FreeList.Walk(m, l, 0);
      var ptr := Ptr(mem[NIL + 1]);
      while ptr != NIL
        invariant Heap() && mem[..] == m && blocks == B && list == l && brk == old(brk)
        invariant k <= |l| && ptr == FreeList.Stop(l, k + 1) && (ptr == NIL <==> k == |l|)
        invariant forall i :: 0 <= i < k ==> l[i] in B && B[l[i]].size < asize
        decreases |l| - k
      {
        assert ptr == l[k] && l[k] in l;
        assert ListMember(B, ptr);
        HeaderOf(m, brk, B, ptr);
        if mem[ptr - 1].hi >= asize {
          FreeList.Unlink(mem, l, k, ptr);
          ErasedFromList(m, mem[..], brk, B, ptr, root, tree, l, k);
          list := l[..k] + l[k + 1..];
          blocks := WithStatus(B, ptr, Loose);
          return ptr;
        }
        k := k + 1;
        FreeList.Walk(m, l, k);
        ptr := Ptr(mem[ptr + 1]);
      }
      forall b | ListMember(B, b) ensures B[b].size < asize {
        assert b in l;
        var i :| 0 <= i < |l| && l[i] == b;
      }
      r := 0;
    }

    /** Both searches of mm_malloc: a loose block that is big enough, or null when no free block is. */
    method Search(asize: nat) returns (bp: nat)
      requires Heap() && NoLoose(blocks) && asize >= 2
      modifies this, mem
      ensures bp == 0 ==> mem[..] == old(mem[..]) && Heap() && blocks == old(blocks) && NoFit(blocks, asize)
      ensures bp != 0 ==>
        bp in old(blocks) && old(blocks)[bp].status == Free && blocks == WithStatus(old(blocks), bp, Loose)
      ensures bp != 0 ==> asize <= old(blocks)[bp].size && BestFit(old(blocks), bp, asize)
      ensures bp != 0 ==> Heap() && OneLoose(blocks, bp) && Isolated(blocks, bp)
      ensures brk == old(brk) && Kept(old(mem[..]), mem[..], old(blocks), blocks, 0)
    {
      hide Layout, Separated, HeapTree.InTree, FreeList.Ring, Kept, Isolated, NoFit;
      ghost var m0, B0 := mem[..], blocks;
      KeptSame(m0, brk, B0);
      if asize < TREE_MIN {
        bp := FindFit(asize);
        if bp != 0 {
          Loosened(m0, brk, B0, bp);
          assert forall b {:trigger B0[b]} :: b in B0 && B0[b].status == Free ==> B0[b].size >= 2 by {
            FreeSizes(m0, brk, B0);
          }
          return;
        }
      }
      bp := HeapTree.LowerBound(mem, root, asize, TreeSet(blocks), tree);
      if bp != NIL {
        TreeBest(m0, brk, B0, bp, asize);
        DropFromIndex(bp);
        Loosened(m0, brk, B0, bp);
      } else {
        NothingFits(m0, brk, B0, asize);
        bp := 0;
      }
    }

    /** mm_malloc_wrapped */
    method MallocWrapped(size: nat, realloc: bool) returns (r: nat)
      requires Heap() && NoLoose(blocks)
      requires forall a {:trigger Next(blocks, a)} ::
        a in blocks && Next(blocks, a) == brk ==> blocks[a].status != Limbo
      modifies this, mem
      ensures Heap() && NoLoose(blocks)
      ensures r == 0 ==> mem[..] == old(mem[..]) && blocks == old(blocks) && brk == old(brk)
      ensures r == 0 <==>
        size == 0 ||
        (NoFit(old(blocks), SizeInNeed(size)) &&
        (if realloc then old(brk) else EndStart(old(blocks), old(brk))) + 2 * Max(SizeInNeed(size), 512) > mem.Length)
      ensures r != 0 && brk != old(brk) ==>
        brk == (if realloc then old(brk) else EndStart(old(blocks), old(brk))) + 2 * Max(SizeInNeed(size), 512)
      ensures r != 0 ==>
        r in blocks && blocks[r].status == Live && SizeInNeed(size) <= blocks[r].size < SizeInNeed(size) + 2
      ensures r != 0 ==>
        Kept(old(mem[..]), mem[..], old(blocks), blocks, 0) && NoneNew(old(blocks), blocks, r) && Unused(old(blocks), r)
      ensures r != 0 ==> Allocated(old(blocks), old(brk), SizeInNeed(size), blocks, brk, r)
    {
      hide Layout, Separated, Index, Kept, Isolated, NoFit, OneLoose, NoneNew, NoLoose, BestFit, BestPlaced, Split,
        EndStart, WithMore, PlacedFrom;
      if size == 0 {
        return 0;
      }
      ghost var m0, B0 := mem[..], blocks;
      var asize := SizeInNeed(size);
      var bp := Search(asize);
      if bp != 0 {
        ghost var m1, B1 := mem[..], blocks;
        r := Place(bp, asize, false);
        KeptTrans(m0, m1, mem[..], B0, B1, blocks, 0);
        NoneNewAfterLoosen(B0, bp, blocks, r);
        PlaceIsBlock(mem[..], brk, blocks, r);
        FitFound(B0, bp, asize);
        PlacedBest(B0, bp, asize, blocks, r);
        return;
      }
      r := MallocGrow(asize, realloc);
    }

    /** The extension of mm_malloc_wrapped: the free block at the end of the heap is big enough then. */
    method GrowHeap(asize: nat, realloc: bool) returns (bp: nat)
      requires Heap() && NoLoose(blocks) && NoFit(blocks, asize) && asize >= 2
      requires forall a {:trigger Next(blocks, a)} ::
        a in blocks && Next(blocks, a) == brk ==> blocks[a].status != Limbo
      modifies this, mem
      ensures var end := (if realloc then old(brk) else EndStart(old(blocks), old(brk))) + 2 * Max(asize, 512);
        (bp == 0 <==> end > mem.Length) && (bp != 0 ==> brk == end > old(brk))
      ensures bp == 0 ==> Heap() && mem[..] == old(mem[..]) && blocks == old(blocks) && brk == old(brk)
      ensures bp != 0 ==>
        bp == EndStart(old(blocks), old(brk)) <= old(brk) &&
        blocks == Join(Append(old(blocks), old(brk), (brk - old(brk)) / 2, Loose), bp, brk, Loose)
      ensures bp != 0 ==>
        Heap() && OneLoose(blocks, bp) && bp in blocks && blocks[bp].status == Loose &&
        Isolated(blocks, bp) && asize <= blocks[bp].size
      ensures bp != 0 ==> Kept(old(mem[..]), mem[..], old(blocks), blocks, 0) && NoneNew(old(blocks), blocks, 0)
    {
      hide Layout, Separated, Index, Kept, Isolated, NoFit, OneLoose, NoneNew, NoLoose, EndStart, Join, Append;
      ghost var m0, B0, E := mem[..], blocks, brk;
      LastFree(m0, brk, B0, asize);
      LastBits(m0, brk, B0);
      var extendsize := if asize > CHUNK then asize else CHUNK;
      if !realloc && !mem[epilogue].b1 {
        extendsize := extendsize - mem[epilogue - 1].hi;
      }
      bp := ExtendHeap(2 * extendsize);
      if bp == 0 {
        return;
      }
      HeaderOf(mem[..], brk, blocks, bp);
    }

    /** The rest of mm_malloc_wrapped, when nothing fits: extend the heap and use the block at its end. */
    method MallocGrow(asize: nat, realloc: bool) returns (r: nat)
      requires Heap() && NoLoose(blocks) && NoFit(blocks, asize) && asize >= 2
      requires forall a {:trigger Next(blocks, a)} ::
        a in blocks && Next(blocks, a) == brk ==> blocks[a].status != Limbo
      modifies this, mem
      ensures Heap() && NoLoose(blocks)
      ensures r == 0 ==> mem[..] == old(mem[..]) && blocks == old(blocks) && brk == old(brk)
      ensures var end := (if realloc then old(brk) else EndStart(old(blocks), old(brk))) + 2 * Max(asize, 512);
        (r == 0 <==> end > mem.Length) && (r != 0 ==> brk == end > old(brk))
      ensures r != 0 ==>
        PlacedFrom(WithMore(old(blocks), old(brk), brk), EndStart(old(blocks), old(brk)), asize, blocks, r)
      ensures r != 0 ==> r in blocks && blocks[r].status == Live && asize <= blocks[r].size < asize + 2
      ensures r != 0 ==>
        Kept(old(mem[..]), mem[..], old(blocks), blocks, 0) && NoneNew(old(blocks), blocks, r) && Unused(old(blocks), r)
    {
      hide Layout, Separated, Index, Kept, Isolated, NoFit, OneLoose, NoneNew, NoLoose, Split, EndStart, WithMore,
        PlacedFrom, Join, Append;
      ghost var m0, B0, E := mem[..], blocks, brk;
      var bp := GrowHeap(asize, realloc);
      if bp == 0 {
        return 0;
      }
      ghost var m1, B1 := mem[..], blocks;
      PlaceIsBlock(m1, brk, B1, bp);
      r := Place(bp, asize, false);
      KeptTrans(m0, m1, mem[..], B0, B1, blocks, 0);
      NoneNewTrans(B0, B1, blocks, r);
      StillUnused(m0, m1, B0, B1, r);
      PlaceIsBlock(mem[..], brk, blocks, r);
      PlacedGrown(B0, E, brk, asize, B1, blocks, r);
    }

    /** Between calls, every block is either in use or free. */
    ghost predicate Valid()
      reads this, mem
    {
      Heap() && Settled(blocks)
    }

    /** mm_malloc: an aligned block inside the heap that overlaps no other block, or null. */
    method Malloc(size: nat) returns (r: nat)
      requires Valid()
      modifies this, mem
      ensures Valid()
      ensures r == 0 ==> mem[..] == old(mem[..]) && blocks == old(blocks) && brk == old(brk)
      ensures r == 0 <==>
        size == 0 ||
        (NoFit(old(blocks), SizeInNeed(size)) &&
        EndStart(old(blocks), old(brk)) + 2 * Max(SizeInNeed(size), 512) > mem.Length)
      ensures r != 0 && brk != old(brk) ==> brk == EndStart(old(blocks), old(brk)) + 2 * Max(SizeInNeed(size), 512)
      ensures r != 0 ==> r in blocks && blocks[r].status == Live && size + 4 <= 8 * blocks[r].size
      ensures r != 0 ==> SizeInNeed(size) <= blocks[r].size < SizeInNeed(size) + 2
      ensures r != 0 ==>
        Kept(old(mem[..]), mem[..], old(blocks), blocks, 0) && NoneNew(old(blocks), blocks, r) && Unused(old(blocks), r)
      ensures r != 0 ==> Allocated(old(blocks), old(brk), SizeInNeed(size), blocks, brk, r)
    {
      hide Layout, Separated, Index, Kept, NoFit, BestPlaced, Allocated, EndStart;
      r := MallocWrapped(size, false);
    }

    // ------------------------------------------------------------- mm_free

    /** mm_free: merges the block with its free neighbours and indexes the result. */
    method Release(ptr: nat) returns (ghost lo: nat, ghost hi: nat)
      requires Heap() && ptr in blocks && Occupied(blocks[ptr].status) && NoLoose(blocks)
      requires forall b {:trigger blocks[b]} :: b in blocks && blocks[b].status == Limbo ==> b == ptr
      modifies this, mem
      ensures Valid() && brk == old(brk)
      ensures Kept(old(mem[..]), mem[..], old(blocks), blocks, ptr) && NoneNew(old(blocks), blocks, 0)
      ensures FreeRun(WithStatus(old(blocks), ptr, Loose), ptr, lo, hi) && lo < hi &&
        blocks == Join(old(blocks), lo, hi, Free)
      ensures lo == EndStart(old(blocks), ptr) && hi == Back(old(blocks), ptr)
    {
      hide Layout, Separated, Index, Kept, Isolated, NoneNew, NoLoose, OneLoose, Join, FreeRun, EndStart, Back;
      ghost var m0, B0 := mem[..], blocks;
      LayoutTiling(m0, brk, B0);
      HeaderOf(m0, brk, B0, ptr);
      var size := mem[ptr - 1].hi;
      mem[ptr - 1] := mem[ptr - 1].(hi := size);
      mem[ptr - 1] := mem[ptr - 1].(b0 := false);
      ClearTag(ptr + 2 * mem[ptr - 1].hi);
      mem[ptr + 2 * mem[ptr - 1].hi - 2] := Pack(size, false);
      ghost var m1, B1 := mem[..], WithStatus(B0, ptr, Loose);
      assert m1 == FreedMem(m0, ptr, size);
      Freed(m0, brk, B0, ptr, root, tree, list);
      FreedSeparated(B0, ptr);
      blocks := B1;
      var p;
      p, lo, hi := Coalesce(ptr, false);
      ghost var m2, B2 := mem[..], blocks;
      JoinedSize(m0, m1, brk, B0, B1, ptr, lo, hi);
      AddToIndex(p);
      assert blocks == WithStatus(Join(B1, lo, hi, Loose), lo, Free);
      KeptChain(m1, m2, mem[..], B1, B2, blocks, 0, 0);
      KeptChain(m0, m1, mem[..], B0, B1, blocks, ptr, 0);
      FreedBlocks(m1, B0, ptr, lo, hi, brk);
      RunEnds(B0, brk, ptr, lo, hi);
    }

    // ------------------------------------------------------------- mm_init

    /** The six PUTs of mm_init. */
    method Prologue()
      requires mem.Length >= 6
      modifies mem
      ensures mem[1] == OfValue(0) && mem[2] == OfValue(0) && mem[3] == Pack(1, true) && mem[4] == Pack(1, true)
      ensures mem[5] == Word(0, false, true, true)
    {
      mem[0] := OfValue(0);
      mem[1] := OfValue(0);
      mem[2] := OfValue(0);
      mem[3] := Pack(1, true);
      mem[4] := Pack(1, true);
      mem[5] := Word(0, false, true, true);
    }

    /** The part of mm_init before it extends the heap. */
    method StartHeap() returns (ok: bool)
      requires brk == 0
      modifies this, mem
      ensures ok <==> mem.Length >= 6
      ensures ok ==> Heap() && NoLoose(blocks) && brk == FIRST && blocks == map[] && mem[5].b1
    {
      hide Separated, NoLoose, Layout, Index, Pack, OfValue;
      var start;
      start, brk := Memlib.Sbrk(brk, 6, mem.Length);
      if start == -1 {
        return false;
      }
      root := NIL;
      Prologue();
      epilogue := 5;
      blocks, tree, list := map[], Leaf, [];
      EmptyHeap(mem[..], brk);
      ok := true;
    }

    /** mm_init, on memory fresh from memlib. */
    method Init() returns (r: int)
      requires brk == 0
      modifies this, mem
      ensures r == 0 <==> mem.Length >= FIRST + 2 * CHUNK
      ensures r == 0 ==> Valid() && brk == FIRST + 2 * CHUNK && blocks == map[FIRST := Block(CHUNK, Free)]
      ensures r != 0 ==> r == -1
    {
      hide Separated, NoLoose, Isolated, OneLoose, Layout, Index;
      var ok := StartHeap();
      if !ok {
        return -1;
      }
      var p := ExtendHeap(2 * CHUNK);
      if p == 0 {
        return -1;
      }
      FirstChunk(mem[..], brk, blocks, p);
      HeaderOf(mem[..], brk, blocks, p);
      IsolatedBits(mem[..], brk, blocks, p);
      ghost var m := mem[..];
      SetTag(4 + 2 * mem[3].hi);
      assert mem[..] == m;
      AddToIndex(4 + 2 * mem[3].hi);
      r := 0;
    }

    // ------------------------------------------------------------- mm_realloc

    /** What a successful mm_realloc promises. */
    ghost predicate Resized(m0: seq<Word>, B0: Blocks, ptr: nat, r: nat, asize: nat)
      reads this, mem
    {
      Valid() && ptr in B0 && r in blocks && blocks[r].status == Live && asize <= blocks[r].size &&
        B0[ptr].size <= blocks[r].size &&
      Payload(m0, mem[..], ptr, r, B0[ptr].size) && Kept(m0, mem[..], B0, blocks, ptr) && NoneNew(B0, blocks, r) &&
      (r != ptr ==> Unused(blocks, ptr) && Unused(B0, r))
    }

    /** TRIVAL_PLACE */
    method TrivialPlace(p: nat)
      requires Sturdy() && p in blocks && Occupied(blocks[p].status)
      modifies this, mem
      ensures Sturdy() && brk == old(brk) && blocks == WithStatus(old(blocks), p, Live)
      ensures Kept(old(mem[..]), mem[..], old(blocks), blocks, p) &&
        Payload(old(mem[..]), mem[..], p, p, blocks[p].size)
    {
      hide Layout, Index, Kept;
      ghost var m0, B0 := mem[..], blocks;
      HeaderOf(m0, brk, B0, p);
      mem[p - 1] := mem[p - 1].(b0 := true);
      SetTag(p + 2 * mem[p - 1].hi);
      Taken(m0, brk, B0, p, root, tree, list, p);
      assert mem[..] == TakenMem(m0, p, B0[p].size);
      blocks := WithStatus(B0, p, Live);
    }

    /** The header, footer and tag writes that end COALESCE_NEXT and mm_realloc's extension; `n` is loose. */
    method Absorb(p: nat, size: nat, ghost n: nat, ghost hi: nat)
      requires Sturdy() && p in blocks && Occupied(blocks[p].status) && n == Next(blocks, p) && n in blocks &&
        blocks[n].status == Loose
      requires hi == Next(blocks, n) && 2 * size == hi - p
      modifies this, mem
      ensures Sturdy() && brk == old(brk) && blocks == Join(old(blocks), p, hi, old(blocks)[p].status)
      ensures Kept(old(mem[..]), mem[..], old(blocks), blocks, p) &&
        Payload(old(mem[..]), mem[..], p, p, old(blocks)[p].size)
    {
      hide Layout, Index, Kept, Join;
      ghost var m0, B0 := mem[..], blocks;
      HeaderOf(m0, brk, B0, p);
      HeaderOf(m0, brk, B0, n);
      mem[p - 1] := mem[p - 1].(hi := size);
      mem[p + 2 * mem[p - 1].hi - 2] := mem[p + 2 * mem[p - 1].hi - 2].(hi := size);
      SetTag(p + 2 * mem[p - 1].hi);
      assert mem[..] == AbsorbedMem(m0, m0[p - 1], p, hi, size);
      PairStretch(m0, brk, B0, p, n, hi);
      Absorbed(m0, mem[..], brk, B0, p, hi, B0[p].status, p, root, tree, list);
      blocks := Join(B0, p, hi, B0[p].status);
    }

    /** COALESCE_NEXT */
    method AbsorbNext(p: nat, size0: nat, nextAvail: nat, ghost hi: nat) returns (size: nat)
      requires Sturdy() && p in blocks && Occupied(blocks[p].status) && size0 == blocks[p].size
      requires var n := Next(blocks, p);
        n in blocks && blocks[n].status == Free && hi == Next(blocks, n) && nextAvail == blocks[n].size
      modifies this, mem
      ensures Sturdy() && brk == old(brk) && blocks == Join(old(blocks), p, hi, old(blocks)[p].status) &&
        2 * size == hi - p
      ensures Kept(old(mem[..]), mem[..], old(blocks), blocks, p) &&
        Payload(old(mem[..]), mem[..], p, p, old(blocks)[p].size)
    {
      hide Layout, Index, Kept, Join;
      ghost var m0, B0, n := mem[..], blocks, Next(blocks, p);
      HeaderOf(m0, brk, B0, p);
      HeaderOf(m0, brk, B0, n);
      DropFromIndex(p + 2 * mem[p - 1].hi);
      ghost var m1, B1 := mem[..], blocks;
      BodyKept(m0, m1, B0, B1, p);
      size := size0 + nextAvail;
      Absorb(p, size, n, hi);
      PlaceIsBlock(m0, brk, B0, p);
      KeptWeaken(m0, m1, B0, B1, p);
      KeptTrans(m0, m1, mem[..], B0, B1, blocks, p);
      JoinLoosened(B0, p, hi, n, B0[p].status);
    }

    /** COALESCE_PREV */
    method AbsorbPrev(ptr: nat, size0: nat, prevAvail: nat, ghost lo: nat) returns (p: nat, size: nat)
      requires Sturdy() && ptr in blocks && Occupied(blocks[ptr].status) && size0 == blocks[ptr].size
      requires lo in blocks && Next(blocks, lo) == ptr && blocks[lo].status == Free && prevAvail == blocks[lo].size
      modifies this, mem
      ensures p == lo && Sturdy() && brk == old(brk) && blocks == Join(old(blocks), lo, old(Next(blocks, ptr)), Limbo)
      ensures 2 * size == old(Next(blocks, ptr)) - lo
      ensures Kept(old(mem[..]), mem[..], old(blocks), blocks, ptr) &&
        Payload(old(mem[..]), mem[..], ptr, p, old(blocks)[ptr].size)
    {
      hide Layout, Index, Kept, Join;
      ghost var m0, B0, hi := mem[..], blocks, Next(blocks, ptr);
      HeaderOf(m0, brk, B0, ptr);
      HeaderOf(m0, brk, B0, lo);
      DropFromIndex(ptr - 2 * mem[ptr - 2].hi);
      ghost var m1, B1 := mem[..], blocks;
      HeaderOf(m1, brk, B1, ptr);
      HeaderOf(m1, brk, B1, lo);
      BodyKept(m0, m1, B0, B1, ptr);
      PlaceIsBlock(m0, brk, B0, ptr);
      p := ptr - 2 * mem[ptr - 2].hi;
      size := size0 + prevAvail;
      Slide(p, ptr, size0, size, hi);
      PairStretch(m1, brk, B1, lo, ptr, hi);
      Absorbed(m1, mem[..], brk, B1, lo, hi, Limbo, ptr, root, tree, list);
      blocks := Join(B1, lo, hi, Limbo);
      KeptWeaken(m0, m1, B0, B1, ptr);
      KeptTrans(m0, m1, mem[..], B0, B1, blocks, ptr);
      JoinLoosened(B0, lo, hi, lo, Limbo);
    }

    /** The memmove and the header writes of COALESCE_PREV. */
    method Slide(p: nat, ptr: nat, size0: nat, size: nat, ghost hi: nat)
      requires 1 <= p && p + 4 <= ptr && size0 >= 2 && hi == ptr + 2 * size0 && hi <= mem.Length && 2 * size == hi - p
      modifies mem
      ensures Rewritten(old(mem[..]), mem[..], p, hi) && mem[p - 1].hi == size && mem[hi - 1] == old(mem[hi - 1])
      ensures Payload(old(mem[..]), mem[..], ptr, p, size0)
    {
      hide Rewritten, Payload;
      ghost var m1 := mem[..];
      Memlib.Copy(mem, p, ptr, 2 * size0 - 1);
      ghost var m2 := mem[..];
      MovedWords(m1, m2, p, ptr, size0, hi);
      mem[p - 1] := mem[p - 1].(hi := size);
      mem[p + 2 * mem[p - 1].hi - 2] := mem[p + 2 * mem[p - 1].hi - 2].(hi := size);
      PrevAbsorbed(m1, m2, mem[..], p, ptr, size0, hi, size);
    }

    /** Everything mm_realloc learns from the headers around `ptr` before it chooses a branch. */
    ghost predicate Ready(ptr: nat, lo: nat, hi: nat, size: nat, nextAvail: nat, prevAvail: nat)
      reads this, mem
    {
      Valid() && ptr in blocks && blocks[ptr].status == Live && RunAt(blocks, ptr, lo, hi) &&
        size == blocks[ptr].size &&
      2 * nextAvail == hi - Next(blocks, ptr) && 2 * prevAvail == ptr - lo
    }

    /** The block grows over the next one. */
    method GrowNext(ptr: nat, size0: nat, nextAvail: nat, prevAvail: nat, asize: nat, ghost lo: nat, ghost hi: nat)
        returns (r: nat)
      requires Ready(ptr, lo, hi, size0, nextAvail, prevAvail) && nextAvail > 0 && size0 + nextAvail >= asize
      modifies this, mem
      ensures Resized(old(mem[..]), old(blocks), ptr, r, asize) && brk == old(brk)
      ensures r == ptr < hi && blocks == Join(old(blocks), ptr, hi, Live)
    {
      hide Layout, Index, Separated, Kept, Join, NoneNew, Payload, RunAt, Settled;
      ghost var m0, B0 := mem[..], blocks;
      RunSides(m0, brk, B0, ptr, lo, hi);
      var size := AbsorbNext(ptr, size0, nextAvail, hi);
      Grown(m0, brk, B0, ptr, ptr, hi);
      ghost var m1, B1 := mem[..], blocks;
      TrivialPlace(ptr);
      JoinStatus(B0, ptr, hi, Live, Live);
      KeptChain(m0, m1, mem[..], B0, B1, blocks, ptr, ptr);
      PayloadChain(m0, m1, mem[..], ptr, ptr, ptr, size0, blocks[ptr].size);
      r := ptr;
    }

    /** The block slides down over the previous one. */
    method GrowPrev(ptr: nat, size0: nat, nextAvail: nat, prevAvail: nat, asize: nat, ghost lo: nat, ghost hi: nat)
        returns (r: nat)
      requires Ready(ptr, lo, hi, size0, nextAvail, prevAvail) && prevAvail > 0 && size0 + prevAvail >= asize
      modifies this, mem
      ensures Resized(old(mem[..]), old(blocks), ptr, r, asize) && brk == old(brk)
      ensures r == lo < old(Next(blocks, ptr)) && blocks == Join(old(blocks), lo, old(Next(blocks, ptr)), Live)
    {
      hide Layout, Index, Separated, Kept, Join, NoneNew, Payload, RunAt, Settled;
      ghost var m0, B0 := mem[..], blocks;
      RunSides(m0, brk, B0, ptr, lo, hi);
      var size;
      r, size := AbsorbPrev(ptr, size0, prevAvail, lo);
      Grown(m0, brk, B0, ptr, lo, Next(B0, ptr));
      ghost var m1, B1 := mem[..], blocks;
      TrivialPlace(r);
      JoinStatus(B0, lo, Next(B0, ptr), Limbo, Live);
      Swallowed(B0, ptr, lo, Next(B0, ptr), Live);
      KeptChain(m0, m1, mem[..], B0, B1, blocks, ptr, lo);
      PayloadChain(m0, m1, mem[..], ptr, lo, lo, size0, blocks[lo].size);
    }

    /** The block grows over both neighbours. */
    method GrowBoth(ptr: nat, size0: nat, nextAvail: nat, prevAvail: nat, asize: nat, ghost lo: nat, ghost hi: nat)
        returns (r: nat)
      requires Ready(ptr, lo, hi, size0, nextAvail, prevAvail) && nextAvail > 0 && prevAvail > 0 &&
        size0 + nextAvail + prevAvail >= asize
      modifies this, mem
      ensures Resized(old(mem[..]), old(blocks), ptr, r, asize) && brk == old(brk)
      ensures r == lo < hi && blocks == Join(old(blocks), lo, hi, Live)
    {
      hide Layout, Index, Separated, Kept, Join, NoneNew, Payload, RunAt, Settled;
      ghost var m0, B0 := mem[..], blocks;
      RunSides(m0, brk, B0, ptr, lo, hi);
      JoinStatus(B0, lo, hi, Limbo, Live);
      var size := AbsorbNext(ptr, size0, nextAvail, hi);
      Grown(m0, brk, B0, ptr, ptr, hi);
      Grown(m0, brk, B0, ptr, lo, hi);
      JoinTwice(B0, lo, ptr, hi, Live, Limbo);
      ghost var m1, B1 := mem[..], blocks;
      r, size := AbsorbPrev(ptr, size, prevAvail, lo);
      ghost var m2, B2 := mem[..], blocks;
      TrivialPlace(r);
      Swallowed(B0, ptr, lo, hi, Live);
      KeptChain(m0, m1, m2, B0, B1, B2, ptr, ptr);
      KeptChain(m0, m2, mem[..], B0, B2, blocks, ptr, lo);
      PayloadChain(m0, m1, m2, ptr, ptr, lo, size0, B1[ptr].size);
      PayloadChain(m0, m2, mem[..], ptr, lo, lo, size0, blocks[lo].size);
    }

    /** Nothing around is big enough: first merge with what is free around. */
    method Gather(ptr: nat, size0: nat, nextAvail: nat, prevAvail: nat, ghost lo: nat, ghost hi: nat)
        returns (p: nat, size: nat)
      requires Ready(ptr, lo, hi, size0, nextAvail, prevAvail)
      modifies this, mem
      ensures p == lo && 2 * size == hi - lo && Sturdy() && brk == old(brk)
      ensures blocks == Join(old(blocks), lo, hi, if lo == ptr then Live else Limbo)
      ensures Kept(old(mem[..]), mem[..], old(blocks), blocks, ptr) && Payload(old(mem[..]), mem[..], ptr, lo, size0)
    {
      hide Layout, Index, Separated, Kept, Join, NoneNew, Payload, RunAt, Settled;
      ghost var m0, B0, n := mem[..], blocks, Next(blocks, ptr);
      RunSides(m0, brk, B0, ptr, lo, hi);
      p, size := ptr, size0;
      KeptSelf(m0, brk, B0, ptr);
      if prevAvail > 0 {
        p, size := AbsorbPrev(p, size, prevAvail, lo);
        Grown(m0, brk, B0, ptr, lo, n);
      }
      ghost var m1, B1 := mem[..], blocks;
      if nextAvail > 0 {
        PrevThenNext(B0, lo, ptr, n, hi);
        size := AbsorbNext(p, size, nextAvail, hi);
        KeptChain(m0, m1, mem[..], B0, B1, blocks, ptr, p);
        PayloadChain(m0, m1, mem[..], ptr, p, p, size0, B1[p].size);
      }
      JoinSelf(m0, brk, B0, ptr);
    }

    /** The merged block is the last one: extend the heap by what is missing. */
    method GrowAtEnd(p: nat, size: nat, asize: nat) returns (r: nat)
      requires Sturdy() && p in blocks && Occupied(blocks[p].status) && blocks[p].size == size < asize &&
        Next(blocks, p) == brk
      requires Separated(WithStatus(blocks, p, Live)) && Settled(WithStatus(blocks, p, Live))
      modifies this, mem
      ensures Valid() && Kept(old(mem[..]), mem[..], old(blocks), blocks, p)
      ensures r == 0 <==> old(brk) + 2 * (asize - size) > mem.Length
      ensures r == 0 ==> brk == old(brk) && blocks == WithStatus(old(blocks), p, Live)
      ensures Payload(old(mem[..]), mem[..], p, p, size)
      ensures r != 0 ==> r == p && p in blocks && blocks[p] == Block(asize, Live) && NoneNew(old(blocks), blocks, p)
      ensures r != 0 ==> brk == p + 2 * asize && blocks == old(blocks)[p := Block(asize, Live)]
    {
      hide Layout, Index, Separated, Kept, Join, NoneNew, Payload, Settled, Isolated, OneLoose, NoLoose, EndStart,
        Append;
      ghost var m0, B0 := mem[..], blocks;
      HeaderOf(m0, brk, B0, p);
      TrivialPlace(p);
      ghost var m1, B1, E := mem[..], blocks, brk;
      HeaderOf(m1, brk, B1, p);
      SettledFacts(B1, brk);
      var bp := ExtendHeap(2 * (asize - size));
      if bp == 0 {
        return 0;
      }
      ghost var m2, B2 := mem[..], blocks;
      BodyKept(m1, m2, B1, B2, p);
      HeaderOf(m2, brk, B2, p);
      HeaderOf(m2, brk, B2, bp);
      Absorb(p, size + mem[p + 2 * mem[p - 1].hi - 1].hi, bp, brk);
      ExtendedRun(m2, brk, B0, B1, B2, p, bp);
      LayoutTiling(m1, E, B1);
      GrewLast(E, B0, B1, B2, p, asize);
      PlaceIsBlock(m0, E, B0, p);
      KeptChain(m0, m1, m2, B0, B1, B2, p, 0);
      KeptChain(m0, m2, mem[..], B0, B2, blocks, p, p);
      PayloadChain(m0, m1, m2, p, p, p, size, size);
      PayloadChain(m0, m2, mem[..], p, p, p, size, size);
      r := p;
    }

    /** The merged block is not the last one: allocate elsewhere, copy, free. */
    method CopyOut(p: nat, size: nat, bytes: nat, asize: nat) returns (r: nat)
      requires Heap() && NoLoose(blocks) && p in blocks && Occupied(blocks[p].status) &&
        blocks[p].size == size < asize && Next(blocks, p) != brk
      requires forall b {:trigger blocks[b]} ::
        b in blocks && b != p ==> blocks[b].status == Live || blocks[b].status == Free
      requires bytes > 0 && asize == SizeInNeed(bytes)
      modifies this, mem
      ensures r == 0 ==>
        Heap() && NoLoose(blocks) && mem[..] == old(mem[..]) && blocks == old(blocks) && brk == old(brk)
      ensures r == 0 <==> NoFit(old(blocks), asize) && old(brk) + 2 * Max(asize, 512) > mem.Length
      ensures r != 0 ==> MovedAway(old(blocks), old(brk), p, asize, blocks, brk, r)
      ensures r != 0 ==> Valid() && Kept(old(mem[..]), mem[..], old(blocks), blocks, p) && Unused(old(blocks), r)
      ensures r != 0 ==>
        r in blocks && blocks[r].status == Live && asize <= blocks[r].size && Payload(old(mem[..]), mem[..], p, r, size)
      ensures r != 0 ==> NoneNew(old(blocks), blocks, r) && Unused(blocks, p)
    {
      hide Layout, Index, Separated, Kept, Join, NoneNew, Payload, Isolated, OneLoose, NoLoose, NoFit, FreeRun,
        Allocated, EndStart, Back, MovedAway;
      ghost var m0, B0 := mem[..], blocks;
      HeaderOf(m0, brk, B0, p);
      PlaceIsBlock(m0, brk, B0, p);
      r := MallocWrapped(bytes, true);
      if r == 0 {
        return;
      }
      ghost var m1, B1, E := mem[..], blocks, brk;
      BodyKept(m0, m1, B0, B1, p);
      OnlyLimbo(B0, B1, p, r);
      CopyAndRelease(p, size, r);
      MovedBy(B0, old(brk), p, asize, B1, blocks, brk, r);
      KeptWeaken(m0, m1, B0, B1, p);
      KeptAcross(m0, m1, mem[..], B0, B1, blocks, p, r);
      PayloadChain(m0, m1, mem[..], p, p, r, size, size);
      PlaceIsBlock(mem[..], brk, blocks, r);
      NoneNewBack(B0, B1, blocks, r);
    }

    /** memcpy from one block in use to another. */
    method CopyOver(p: nat, size: nat, r: nat)
      requires Heap() && p in blocks && blocks[p].size == size && r in blocks && r != p &&
        Occupied(blocks[r].status) && size <= blocks[r].size
      modifies mem
      ensures Heap() && Kept(old(mem[..]), mem[..], blocks, blocks, r) && Payload(old(mem[..]), mem[..], p, r, size)
    {
      hide Layout, Index, Separated, Kept, Payload, Tiling;
      ghost var m1 := mem[..];
      TwoBlocks(m1, brk, blocks, p, r);
      Memlib.Copy(mem, r, p, 2 * size - 1);
      Copied(m1, mem[..], brk, blocks, p, r, size, root, tree, list);
    }

    /** memcpy and mm_free at the end of mm_realloc. */
    method CopyAndRelease(p: nat, size: nat, r: nat)
      requires Heap() && NoLoose(blocks) && p in blocks && Occupied(blocks[p].status) && blocks[p].size == size
      requires r in blocks && r != p && blocks[r].status == Live && size <= blocks[r].size
      requires forall b {:trigger blocks[b]} :: b in blocks && blocks[b].status == Limbo ==> b == p
      modifies this, mem
      ensures Valid() && brk == old(brk) && r in blocks && blocks[r] == old(blocks)[r] && Unused(blocks, p)
      ensures Kept2(old(mem[..]), mem[..], old(blocks), blocks, p, r) && NoneNew(old(blocks), blocks, 0)
      ensures var (lo, hi) := (EndStart(old(blocks), p), Back(old(blocks), p));
        lo < hi && blocks == Join(old(blocks), lo, hi, Free)
      ensures Payload(old(mem[..]), mem[..], p, r, size)
    {
      hide Layout, Index, Separated, Kept, Join, NoneNew, Payload, NoLoose, FreeRun, EndStart, Back;
      ghost var m1, B1 := mem[..], blocks;
      CopyOver(p, size, r);
      ghost var m2 := mem[..];
      ghost var lo, hi := Release(p);
      BodyKeptX(m2, mem[..], B1, blocks, p, r);
      ReleasedAt(m1, B1, brk, p, lo, hi, blocks);
      KeptBoth(m1, m2, mem[..], B1, blocks, p, r);
      PayloadChain(m1, m2, mem[..], p, r, r, size, B1[r].size);
    }

    /** No branch fits: merge with what is free around, then extend or move. */
    method Relocate(ptr: nat, size0: nat, nextAvail: nat, prevAvail: nat, bytes: nat, asize: nat, ghost lo: nat,
        ghost hi: nat) returns (r: nat)
      requires Ready(ptr, lo, hi, size0, nextAvail, prevAvail) && size0 + nextAvail + prevAvail < asize
      requires bytes > 0 && asize == SizeInNeed(bytes)
      modifies this, mem
      ensures r != 0 ==> Resized(old(mem[..]), old(blocks), ptr, r, asize)
      ensures r == 0 ==> Heap() && NoLoose(blocks) && Kept(old(mem[..]), mem[..], old(blocks), blocks, ptr)
      ensures r == 0 ==> Survives(old(mem[..]), old(blocks), ptr, mem[..], blocks)
      ensures Answer(old(blocks), old(brk), ptr, asize, mem.Length, blocks, brk, r)
    {
      hide Layout, Index, Separated, Kept, Join, NoneNew, Payload, RunAt, Settled, NoLoose, Isolated, Survives,
        EndStart, Back, NoFit, MovedAway, Answer;
      ghost var m0, B0, E := mem[..], blocks, brk;
      LayoutTiling(m0, E, B0);
      RunReady(B0, E, ptr, lo, hi);
      RunSides(m0, brk, B0, ptr, lo, hi);
      var p, size := Gather(ptr, size0, nextAvail, prevAvail, lo, hi);
      ghost var m1, B1 := mem[..], blocks;
      Gathered(m0, E, B0, ptr, lo, hi);
      HeaderOf(m1, brk, B1, p);
      if p + 2 * mem[p - 1].hi - 1 == epilogue {
        r := GrowAtEnd(p, size, asize);
        KeptChain(m0, m1, mem[..], B0, B1, blocks, ptr, lo);
        SettledFacts(blocks, brk);
        PayloadChain(m0, m1, mem[..], ptr, lo, lo, size0, size);
        AnswerAtEnd(B0, E, ptr, asize, mem.Length, lo, hi, blocks, brk, r);
        if r == 0 {
          SurvivesAt(m0, B0, ptr, mem[..], blocks, lo);
        } else {
          NoneNewJoin(B0, B1, blocks, lo);
          if r != ptr { Swallowed(B0, ptr, lo, hi, Limbo); NotBack(B1, blocks, lo, ptr); }
        }
      } else {
        r := CopyOut(p, size, bytes, asize);
        AnswerMoved(B0, E, ptr, asize, mem.Length, lo, hi, blocks, brk, r);
        if r == 0 {
          SurvivesAt(m0, B0, ptr, mem[..], blocks, lo);
          return;
        }
        KeptChain(m0, m1, mem[..], B0, B1, blocks, ptr, lo);
        PayloadChain(m0, m1, mem[..], ptr, lo, r, size0, size);
        NoneNewGone(B0, B1, blocks, lo, r);
        if r != ptr { UnusedBack(m0, m1, B0, B1, ptr, r); }
        if r != ptr && ptr != lo { Swallowed(B0, ptr, lo, hi, Limbo); NotBack(B1, blocks, r, ptr); }
      }
    }

    /** mm_realloc.  When it returns a block, that block holds `size` bytes and begins with the whole old
        payload, and no other block in use has changed.  When memory runs out the old block may have
        been merged with free neighbours and moved, and its address is lost. */
    method Realloc(ptr: nat, size: nat) returns (r: nat)
      requires Valid() && (ptr != 0 ==> ptr in blocks && blocks[ptr].status == Live)
      modifies this, mem
      ensures r != 0 ==> Valid() && r in blocks && blocks[r].status == Live && size + 4 <= 8 * blocks[r].size
      ensures r != 0 ==> Kept(old(mem[..]), mem[..], old(blocks), blocks, ptr) && NoneNew(old(blocks), blocks, r)
      ensures r != 0 && r != ptr ==> (ptr != 0 ==> Unused(blocks, ptr)) && Unused(old(blocks), r)
      ensures r != 0 && ptr != 0 ==> old(blocks)[ptr].size <= blocks[r].size
      ensures r != 0 && ptr != 0 ==> size > 0 && Payload(old(mem[..]), mem[..], ptr, r, old(blocks)[ptr].size)
      ensures ptr != 0 && size == 0 ==> r == 0 && Valid() && NoneNew(old(blocks), blocks, 0) && Unused(blocks, ptr)
      ensures r == 0 ==> Heap() && NoLoose(blocks) && Kept(old(mem[..]), mem[..], old(blocks), blocks, ptr)
      ensures r == 0 && ptr != 0 && size > 0 ==> Survives(old(mem[..]), old(blocks), ptr, mem[..], blocks)
      ensures ptr != 0 && size > 0 ==>
        Answer(old(blocks), old(brk), ptr, SizeInNeed(size), mem.Length, blocks, brk, r)
      ensures ptr != 0 && size > 0 ==>
        (r == 0 <==> Refused(old(blocks), old(brk), ptr, SizeInNeed(size), mem.Length))
      ensures ptr == 0 && r == 0 && size > 0 ==>
        NoFit(old(blocks), SizeInNeed(size)) &&
        EndStart(old(blocks), old(brk)) + 2 * Max(SizeInNeed(size), 512) > mem.Length
      ensures ptr == 0 && r != 0 ==> Allocated(old(blocks), old(brk), SizeInNeed(size), blocks, brk, r)
      ensures ptr != 0 && size == 0 ==>
        brk == old(brk) && EndStart(old(blocks), ptr) < Back(old(blocks), ptr) &&
        blocks == Join(old(blocks), EndStart(old(blocks), ptr), Back(old(blocks), ptr), Free)
      ensures ptr == 0 && r == 0 ==> Valid() && mem[..] == old(mem[..]) && blocks == old(blocks)
    {
      hide Layout, Index, Separated, Kept, Join, NoneNew, Payload, RunAt, Settled, NoLoose, NoFit, FreeRun, Survives,
        Answer, Allocated, EndStart, Back, Refused;
      ghost var m0, B0 := mem[..], blocks;
      SettledFacts(B0, brk);
      if ptr == 0 {
        KeptSame(m0, brk, B0);
        r := Malloc(size);
        return;
      }
      PlaceIsBlock(m0, brk, B0, ptr);
      if size == 0 {
        LiveOnly(B0, ptr);
        ghost var a, b := Release(ptr);
        ReleasedAt(m0, B0, brk, ptr, a, b, blocks);
        SettledFacts(blocks, brk);
        return 0;
      }
      var asize := SizeInNeed(size);
      ghost var lo, hi := ReadyBounds(ptr);
      var next := ptr + 2 * mem[ptr - 1].hi;
      var nextAvail := if mem[next - 1].b0 then 0 else mem[next - 1].hi;
      var prevAvail := if mem[ptr - 1].b1 then 0 else mem[ptr - 2 * mem[ptr - 2].hi - 1].hi;
      r := Resize(ptr, mem[ptr - 1].hi, nextAvail, prevAvail, size, asize, lo, hi);
      LayoutTiling(m0, old(brk), B0);
      AnswerNull(B0, old(brk), ptr, asize, mem.Length, blocks, brk, r);
    }

    /** The five branches of mm_realloc. */
    method Resize(ptr: nat, blocksize: nat, nextAvail: nat, prevAvail: nat, bytes: nat, asize: nat, ghost lo: nat,
        ghost hi: nat) returns (r: nat)
      requires Ready(ptr, lo, hi, blocksize, nextAvail, prevAvail) && bytes > 0 && asize == SizeInNeed(bytes)
      modifies this, mem
      ensures r != 0 ==> Resized(old(mem[..]), old(blocks), ptr, r, asize)
      ensures r == 0 ==> Heap() && NoLoose(blocks) && Kept(old(mem[..]), mem[..], old(blocks), blocks, ptr)
      ensures r == 0 ==> Survives(old(mem[..]), old(blocks), ptr, mem[..], blocks)
      ensures Answer(old(blocks), old(brk), ptr, asize, mem.Length, blocks, brk, r)
    {
      hide Layout, Index, Separated, Kept, Join, NoneNew, Payload, RunAt, Settled, NoLoose, Survives, EndStart, Back,
        NoFit, MovedAway;
      ghost var m0, B0 := mem[..], blocks;
      LayoutTiling(m0, brk, B0);
      RunReady(B0, brk, ptr, lo, hi);
      RunSides(m0, brk, B0, ptr, lo, hi);
      if blocksize >= asize {
        r := Stay(ptr, asize);
        PlaceIsBlock(mem[..], brk, blocks, r);
      } else if blocksize + nextAvail >= asize {
        r := GrowNext(ptr, blocksize, nextAvail, prevAvail, asize, lo, hi);
        PlaceIsBlock(mem[..], brk, blocks, r);
      } else if blocksize + prevAvail >= asize {
        r := GrowPrev(ptr, blocksize, nextAvail, prevAvail, asize, lo, hi);
        PlaceIsBlock(mem[..], brk, blocks, r);
      } else if blocksize + nextAvail + prevAvail >= asize {
        r := GrowBoth(ptr, blocksize, nextAvail, prevAvail, asize, lo, hi);
        PlaceIsBlock(mem[..], brk, blocks, r);
      } else {
        r := Relocate(ptr, blocksize, nextAvail, prevAvail, bytes, asize, lo, hi);
      }
    }

    /** The block is big enough already. */
    method Stay(ptr: nat, asize: nat) returns (r: nat)
      requires Valid() && ptr in blocks && blocks[ptr].status == Live && blocks[ptr].size >= asize
      modifies this, mem
      ensures Resized(old(mem[..]), old(blocks), ptr, r, asize) && brk == old(brk) && r == ptr && blocks == old(blocks)
    {
      hide Layout, Index, Separated, Kept, NoneNew, Payload, Settled;
      SameBlocks(blocks, ptr);
      TrivialPlace(ptr);
      r := ptr;
    }

    /** Where the run around a live block begins, as its tag tells. */
    lemma ReadyFront(ptr: nat) returns (lo: nat)
      requires Valid() && ptr in blocks && blocks[ptr].status == Live
      ensures 2 <= ptr <= mem.Length && lo in blocks && lo <= ptr
      ensures if lo == ptr then
          forall a {:trigger Next(blocks, a)} :: a in blocks && Next(blocks, a) == ptr ==> blocks[a].status != Free
        else Next(blocks, lo) == ptr && blocks[lo].status == Free
      ensures !mem[ptr - 1].b1 ==> 2 * mem[ptr - 2].hi + 1 <= ptr
      ensures ptr - lo == 2 * if mem[ptr - 1].b1 then 0 else mem[ptr - 2 * mem[ptr - 2].hi - 1].hi
    {
      hide BlockOk, Index, Tiling, Sized, Separated;
      HeaderOf(mem[..], brk, blocks, ptr);
      if mem[ptr - 1].b1 {
        lo := ptr;
        forall a | a in blocks && Next(blocks, a) == ptr ensures blocks[a].status != Free {
          HeaderOf(mem[..], brk, blocks, a);
        }
      } else {
        lo := TagPrev(mem[..], brk, blocks, ptr);
        HeaderOf(mem[..], brk, blocks, lo);
      }
    }

    /** Where it ends, as the allocation bit behind the block tells. */
    lemma ReadyBack(ptr: nat) returns (hi: nat)
      requires Valid() && ptr in blocks && blocks[ptr].status == Live
      ensures var n := Next(blocks, ptr);
        1 <= n <= mem.Length && (if hi == n then n in blocks ==> blocks[n].status != Free
          else n in blocks && blocks[n].status == Free && hi == Next(blocks, n))
      ensures var n := Next(blocks, ptr); hi - n == 2 * if mem[n - 1].b0 then 0 else mem[n - 1].hi
    {
      hide BlockOk, Index, Sized, Separated;
      var n := Next(blocks, ptr);
      HeaderOf(mem[..], brk, blocks, ptr);
      if n in blocks { HeaderOf(mem[..], brk, blocks, n); }
      assert n in blocks || n == brk;
      hi := if n in blocks && blocks[n].status == Free then Next(blocks, n) else n;
    }

    /** The run around a live block that is taken for a loose one. */
    lemma RunAround(B: Blocks, ptr: nat, lo: nat, hi: nat)
      requires ptr in B && lo in B && (lo == ptr || B[lo].status == Free) && B[ptr].status == Live
      requires if lo == ptr then forall a {:trigger Next(B, a)} :: a in B && Next(B, a) == ptr ==> B[a].status != Free
        else Next(B, lo) == ptr
      requires var n := Next(B, ptr);
        if hi == n then n in B ==> B[n].status != Free else n in B && B[n].status == Free && hi == Next(B, n)
      ensures RunAt(B, ptr, lo, hi)
    {
      var B1, n := WithStatus(B, ptr, Loose), Next(B, ptr);
      forall a | a in B1 ensures Next(B1, a) == Next(B, a) {}
      if lo == ptr {
        forall a | a in B1 && Next(B1, a) == ptr ensures B1[a].status != Free { assert Next(B, a) == ptr; }
      }
      assert Next(B1, ptr) == n && (n in B1 && n != ptr ==> B1[n] == B[n]);
    }

    /** What the header bits around a live block say. */
    lemma ReadyBounds(ptr: nat) returns (lo: nat, hi: nat)
      requires Valid() && ptr in blocks && blocks[ptr].status == Live
      ensures 1 <= ptr && ptr + 2 * mem[ptr - 1].hi <= mem.Length && mem[ptr - 1].hi == blocks[ptr].size &&
        mem[ptr - 1].hi >= 1
      ensures !mem[ptr - 1].b1 ==> 2 <= ptr && 2 * mem[ptr - 2].hi + 1 <= ptr
      ensures var next := ptr + 2 * mem[ptr - 1].hi;
        Ready(ptr, lo, hi, mem[ptr - 1].hi, if mem[next - 1].b0 then 0 else mem[next - 1].hi,
              if mem[ptr - 1].b1 then 0 else mem[ptr - 2 * mem[ptr - 2].hi - 1].hi)
    {
      hide Inv, RunAt, Settled;
      HeaderIn(ptr);
      lo := ReadyFront(ptr);
      hi := ReadyBack(ptr);
      RunAround(blocks, ptr, lo, hi);
    }

    lemma HeaderIn(ptr: nat)
      requires Valid() && ptr in blocks
      ensures 1 <= ptr && ptr + 2 * mem[ptr - 1].hi <= mem.Length && mem[ptr - 1].hi == blocks[ptr].size >= 1
    {
      HeaderOf(mem[..], brk, blocks, ptr);
    }

    /** What the invariant means to a caller: payloads are aligned to double words, lie between prologue
        and epilogue, and never overlap; no two free blocks touch. */
    lemma Payloads(a: nat, b: nat)
      requires Valid() && a in blocks && b in blocks
      ensures a % 2 == 0 && FIRST <= a && a + 2 * blocks[a].size - 1 < brk <= mem.Length && 16 <= 8 * blocks[a].size
      ensures a < b ==> a + 2 * blocks[a].size - 1 < b
      ensures b == a + 2 * blocks[a].size ==> blocks[a].status == Live || blocks[b].status == Live
    {
      HeaderOf(mem[..], brk, blocks, a);
      HeaderOf(mem[..], brk, blocks, b);
      if b == Next(blocks, a) { assert Fine(blocks[a].status, blocks[b].status); }
    }

    /** Each free block is in exactly one of list and tree, exactly once, and no other block is in either. */
    lemma IndexedOnce(b: nat)
      requires Valid()
      ensures b in list <==> b in blocks && blocks[b].status == Free && blocks[b].size < TREE_MIN
      ensures b in Inorder(tree) <==> b in blocks && blocks[b].status == Free && blocks[b].size >= TREE_MIN
      ensures NoDup(list) && NoDup(Inorder(tree)) && RedBlack(tree)
    {
      hide Layout, Separated;
      assert b in list <==> ListMember(blocks, b);
      InorderIds(tree, b);
      DistinctInorder(tree);
      forall i, j | 0 <= i < j < |list| ensures list[i] != list[j] {
        FreeList.Apart(mem[..], list, i + 1, j + 1);
      }
    }

    /** Header, tag and footer of every block say what the block map says. */
    lemma TagsAgree(b: nat)
      requires Valid() && b in blocks
      ensures FIRST <= b && b + 2 * blocks[b].size <= brk <= mem.Length
      ensures mem[b - 1].hi == blocks[b].size && (mem[b - 1].b0 <==> blocks[b].status == Live)
      ensures mem[b + 2 * blocks[b].size - 1].b1 <==> blocks[b].status == Live
      ensures blocks[b].status == Free ==> mem[b + 2 * blocks[b].size - 2].hi == blocks[b].size
    {
      HeaderOf(mem[..], brk, blocks, b);
    }

    /** The program writes a word of its own. */
    method Store(ptr: nat, i: nat, w: Word)
      requires Valid() && ptr in blocks && blocks[ptr].status == Live && i + 1 < 2 * blocks[ptr].size
      modifies mem
      ensures Valid() && ptr + i < mem.Length && mem[..] == old(mem[..])[ptr + i := w]
      ensures Kept(old(mem[..]), mem[..], blocks, blocks, ptr)
    {
      hide Layout, Index, Separated, Kept, Settled;
      ghost var m0 := mem[..];
      HeaderOf(m0, brk, blocks, ptr);
      mem[ptr + i] := w;
      Written(m0, mem[..], brk, blocks, ptr, root, tree, list);
    }
  }

  /** The payload of the block at `dst` begins with the `d`-double-word payload once at `src`. */
  ghost predicate Payload(m: seq<Word>, m': seq<Word>, src: nat, dst: nat, d: nat) {
    1 <= d && src + 2 * d <= |m| && dst + 2 * d <= |m'| && m'[dst..dst + 2 * d - 1] == m[src..src + 2 * d - 1]
  }

  /** Some block in use begins with what block `ptr` held. */
  ghost predicate Survives(m: seq<Word>, B: Blocks, ptr: nat, m': seq<Word>, B': Blocks) {
    ptr in B && exists p {:trigger B'[p]} ::
      p in B' && Occupied(B'[p].status) && B[ptr].size <= B'[p].size && Payload(m, m', ptr, p, B[ptr].size)
  }

  lemma SurvivesAt(m: seq<Word>, B: Blocks, ptr: nat, m': seq<Word>, B': Blocks, p: nat)
    requires ptr in B && p in B' && Occupied(B'[p].status) && B[ptr].size <= B'[p].size &&
      Payload(m, m', ptr, p, B[ptr].size)
    ensures Survives(m, B, ptr, m', B')
  {
  }

  /** Block `ptr` and the free blocks right before and after it reach from `lo` to `hi`. */
  ghost predicate RunAt(B: Blocks, ptr: nat, lo: nat, hi: nat) {
    ptr in B && FreeRun(WithStatus(B, ptr, Loose), ptr, lo, hi)
  }

  ghost predicate InRun(B: Blocks, ptr: nat, lo: nat, hi: nat) {
    forall b {:trigger B[b]} :: b in B && lo <= b < hi ==> b == ptr || B[b].status == Free
  }

  lemma RunSides(m: seq<Word>, E: nat, B: Blocks, ptr: nat, lo: nat, hi: nat)
    requires Layout(m, E, B) && ptr in B && Occupied(B[ptr].status) && RunAt(B, ptr, lo, hi)
    ensures var n := Next(B, ptr);
      FIRST <= lo <= ptr < n <= hi &&
      (hi != n ==> n in B && B[n].status == Free && hi == Next(B, n)) &&
      (lo != ptr ==> lo in B && B[lo].status == Free && Next(B, lo) == ptr) &&
      Stretch(B, E, lo, hi) && Stretch(B, E, ptr, hi) && Stretch(B, E, lo, n) &&
      InRun(B, ptr, lo, hi) && InRun(B, ptr, ptr, hi) && InRun(B, ptr, lo, n)
    ensures lo != ptr ==> lo + 4 <= ptr
  {
    var B1, n := WithStatus(B, ptr, Loose), Next(B, ptr);
    StatusTiling(B, E, ptr, Loose);
    RunIsStretch(B1, E, ptr, lo, hi);
    HeaderOf(m, E, B, ptr);
    HeaderOf(m, E, B, lo);
    EndsAt(m, E, B, ptr);
    if n in B { HeaderOf(m, E, B, n); }
    assert Next(B1, ptr) == n;
    if lo != ptr { assert Next(B1, lo) == Next(B, lo); }
    forall b | b in B && lo <= b < hi ensures b == ptr || B[b].status == Free {
      assert B1[b] == if b == ptr then B1[ptr] else B[b];
    }
  }

  /** Merging free blocks into a live one keeps what holds between calls. */
  lemma Grown(m: seq<Word>, E: nat, B: Blocks, ptr: nat, lo: nat, hi: nat)
    requires Layout(m, E, B) && Separated(B) && Settled(B) && ptr in B && Stretch(B, E, lo, hi) && lo <= ptr < hi &&
      InRun(B, ptr, lo, hi)
    ensures var (L, M) := (Join(B, lo, hi, Live), Join(B, lo, hi, Limbo));
      lo in L && L[lo] == Block((hi - lo) / 2, Live) && Next(L, lo) == hi && Settled(L) && Separated(L) &&
        NoneNew(B, L, lo) &&
      lo in M && M[lo] == Block((hi - lo) / 2, Limbo) && Next(M, lo) == hi && WithStatus(M, lo, Live) == L &&
        WithStatus(L, lo, Live) == L
  {
    hide Tiling, Separated;
    JoinTiling(B, E, lo, hi, Live);
    JoinTiling(B, E, lo, hi, Limbo);
    JoinLive(B, E, lo, hi);
  }

  lemma JoinLive(B: Blocks, E: nat, lo: nat, hi: nat)
    requires Tiling(B, E) && Separated(B) && Stretch(B, E, lo, hi)
    ensures Separated(Join(B, lo, hi, Live))
  {
    hide Tiling;
    JoinTiling(B, E, lo, hi, Live);
    var B' := Join(B, lo, hi, Live);
    forall a | a in B' && Next(B', a) in B' ensures Fine(B'[a].status, B'[Next(B', a)].status) {
      if a != lo {
        var n := Next(B, a);
        assert Next(B', a) == n && Fine(B[a].status, B[n].status);
      }
    }
  }

  lemma JoinTwice(B: Blocks, lo: nat, ptr: nat, hi: nat, s: Status, u: Status)
    requires lo < ptr < hi && lo in B
    ensures Join(Join(B, ptr, hi, s), lo, hi, u) == Join(B, lo, hi, u)
    ensures lo in Join(B, ptr, hi, s) && Join(B, ptr, hi, s)[lo] == B[lo] &&
      Next(Join(B, ptr, hi, s), lo) == Next(B, lo)
  {
  }

  lemma PrevThenNext(B: Blocks, lo: nat, ptr: nat, n: nat, hi: nat)
    requires lo <= ptr < n < hi && n in B && ptr in B && B[ptr].status == Live && Next(B, ptr) == n
    ensures var B1 := if lo == ptr then B else Join(B, lo, n, Limbo);
      n in B1 && B1[n] == B[n] && Next(B1, n) == Next(B, n) && forall s :: Join(B1, lo, hi, s) == Join(B, lo, hi, s)
  {
  }

  lemma JoinSelf(m: seq<Word>, E: nat, B: Blocks, p: nat)
    requires Layout(m, E, B) && p in B && B[p].status == Live
    ensures Join(B, p, Next(B, p), Live) == B
  {
    HeaderOf(m, E, B, p);
    var B' := Join(B, p, Next(B, p), Live);
    forall b | b in B ensures b in B' && B'[b] == B[b] {
      assert B[b].size >= 1 && B[p].size >= 1;
    }
  }

  lemma KeptSelf(m: seq<Word>, E: nat, B: Blocks, p: nat)
    requires Layout(m, E, B) && p in B
    ensures Kept(m, m, B, B, p) && Payload(m, m, p, p, B[p].size)
  {
    HeaderOf(m, E, B, p);
    forall b | b in B ensures SameBody(m, m, b, B[b].size) { assert B[b].size >= 1 && b + 2 * B[b].size <= E; }
  }

  lemma PayloadChain(m0: seq<Word>, m1: seq<Word>, m2: seq<Word>, a: nat, b: nat, c: nat, d: nat, e: nat)
    requires Payload(m0, m1, a, b, d) && Payload(m1, m2, b, c, e) && d <= e
    ensures Payload(m0, m2, a, c, d)
  {
    assert m1[b..b + 2 * d - 1] == m1[b..b + 2 * e - 1][..2 * d - 1];
    assert m2[c..c + 2 * d - 1] == m2[c..c + 2 * e - 1][..2 * d - 1];
  }

  lemma SameBlocks(B: Blocks, p: nat)
    requires p in B && B[p].status == Live
    ensures WithStatus(B, p, Live) == B && NoneNew(B, B, p)
  {
  }

  lemma LiveOnly(B: Blocks, p: nat)
    requires Settled(B)
    ensures NoLoose(B) && forall b {:trigger B[b]} :: b in B && B[b].status == Limbo ==> b == p
  {
  }

  /** A block merged with all free neighbours stands between live ones. */
  lemma Gathered(m: seq<Word>, E: nat, B: Blocks, ptr: nat, lo: nat, hi: nat)
    requires Layout(m, E, B) && Separated(B) && Settled(B) && ptr in B && B[ptr].status == Live && RunAt(B, ptr, lo, hi)
    ensures lo < hi && (lo == ptr || Unused(B, lo))
    ensures var B1 := Join(B, lo, hi, if lo == ptr then Live else Limbo);
      lo in B1 && Occupied(B1[lo].status) && B1[lo].size == (hi - lo) / 2 && Next(B1, lo) == hi && Separated(B1) &&
        NoLoose(B1) && NoneNew(B, B1, lo) &&
      Settled(WithStatus(B1, lo, Live)) && Separated(WithStatus(B1, lo, Live)) &&
      forall b {:trigger B1[b]} :: b in B1 && b != lo ==> B1[b].status == Live || B1[b].status == Free
  {
    hide Layout, Separated, RunAt, InRun;
    RunSides(m, E, B, ptr, lo, hi);
    Grown(m, E, B, ptr, lo, hi);
    LimboSeparated(m, E, B, ptr, lo, hi);
  }

  lemma LimboSeparated(m: seq<Word>, E: nat, B: Blocks, ptr: nat, lo: nat, hi: nat)
    requires Layout(m, E, B) && Separated(B) && Settled(B) && ptr in B && B[ptr].status == Live &&
      RunAt(B, ptr, lo, hi) && lo < hi
    ensures Separated(Join(B, lo, hi, Limbo))
  {
    hide Layout, Separated, FreeRun, Tiling, Join, Isolated, OneLoose, NoLoose, Settled, Stretch;
    var L := WithStatus(B, ptr, Loose);
    LayoutTiling(m, E, B);
    StatusTiling(B, E, ptr, Loose);
    LiveOnly(B, ptr);
    FreedSeparated(B, ptr);
    RunIsStretch(L, E, ptr, lo, hi);
    if hi in L { RunAfter(L, E, ptr, lo, hi); }
    forall a | a in L && Next(L, a) == lo ensures L[a].status == Live { RunBefore(L, E, ptr, lo, hi, a); }
    JoinSeparated(L, E, lo, hi, Limbo);
    JoinLoosened(B, lo, hi, ptr, Limbo);
  }

  lemma Swallowed(B: Blocks, ptr: nat, lo: nat, hi: nat, s: Status)
    requires lo < ptr < hi
    ensures Unused(Join(B, lo, hi, s), ptr)
  {
  }

  lemma UnusedBack(m0: seq<Word>, m1: seq<Word>, B0: Blocks, B1: Blocks, x: nat, r: nat)
    requires Kept(m0, m1, B0, B1, x) && Unused(B1, r) && r != x
    ensures Unused(B0, r)
  {
  }

  lemma NotBack(B: Blocks, B': Blocks, r: nat, p: nat)
    requires NoneNew(B, B', r) && Unused(B, p) && p != r
    ensures Unused(B', p)
  {
  }

  lemma NoneNewJoin(B0: Blocks, B1: Blocks, B2: Blocks, lo: nat)
    requires NoneNew(B0, B1, lo) && NoneNew(B1, B2, lo)
    ensures NoneNew(B0, B2, lo)
  {
  }

  lemma NoneNewGone(B0: Blocks, B1: Blocks, B2: Blocks, lo: nat, r: nat)
    requires NoneNew(B0, B1, lo) && NoneNew(B1, B2, r) && Unused(B2, lo)
    ensures NoneNew(B0, B2, r)
  {
  }

  lemma SettledFacts(B: Blocks, E: nat)
    requires Settled(B)
    ensures NoLoose(B) && forall a {:trigger Next(B, a)} :: a in B && Next(B, a) == E ==> B[a].status != Limbo
  {
  }

  lemma ExtendedRun(m: seq<Word>, E: nat, B0: Blocks, B1: Blocks, B2: Blocks, p: nat, bp: nat)
    requires Layout(m, E, B2) && Separated(B2) && OneLoose(B2, bp) && NoneNew(B1, B2, 0) && Settled(B1)
    requires p in B0 && B1 == WithStatus(B0, p, Live) && p in B2 && B2[p] == B1[p] && Next(B2, p) == bp && bp in B2 &&
      Next(B2, bp) == E
    ensures var B3 := Join(B2, p, E, Live);
      Settled(B3) && Separated(B3) && NoneNew(B0, B3, p) && p in B3 && B3[p] == Block((E - p) / 2, Live)
  {
    hide Tiling, Separated;
    PairStretch(m, E, B2, p, bp, E);
    JoinLive(B2, E, p, E);
    PlaceIsBlock(m, E, B2, p);
  }

  lemma Disjoint(m: seq<Word>, E: nat, B: Blocks, a: nat, b: nat)
    requires Layout(m, E, B) && a in B && b in B && a != b
    ensures Next(B, a) <= b || Next(B, b) <= a
  {
    assert B[a].size >= 1 && B[b].size >= 1;
  }

  /** Where two blocks lie. */
  lemma TwoBlocks(m: seq<Word>, E: nat, B: Blocks, a: nat, b: nat)
    requires Layout(m, E, B) && a in B && b in B && a != b
    ensures B[a].size >= 1 && B[b].size >= 1 && a + 2 * B[a].size <= |m| && b + 2 * B[b].size <= |m|
    ensures a + 2 * B[a].size <= b || b + 2 * B[b].size <= a
  {
    hide Layout;
    HeaderOf(m, E, B, a);
    HeaderOf(m, E, B, b);
    Disjoint(m, E, B, a, b);
  }

  /** Writing inside the payload of a live block disturbs nothing else. */
  lemma Written(m: seq<Word>, m': seq<Word>, E: nat, B: Blocks, r: nat, root: nat, t: Tree<nat>, l: seq<nat>)
    requires Layout(m, E, B) && Index(m, B, root, t, l) && r in B && Occupied(B[r].status) && |m'| == |m|
    requires forall i :: 0 <= i < |m| && (i < r || r + 2 * B[r].size - 1 <= i) ==> m'[i] == m[i]
    ensures Layout(m', E, B) && Index(m', B, root, t, l) && Kept(m, m', B, B, r)
  {
    hide HeapTree.InTree, FreeList.Ring, Index;
    HeaderOf(m, E, B, r);
    EndsAt(m, E, B, r);
    var hi := Next(B, r);
    assert BlockOk(m, B, r);
    assert BlockOk(m', B, r);
    forall b | b in B && r <= b < hi ensures b == r { assert B[b].size >= 1 && B[r].size >= 1; }
    assert Sound(m', E, B, B, r, hi, r);
    Restructure(m, m', E, B, B, r, hi, r, root, t, l);
  }

  lemma Copied(m1: seq<Word>, m2: seq<Word>, E: nat, B: Blocks, p: nat, r: nat, size: nat, root: nat, t: Tree<nat>,
      l: seq<nat>)
    requires Layout(m1, E, B) && Index(m1, B, root, t, l) && r in B && Occupied(B[r].status) &&
      1 <= size <= B[r].size && p + 2 * size <= |m1|
    requires r + 2 * size <= |m1| && m2 == m1[..r] + m1[p..p + 2 * size - 1] + m1[r + 2 * size - 1..]
    ensures Layout(m2, E, B) && Index(m2, B, root, t, l) && Kept(m1, m2, B, B, r) && Payload(m1, m2, p, r, size)
  {
    hide Layout, Index, Kept;
    CopiedWords(m1, m2, p, r, size);
    HeaderOf(m1, E, B, r);
    Written(m1, m2, E, B, r, root, t, l);
  }

  lemma CopiedWords(m1: seq<Word>, m2: seq<Word>, p: nat, r: nat, size: nat)
    requires 1 <= size && p + 2 * size <= |m1| && r + 2 * size <= |m1| &&
      m2 == m1[..r] + m1[p..p + 2 * size - 1] + m1[r + 2 * size - 1..]
    ensures Payload(m1, m2, p, r, size) && |m2| == |m1|
    ensures forall i :: 0 <= i < |m1| && (i < r || r + 2 * size - 1 <= i) ==> m2[i] == m1[i]
  {
  }

  /** Like Kept, for two exceptions. */
  ghost predicate Kept2(m: seq<Word>, m': seq<Word>, B: Blocks, B': Blocks, x: nat, y: nat) {
    forall b {:trigger B[b]} ::
      b in B && b != x && b != y && Occupied(B[b].status) ==> b in B' && B'[b] == B[b] && SameBody(m, m', b, B[b].size)
  }

  lemma KeptBoth(m1: seq<Word>, m2: seq<Word>, m3: seq<Word>, B: Blocks, B': Blocks, x: nat, y: nat)
    requires Kept(m1, m2, B, B, y) && Kept(m2, m3, B, B', x)
    ensures Kept2(m1, m3, B, B', x, y)
  {
    forall b | b in B && b != x && b != y && Occupied(B[b].status) ensures b in B' && B'[b] == B[b] &&
      SameBody(m1, m3, b, B[b].size) {
      assert SameBody(m1, m2, b, B[b].size) && SameBody(m2, m3, b, B[b].size);
    }
  }

  lemma KeptAcross(m0: seq<Word>, m1: seq<Word>, m2: seq<Word>, B0: Blocks, B1: Blocks, B2: Blocks, x: nat, r: nat)
    requires Kept(m0, m1, B0, B1, x) && Kept2(m1, m2, B1, B2, x, r) && Unused(B0, r)
    ensures Kept(m0, m2, B0, B2, x)
  {
    forall b | b in B0 && b != x && Occupied(B0[b].status) ensures b in B2 && B2[b] == B0[b] &&
      SameBody(m0, m2, b, B0[b].size) {
      assert b in B1 && B1[b] == B0[b] && SameBody(m0, m1, b, B0[b].size);
      assert SameBody(m1, m2, b, B0[b].size);
    }
  }

  lemma OnlyLimbo(B0: Blocks, B1: Blocks, p: nat, r: nat)
    requires NoneNew(B0, B1, r) && r in B1 && B1[r].status == Live
    requires forall b {:trigger B0[b]} :: b in B0 && b != p ==> B0[b].status == Live || B0[b].status == Free
    ensures forall b {:trigger B1[b]} :: b in B1 && B1[b].status == Limbo ==> b == p
  {
  }

  lemma BodyKeptX(m: seq<Word>, m': seq<Word>, B: Blocks, B': Blocks, x: nat, r: nat)
    requires Kept(m, m', B, B', x) && r in B && r != x && Occupied(B[r].status)
    ensures Payload(m, m', r, r, B[r].size) && r in B' && B'[r] == B[r]
  {
    assert SameBody(m, m', r, B[r].size);
  }

  lemma ReleasedAt(m: seq<Word>, B: Blocks, E: nat, p: nat, lo: nat, hi: nat, B': Blocks)
    requires Layout(m, E, B) && p in B && lo < hi && FreeRun(WithStatus(B, p, Loose), p, lo, hi) &&
      B' == Join(B, lo, hi, Free)
    ensures Unused(B', p)
  {
    StatusTiling(B, E, p, Loose);
    RunIsStretch(WithStatus(B, p, Loose), E, p, lo, hi);
  }

  lemma NoneNewBack(B0: Blocks, B1: Blocks, B2: Blocks, r: nat)
    requires NoneNew(B0, B1, r) && NoneNew(B1, B2, 0) && 0 !in B2
    ensures NoneNew(B0, B2, r)
  {
  }

  lemma EmptyHeap(m: seq<Word>, E: nat)
    requires E == FIRST && |m| >= 6 && m[1] == OfValue(0) && m[2] == OfValue(0)
    requires m[3] == Pack(1, true) && m[4] == Pack(1, true) && m[5] == Word(0, false, true, true)
    ensures Inv(m, E, map[], NIL, Leaf, []) && NoLoose(map[])
  {
    hide FreeList.Ring, HeapTree.InTree;
    var B: Blocks := map[];
    assert Layout(m, E, B);
    EmptyIndex(m, B);
  }

  lemma EmptyIndex(m: seq<Word>, B: Blocks)
    requires |m| >= 6 && m[1] == OfValue(0) && m[2] == OfValue(0) && B == map[]
    ensures Index(m, B, NIL, Leaf, [])
  {
    hide HeapTree.InTree, OfValue;
    assert TreeSet(B) == {};
    assert FreeList.Edge(m, [], 0);
    EmptyTree(m);
  }

  lemma EmptyTree(m: seq<Word>)
    ensures HeapTree.InTree(m, NIL, {}, Leaf)
  {
  }

  lemma FirstChunk(m: seq<Word>, E: nat, B: Blocks, p: nat)
    requires Layout(m, E, B) && p == FIRST && p in B && Next(B, p) == E && B[p].status == Loose
    ensures B == map[FIRST := Block((E - FIRST) / 2, Loose)] && m[3].hi == 1
  {
    forall b | b in B ensures b == p {
      assert B[b].size >= 1 && B[p].size >= 1;
    }
    assert B.Keys == {p};
  }

  /** SET_SIZE on the header and the footer of a block that grows, and SET_TAG on the next. */
  function AbsorbedMem(m: seq<Word>, head: Word, lo: nat, hi: nat, size: nat): seq<Word>
    requires 1 <= lo && lo + 2 <= hi <= |m|
  {
    m[lo - 1 := head.(hi := size)][hi - 2 := m[hi - 2].(hi := size)][hi - 1 := m[hi - 1].(b1 := true)]
  }

  /** A stretch of loose blocks around one block in use becomes that block. */
  lemma Absorbed(m: seq<Word>, m': seq<Word>, E: nat, B: Blocks, lo: nat, hi: nat, s: Status, x: nat, root: nat,
      t: Tree<nat>, l: seq<nat>)
    requires Layout(m, E, B) && Index(m, B, root, t, l) && Stretch(B, E, lo, hi) && Occupied(s)
    requires forall b {:trigger B[b]} ::
      b in B && lo <= b < hi ==> B[b].status != Free && (Occupied(B[b].status) ==> b == x)
    requires Rewritten(m, m', lo, hi) && lo + 4 <= hi && m'[lo - 1].hi == (hi - lo) / 2 &&
      (s == Live ==> m'[lo - 1].b0) && m'[hi - 1].b1
    ensures Layout(m', E, Join(B, lo, hi, s)) && Index(m', Join(B, lo, hi, s), root, t, l) &&
      Kept(m, m', B, Join(B, lo, hi, s), x)
  {
    hide HeapTree.InTree, FreeList.Ring, Index, Layout, Sound, Kept, Tiling;
    var B' := Join(B, lo, hi, s);
    HeaderOf(m, E, B, lo);
    LayoutTiling(m, E, B);
    JoinTiling(B, E, lo, hi, s);
    assert BlockOk(m', B', lo);
    JoinSound(m, m', E, B, lo, hi, s, x);
    Restructure(m, m', E, B, B', lo, hi, x, root, t, l);
  }

  /** Two blocks side by side. */
  lemma PairStretch(m: seq<Word>, E: nat, B: Blocks, a: nat, b: nat, hi: nat)
    requires Layout(m, E, B) && a in B && b in B && Next(B, a) == b && Next(B, b) == hi
    ensures Stretch(B, E, a, hi) && a < b < hi && (hi - a) % 2 == 0
    ensures forall c {:trigger B[c]} :: c in B && a <= c < hi ==> c == a || c == b
  {
    assert B[a].size >= 1 && B[b].size >= 1;
    forall c | c in B && a <= c < hi ensures c == a || c == b { assert B[c].size >= 1; }
  }

  lemma JoinLoosened(B: Blocks, lo: nat, hi: nat, n: nat, s: Status)
    requires n in B && lo <= n < hi
    ensures Join(WithStatus(B, n, Loose), lo, hi, s) == Join(B, lo, hi, s)
  {
  }

  lemma KeptWeaken(m: seq<Word>, m': seq<Word>, B: Blocks, B': Blocks, x: nat)
    requires Kept(m, m', B, B', 0) && 0 !in B
    ensures Kept(m, m', B, B', x)
  {
  }

  lemma BodyKept(m: seq<Word>, m': seq<Word>, B: Blocks, B': Blocks, p: nat)
    requires Kept(m, m', B, B', 0) && p in B && p != 0 && Occupied(B[p].status)
    ensures Payload(m, m', p, p, B[p].size) && p in B' && B'[p] == B[p]
  {
    assert SameBody(m, m', p, B[p].size);
  }

  /** The words memmove leaves behind. */
  lemma MovedWords(m1: seq<Word>, m2: seq<Word>, p: nat, ptr: nat, d: nat, hi: nat)
    requires 1 <= p && p + 4 <= ptr && d >= 1 && hi == ptr + 2 * d && hi <= |m1|
    requires m2 == m1[..p] + m1[ptr..ptr + 2 * d - 1] + m1[p + 2 * d - 1..]
    ensures |m2| == |m1| && Payload(m1, m2, ptr, p, d)
    ensures forall i :: 0 <= i < |m1| && (i < p || hi - 5 <= i) ==> m2[i] == m1[i]
  {
  }

  lemma PrevAbsorbed(m1: seq<Word>, m2: seq<Word>, m3: seq<Word>, p: nat, ptr: nat, d: nat, hi: nat, size: nat)
    requires 1 <= p && p + 4 <= ptr && d >= 2 && hi == ptr + 2 * d && hi <= |m1| == |m2| && 2 * size == hi - p
    requires Payload(m1, m2, ptr, p, d) && forall i :: 0 <= i < |m1| && (i < p || hi - 5 <= i) ==> m2[i] == m1[i]
    requires m3 == m2[p - 1 := m2[p - 1].(hi := size)][hi - 2 := m2[hi - 2].(hi := size)]
    ensures Rewritten(m1, m3, p, hi) && m3[p - 1].hi == size && m3[hi - 1] == m1[hi - 1] && Payload(m1, m3, ptr, p, d)
  {
    assert m3[p..p + 2 * d - 1] == m2[p..p + 2 * d - 1];
  }

  function Max(a: nat, b: nat): nat { if a > b then a else b }

  /** No free block holds `asize` double words. */
  ghost predicate NoFit(B: Blocks, asize: nat) {
    forall b {:trigger B[b]} :: b in B && B[b].status == Free ==> B[b].size < asize
  }

  /** `bp` is as small as a big enough free block can be. */
  ghost predicate BestFit(B: Blocks, bp: nat, asize: nat)
    requires bp in B
  {
    forall b {:trigger B[b]} :: b in B && B[b].status == Free && asize <= B[b].size ==> B[bp].size <= B[b].size
  }

  /** `B'` is `B` with block `r` of `asize` double words placed in free block `bp`: all of it, its front or its back. */
  ghost predicate PlacedFrom(B: Blocks, bp: nat, asize: nat, B': Blocks, r: nat) {
    bp in B && asize >= 1 &&
    var d := B[bp].size;
    if d < asize + 2 then r == bp && B' == WithStatus(B, bp, Live)
    else if asize < 12 || d - asize < 6 then r == bp && B' == Split(B, bp, asize, Live, Free)
    else r == bp + 2 * (d - asize) && B' == Split(B, bp, d - asize, Free, Live)
  }

  /** Block `r` comes out of a free block that is as small as a big enough free block can be. */
  ghost predicate BestPlaced(B: Blocks, B': Blocks, asize: nat, r: nat) {
    exists bp {:trigger PlacedFrom(B, bp, asize, B', r)} ::
      PlacedFrom(B, bp, asize, B', r) && B[bp].status == Free && asize <= B[bp].size && BestFit(B, bp, asize)
  }

  /** What mm_malloc does to the block map: it takes a best fit, or extends the heap from `E` to `E'` when there is none
      and takes the block at its end. */
  ghost predicate Allocated(B: Blocks, E: nat, asize: nat, B': Blocks, E': nat, r: nat) {
    if E' == E then BestPlaced(B, B', asize, r)
    else E < E' && NoFit(B, asize) && PlacedFrom(WithMore(B, E, E'), EndStart(B, E), asize, B', r)
  }

  /** mm_realloc's way out: a block elsewhere, and block `lo`, whose contents it takes over, is freed. */
  ghost predicate MovedAway(B: Blocks, E: nat, lo: nat, asize: nat, B': Blocks, E': nat, r: nat) {
    (E' != E ==> E' == E + 2 * Max(asize, 512)) &&
    exists B1 {:trigger Allocated(B, E, asize, B1, E', r)} ::
      Allocated(B, E, asize, B1, E', r) && lo in B1 && EndStart(B1, lo) < Back(B1, lo) &&
      B' == Join(B1, EndStart(B1, lo), Back(B1, lo), Free)
  }

  lemma MovedBy(B: Blocks, E: nat, lo: nat, asize: nat, B1: Blocks, B': Blocks, E': nat, r: nat)
    requires E' != E ==> E' == E + 2 * Max(asize, 512)
    requires Allocated(B, E, asize, B1, E', r) && lo in B1 && EndStart(B1, lo) < Back(B1, lo) &&
      B' == Join(B1, EndStart(B1, lo), Back(B1, lo), Free)
    ensures MovedAway(B, E, lo, asize, B', E', r)
  {
  }

  /** What mm_realloc of block `ptr` answers when `asize` double words are needed: it stays, grows over the free block
      behind it, else slides down over the one before it, else takes both; else, at the end of the heap, it grows by
      just what is missing, and anywhere else it moves away. */
  ghost predicate Answer(B: Blocks, E: nat, ptr: nat, asize: nat, limit: nat, B': Blocks, E': nat, r: nat)
    requires ptr in B
  {
    var (lo, n, hi) := (EndStart(B, ptr), Next(B, ptr), Back(B, ptr));
    lo <= ptr < n <= hi &&
    if B[ptr].size >= asize then r == ptr && B' == B && E' == E
    else if hi - ptr >= 2 * asize then r == ptr && B' == Join(B, ptr, hi, Live) && E' == E
    else if n - lo >= 2 * asize then r == lo && B' == Join(B, lo, n, Live) && E' == E
    else if hi - lo >= 2 * asize then r == lo && B' == Join(B, lo, hi, Live) && E' == E
    else if hi == E && lo + 2 * asize > limit then r == 0 && B' == Join(B, lo, hi, Live) && E' == E
    else if hi == E then r == lo && B' == Join(B, lo, hi, Live)[lo := Block(asize, Live)] && E' == lo + 2 * asize
    else
      var J := Join(B, lo, hi, if lo == ptr then Live else Limbo);
      if NoFit(B, asize) && E + 2 * Max(asize, 512) > limit then r == 0 && B' == J && E' == E
      else r != 0 && MovedAway(J, E, lo, asize, B', E', r)
  }

  lemma RunReady(B: Blocks, E: nat, ptr: nat, lo: nat, hi: nat)
    requires Tiling(B, E) && RunAt(B, ptr, lo, hi) && B[ptr].status != Free
    ensures lo == EndStart(B, ptr) && hi == Back(B, ptr)
  {
    RunEnds(B, E, ptr, lo, hi);
  }

  /** The last block, in use, has taken over the memory behind it. */
  lemma GrewLast(E: nat, B0: Blocks, B1: Blocks, B2: Blocks, p: nat, asize: nat)
    requires Tiling(B1, E) && p in B0 && B1 == WithStatus(B0, p, Live) && Next(B0, p) == E && B0[p].size < asize
    requires var (d, E') := (asize - B0[p].size, p + 2 * asize);
      B2 == Join(Append(B1, E, d, Loose), EndStart(B1, E), E', Loose) && EndStart(B1, E) < E'
    ensures p < p + 2 * asize && Join(B2, p, p + 2 * asize, Live) == B0[p := Block(asize, Live)]
  {
    hide Tiling;
    NoneEndsAt(B1, E, p);
    TileAt(B1, E, p);
    var d, E' := asize - B0[p].size, p + 2 * asize;
    forall b | b in B0 ensures b <= p || b >= E' {
      TileAt(B1, E, b);
      if p < b { TileBefore(B1, E, p, b); }
    }
  }

  lemma NoneEndsAt(B: Blocks, E: nat, p: nat)
    requires Tiling(B, E) && p in B && Next(B, p) == E && B[p].status == Live
    ensures EndStart(B, E) == E
  {
    hide Tiling;
    forall a | a in B && Next(B, a) == E ensures a == p {
      TileAt(B, E, a); TileAt(B, E, p);
      if a < p { TileBefore(B, E, a, p); }
      if p < a { TileBefore(B, E, p, a); }
    }
    EndUnique(B, E, E, E);
  }

  /** When mm_realloc of block `ptr` has to return null. */
  ghost predicate Refused(B: Blocks, E: nat, ptr: nat, asize: nat, limit: nat)
    requires ptr in B
  {
    var (lo, hi) := (EndStart(B, ptr), Back(B, ptr));
    hi - lo < 2 * asize &&
      if hi == E then lo + 2 * asize > limit else NoFit(B, asize) && E + 2 * Max(asize, 512) > limit
  }

  lemma AnswerNull(B: Blocks, E: nat, ptr: nat, asize: nat, limit: nat, B': Blocks, E': nat, r: nat)
    requires Tiling(B, E) && ptr in B && B[ptr].status == Live && Answer(B, E, ptr, asize, limit, B', E', r)
    ensures r == 0 <==> Refused(B, E, ptr, asize, limit)
  {
    hide Tiling, Join, NoFit, MovedAway;
    TileAt(B, E, ptr);
    var lo := EndStart(B, ptr);
    if lo in B { TileAt(B, E, lo); }
  }

  lemma AnswerAtEnd(B: Blocks, E: nat, ptr: nat, asize: nat, limit: nat, lo: nat, hi: nat, B': Blocks, E': nat, r: nat)
    requires Tiling(B, E) && RunAt(B, ptr, lo, hi) && B[ptr].status == Live && hi == E && hi - lo < 2 * asize && lo < hi
    requires lo <= ptr < Next(B, ptr) <= hi && lo in B
    requires var J := Join(B, lo, hi, if lo == ptr then Live else Limbo);
      if lo + 2 * asize > limit then r == 0 && E' == E && B' == WithStatus(J, lo, Live)
      else r == lo != 0 && E' == lo + 2 * asize && B' == J[lo := Block(asize, Live)]
    ensures Answer(B, E, ptr, asize, limit, B', E', r)
  {
    hide Tiling, RunAt;
    RunReady(B, E, ptr, lo, hi);
    JoinStatus(B, lo, hi, if lo == ptr then Live else Limbo, Live);
  }

  lemma AnswerMoved(B: Blocks, E: nat, ptr: nat, asize: nat, limit: nat, lo: nat, hi: nat, B': Blocks, E': nat, r: nat)
    requires Tiling(B, E) && RunAt(B, ptr, lo, hi) && B[ptr].status == Live && hi != E && hi - lo < 2 * asize && lo < hi
    requires lo <= ptr < Next(B, ptr) <= hi && Stretch(B, E, lo, hi)
    requires var J := Join(B, lo, hi, if lo == ptr then Live else Limbo);
      if NoFit(J, asize) && E + 2 * Max(asize, 512) > limit then r == 0 && E' == E && B' == J
      else r != 0 && MovedAway(J, E, lo, asize, B', E', r)
    ensures Answer(B, E, ptr, asize, limit, B', E', r)
  {
    hide Tiling, RunAt, NoFit, MovedAway, Join;
    RunReady(B, E, ptr, lo, hi);
    NoFitJoined(B, E, lo, hi, ptr, if lo == ptr then Live else Limbo, asize);
  }

  lemma JoinStatus(B: Blocks, lo: nat, hi: nat, s: Status, u: Status)
    requires lo < hi && lo in B
    ensures lo in Join(B, lo, hi, s) && WithStatus(Join(B, lo, hi, s), lo, u) == Join(B, lo, hi, u)
  {
  }

  /** Blocks too small to serve stay too small when they are joined. */
  lemma NoFitJoined(B: Blocks, E: nat, lo: nat, hi: nat, ptr: nat, s: Status, asize: nat)
    requires Tiling(B, E) && Stretch(B, E, lo, hi) && s != Free && hi - lo < 2 * asize
    ensures NoFit(Join(B, lo, hi, s), asize) <==> NoFit(B, asize)
  {
    hide Tiling;
    var J := Join(B, lo, hi, s);
    forall b | b in B && lo <= b < hi ensures B[b].size < asize {
      TileAt(B, E, b);
      if hi != E || b < E { TileBefore(B, E, b, hi); }
    }
    if NoFit(J, asize) {
      forall b | b in B && B[b].status == Free ensures B[b].size < asize {
        if b < lo || hi <= b { assert J[b] == B[b]; }
      }
    }
    if NoFit(B, asize) {
      forall b | b in J && J[b].status == Free ensures J[b].size < asize { assert B[b] == J[b]; }
    }
  }

  lemma PlacedGrown(B: Blocks, E: nat, E': nat, asize: nat, B1: Blocks, B': Blocks, r: nat)
    requires E < E' && asize >= 1 && EndStart(B, E) <= E
    requires var p := EndStart(B, E);
      B1 == Join(Append(B, E, (E' - E) / 2, Loose), p, E', Loose) && p in B1 && 1 <= asize <= B1[p].size
    requires var (p, d) := (EndStart(B, E), B1[EndStart(B, E)].size);
      if d < asize + 2 then r == p && B' == WithStatus(B1, p, Live)
      else if asize < 12 || d - asize < 6 then r == p && B' == Split(B1, p, asize, Live, Free)
      else r == p + 2 * (d - asize) && B' == Split(B1, p, d - asize, Free, Live)
    ensures PlacedFrom(WithMore(B, E, E'), EndStart(B, E), asize, B', r)
  {
    var p := EndStart(B, E);
    assert WithMore(B, E, E') == WithStatus(B1, p, Free);
  }

  /** What the last header and tag say of the end of the heap. */
  lemma LastBits(m: seq<Word>, E: nat, B: Blocks)
    requires Layout(m, E, B) && NoLoose(B) &&
      forall a {:trigger Next(B, a)} :: a in B && Next(B, a) == E ==> B[a].status != Limbo
    ensures 2 <= E <= |m| && EndStart(B, E) <= E &&
      E - EndStart(B, E) == 2 * if m[E - 1].b1 then 0 else m[E - 2].hi
  {
    hide EndAt;
    if m[E - 1].b1 {
      forall a | a in B && Next(B, a) == E ensures B[a].status != Free { HeaderOf(m, E, B, a); }
      NoneEnds(B, E);
      EndUnique(B, E, E, E);
    } else {
      var a := TagPrev(m, E, B, E);
      OneEnds(B, E, a);
      EndUnique(B, E, E, a);
    }
  }

  lemma NoneEnds(B: Blocks, e: nat)
    requires forall a {:trigger Next(B, a)} :: a in B && Next(B, a) == e ==> B[a].status != Free
    ensures EndAt(B, e, e)
  {
  }

  lemma OneEnds(B: Blocks, e: nat, p: nat)
    requires p in B && p < e && Next(B, p) == e && B[p].status == Free
    ensures EndAt(B, e, p)
  {
  }

  lemma PlacedBest(B: Blocks, bp: nat, asize: nat, B': Blocks, r: nat)
    requires bp in B && B[bp].status == Free && 1 <= asize <= B[bp].size && BestFit(B, bp, asize)
    requires var (L, d) := (WithStatus(B, bp, Loose), B[bp].size);
      if d < asize + 2 then r == bp && B' == WithStatus(L, bp, Live)
      else if asize < 12 || d - asize < 6 then r == bp && B' == Split(L, bp, asize, Live, Free)
      else r == bp + 2 * (d - asize) && B' == Split(L, bp, d - asize, Free, Live)
    ensures BestPlaced(B, B', asize, r)
  {
    hide BestFit;
    assert PlacedFrom(B, bp, asize, B', r);
  }

  lemma KeptSame(m: seq<Word>, E: nat, B: Blocks)
    requires Layout(m, E, B)
    ensures Kept(m, m, B, B, 0)
  {
    forall b | b in B ensures SameBody(m, m, b, B[b].size) { assert B[b].size >= 1 && b + 2 * B[b].size <= E; }
  }

  lemma FreeSizes(m: seq<Word>, E: nat, B: Blocks)
    requires Layout(m, E, B)
    ensures forall b {:trigger B[b]} :: b in B && B[b].status == Free ==> B[b].size >= 2
  {
  }

  /** A free block taken out of the index stands alone. */
  lemma Loosened(m: seq<Word>, E: nat, B: Blocks, b: nat)
    requires Layout(m, E, B) && Separated(B) && NoLoose(B) && b in B && B[b].status == Free
    ensures var B' := WithStatus(B, b, Loose); Separated(B') && OneLoose(B', b) && Isolated(B', b) && FIRST <= b
  {
    LoosenSeparated(B, b);
    var B' := WithStatus(B, b, Loose);
    HeaderOf(m, E, B, b);
    if Next(B', b) in B' { assert Fine(B[b].status, B[Next(B, b)].status) && Next(B, b) != b; }
    forall a | a in B' && Next(B', a) == b ensures B'[a].status == Live {
      HeaderOf(m, E, B, a);
      assert Next(B, a) == b && Fine(B[a].status, B[Next(B, a)].status);
    }
  }

  lemma TreeBest(m: seq<Word>, E: nat, B: Blocks, bp: nat, asize: nat)
    requires Layout(m, E, B) && bp in TreeSet(B) && asize <= HeapTree.Size(m, bp)
    requires forall n :: n in TreeSet(B) && asize <= HeapTree.Size(m, n) ==> HeapTree.Size(m, bp) <= HeapTree.Size(m, n)
    requires asize < TREE_MIN ==> forall b :: ListMember(B, b) ==> B[b].size < asize
    ensures bp in B && B[bp].status == Free && asize <= B[bp].size && BestFit(B, bp, asize) && bp != 0
  {
    HeaderOf(m, E, B, bp);
    forall b | b in B && B[b].status == Free && asize <= B[b].size ensures B[bp].size <= B[b].size {
      HeaderOf(m, E, B, b);
      var small, large := ListMember(B, b), b in TreeSet(B);
    }
  }

  lemma NothingFits(m: seq<Word>, E: nat, B: Blocks, asize: nat)
    requires Layout(m, E, B)
    requires forall n :: n in TreeSet(B) ==> HeapTree.Size(m, n) < asize
    requires asize < TREE_MIN ==> forall b :: ListMember(B, b) ==> B[b].size < asize
    ensures NoFit(B, asize)
  {
    forall b | b in B && B[b].status == Free ensures B[b].size < asize {
      HeaderOf(m, E, B, b);
      var small, large := ListMember(B, b), b in TreeSet(B);
    }
  }

  /** When nothing fits, the last free block is short of the request, so the extension is positive. */
  lemma LastFree(m: seq<Word>, E: nat, B: Blocks, asize: nat)
    requires Layout(m, E, B) && NoLoose(B) && NoFit(B, asize)
    ensures FIRST <= E <= |m| && (!m[E - 1].b1 ==> m[E - 2].hi < asize && 2 * m[E - 2].hi < E)
  {
    if !m[E - 1].b1 {
      var a := TagPrev(m, E, B, E);
    }
  }

  lemma FitFound(B: Blocks, bp: nat, asize: nat)
    requires bp in B && B[bp].status == Free && asize <= B[bp].size
    ensures !NoFit(B, asize)
  {
  }

  lemma NoneNewAfterLoosen(B0: Blocks, bp: nat, B2: Blocks, r: nat)
    requires bp in B0 && B0[bp].status == Free && NoneNew(WithStatus(B0, bp, Loose), B2, r) &&
      Unused(WithStatus(B0, bp, Loose), r)
    ensures NoneNew(B0, B2, r) && Unused(B0, r)
  {
  }

  lemma NoneNewTrans(B0: Blocks, B1: Blocks, B2: Blocks, r: nat)
    requires NoneNew(B0, B1, 0) && NoneNew(B1, B2, r)
    requires 0 !in B1
    ensures NoneNew(B0, B2, r)
  {
  }

  lemma StillUnused(m0: seq<Word>, m1: seq<Word>, B0: Blocks, B1: Blocks, r: nat)
    requires Kept(m0, m1, B0, B1, 0) && Unused(B1, r) && r != 0
    ensures Unused(B0, r)
  {
  }

  lemma PlaceIsBlock(m: seq<Word>, E: nat, B: Blocks, r: nat)
    requires Layout(m, E, B) && r in B
    ensures r != 0 && 0 !in B
  {
    assert 0 !in B;
  }

  lemma FreedSeparated(B: Blocks, p: nat)
    requires Separated(B) && NoLoose(B) && p in B &&
      forall b {:trigger B[b]} :: b in B && B[b].status == Limbo ==> b == p
    ensures Separated(WithStatus(B, p, Loose)) && OneLoose(WithStatus(B, p, Loose), p)
  {
    var B' := WithStatus(B, p, Loose);
    forall a | a in B' && Next(B', a) in B' ensures Fine(B'[a].status, B'[Next(B', a)].status) {
      var n := Next(B, a);
      assert Next(B', a) == n && Fine(B[a].status, B[n].status);
      assert a != p ==> B'[a] == B[a];
      assert n != p ==> B'[n] == B[n];
    }
  }

  /** Contents are kept along a run of steps, if the block the second step gives up was not in use before. */
  lemma KeptChain(m0: seq<Word>, m1: seq<Word>, m2: seq<Word>, B0: Blocks, B1: Blocks, B2: Blocks, x: nat, y: nat)
    requires Kept(m0, m1, B0, B1, x) && Kept(m1, m2, B1, B2, y)
    requires y == x || y !in B0 || !Occupied(B0[y].status)
    ensures Kept(m0, m2, B0, B2, x)
  {
    forall b | b in B0 && b != x && Occupied(B0[b].status)
      ensures b in B2 && B2[b] == B0[b] && SameBody(m0, m2, b, B0[b].size)
    {
      assert b in B1 && B1[b] == B0[b] && SameBody(m0, m1, b, B0[b].size);
      assert SameBody(m1, m2, b, B0[b].size);
    }
  }

  lemma JoinedSize(m0: seq<Word>, m1: seq<Word>, E: nat, B0: Blocks, B1: Blocks, p: nat, lo: nat, hi: nat)
    requires p in B0 && B0[p].status != Loose && lo < hi && B1 == WithStatus(B0, p, Loose) && FreeRun(B1, p, lo, hi)
    requires Layout(m0, E, B0) && Layout(m1, E, B1)
    ensures (hi - lo) / 2 >= 2 && 0 !in B0
  {
    RunIsStretch(B1, E, p, lo, hi);
    assert B1[p].size >= 2;
    assert Next(B1, p) <= hi;
    assert 0 !in B1;
  }

  lemma FreedMap(B0: Blocks, p: nat, lo: nat, hi: nat)
    requires p in B0 && NoLoose(B0) && lo <= p < hi
    requires forall b {:trigger B0[b]} :: b in B0 && B0[b].status == Limbo ==> b == p
    requires lo in B0
    ensures var B' := Join(B0, lo, hi, Free);
      lo in Join(WithStatus(B0, p, Loose), lo, hi, Loose) &&
      WithStatus(Join(WithStatus(B0, p, Loose), lo, hi, Loose), lo, Free) == B' && NoneNew(B0, B', 0) && Settled(B')
  {
  }

  lemma FreedBlocks(m: seq<Word>, B0: Blocks, p: nat, lo: nat, hi: nat, E: nat)
    requires p in B0 && NoLoose(B0) && lo < hi && FreeRun(WithStatus(B0, p, Loose), p, lo, hi) &&
      Layout(m, E, WithStatus(B0, p, Loose))
    requires forall b {:trigger B0[b]} :: b in B0 && B0[b].status == Limbo ==> b == p
    ensures var B' := WithStatus(Join(WithStatus(B0, p, Loose), lo, hi, Loose), lo, Free);
      B' == Join(B0, lo, hi, Free) && NoneNew(B0, B', 0) && Settled(B')
  {
    hide Layout, FreeRun, Join;
    var L := WithStatus(B0, p, Loose);
    LayoutTiling(m, E, L);
    RunIsStretch(L, E, p, lo, hi);
    FreedMap(B0, p, lo, hi);
  }

  lemma LayoutTiling(m: seq<Word>, E: nat, B: Blocks)
    requires Layout(m, E, B)
    ensures Tiling(B, E)
  {
  }

  lemma SplitHas(B: Blocks, p: nat, d: nat, front: bool)
    requires p in B && 2 <= d && d + 2 <= B[p].size
    ensures var (B', q,
      f) := (if front then Split(B, p, d, Live, Loose)
      else Split(B, p, d, Loose, Live), p + 2 * d, if front then p + 2 * d else p);
      f in B' && B'[f].status == Loose && B'[f].size >= 2 &&
      WithStatus(B', f, Free) == if front then Split(B, p, d, Live, Free) else Split(B, p, d, Free, Live)
  {
  }

  lemma PlacedIn(B: Blocks, E: nat, p: nat, r: nat, asize: nat, B': Blocks)
    requires Tiling(B, E) && p in B && OneLoose(B, p) && B[p].status == Loose && 2 <= asize && asize + 2 <= B[p].size
    requires (r == p && B' == Split(B, p, asize, Live, Free)) ||
      (r == p + 2 * (B[p].size - asize) && B' == Split(B, p, B[p].size - asize, Free, Live))
    ensures NoLoose(B') && r in B' && B'[r] == Block(asize, Live) && NoneNew(B, B', r) && Unused(B, r)
  {
    assert r != p ==> r !in B;
  }

  lemma PlacedWhole(B: Blocks, p: nat)
    requires p in B && OneLoose(B, p)
    ensures NoLoose(WithStatus(B, p, Live)) && NoneNew(B, WithStatus(B, p, Live), p)
  {
  }

  lemma EndBounds(m: seq<Word>, E: nat, B: Blocks)
    requires Layout(m, E, B)
    ensures FIRST <= E <= |m| && E % 2 == 0
  {
  }

  lemma AppendedHeap(m: seq<Word>, E: nat, B: Blocks, d: nat)
    requires Layout(m, E, B) && Separated(B) && NoLoose(B) && d >= 1
    requires forall a {:trigger Next(B, a)} :: a in B && Next(B, a) == E ==> B[a].status != Limbo
    ensures var B' := Append(B, E, d, Loose); Separated(B') && OneLoose(B', E) && E in B' && B'[E] == Block(d, Loose)
  {
    AppendSeparated(B, E, d);
  }

  lemma EndRun(m: seq<Word>, E: nat, B: Blocks, p: nat, lo: nat, hi: nat)
    requires Layout(m, E, B) && FreeRun(B, p, lo, hi) && Next(B, p) == E && lo < hi
    ensures hi == E && lo != 0 && lo in Join(B, lo, hi, Loose) && Next(Join(B, lo, hi, Loose), lo) == E
  {
    assert E !in B;
    RunIsStretch(B, E, p, lo, hi);
    JoinTiling(B, E, lo, hi, Loose);
  }

  lemma RunNoneNew(B: Blocks, E: nat, d: nat, lo: nat, hi: nat)
    requires lo < hi
    ensures NoneNew(B, Join(Append(B, E, d, Loose), lo, hi, Loose), 0)
  {
  }

  lemma JoinNothing(m: seq<Word>, B: Blocks, E: nat, p: nat)
    requires Tiling(B, E) && E <= |m| && p in B && B[p].status == Loose && p < Next(B, p)
    ensures B == Join(B, p, Next(B, p), Loose) && Kept(m, m, B, B, 0)
  {
    var B' := Join(B, p, Next(B, p), Loose);
    forall b | b in B ensures b in B' && B'[b] == B[b] {
      assert B[b].size >= 1 && B[p].size >= 1;
    }
    forall b | b in B ensures SameBody(m, m, b, B[b].size) { assert B[b].size >= 1; }
  }
}
