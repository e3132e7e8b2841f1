/**
 The block layout of the tag-compressed heaps, on memory snapshots.

 A block pointer `b` is a word index.  The header is word b-1; a block of size `d` double
 words ends before the next header, word b+2d-1.  Only free blocks have a footer, word
 b+2d-2; the tag bit of the next header says whether a block is free.
 */
module Blocks {
  import opened Words

  /** `Live` and `Free` are the two states between calls.  During a call a block may be `Loose`,
      laid out like a free block but in no index, or `Limbo`, which mm_realloc leaves behind while
      it looks for another place: its contents count, its allocation bit does not. */
  datatype Status = Live | Free | Limbo | Loose

  datatype Block = Block(size: nat, status: Status)

  type Blocks = map<nat, Block>

  const FIRST: nat := 6

  predicate Occupied(s: Status) { s == Live || s == Limbo }

  function Next(B: Blocks, b: nat): nat requires b in B { b + 2 * B[b].size }

  /** The blocks lie end to end from the prologue to the epilogue at `E`. */
  ghost predicate Tiling(B: Blocks, E: nat) {
    FIRST <= E && E % 2 == 0 && (E == FIRST || FIRST in B) &&
    (forall b {:trigger B[b]} :: b in B ==> FIRST <= b && b % 2 == 0 && B[b].size >= 1 && b + 2 * B[b].size <= E) &&
    (forall b {:trigger Next(B, b)} :: b in B ==> Next(B, b) == E || Next(B, b) in B) &&
    (forall a, b {:trigger B[a], B[b]} :: a in B && b in B && a < b ==> a + 2 * B[a].size <= b)
  }

  /** What the tiling says of one block. */
  lemma TileAt(B: Blocks, E: nat, b: nat)
    requires Tiling(B, E) && b in B
    ensures FIRST <= b && b % 2 == 0 && B[b].size >= 1 && Next(B, b) <= E && (Next(B, b) == E || Next(B, b) in B)
  {
  }

  lemma TileEnd(B: Blocks, E: nat)
    requires Tiling(B, E)
    ensures FIRST <= E && E % 2 == 0 && (E == FIRST || FIRST in B)
  {
  }

  lemma TileBefore(B: Blocks, E: nat, a: nat, b: nat)
    requires Tiling(B, E) && a in B && (b in B || b == E) && a < b
    ensures Next(B, a) <= b
  {
  }

  ghost predicate Sized(B: Blocks) {
    forall b {:trigger B[b]} :: b in B && B[b].status != Loose ==> B[b].size >= 2
  }

  /** Header, tag and footer of one block. */
  ghost predicate BlockOk(m: seq<Word>, B: Blocks, b: nat)
  {
    b in B && 1 <= b && B[b].size >= 1 && Next(B, b) <= |m| &&
    var d, s, n := B[b].size, B[b].status, Next(B, b);
    m[b - 1].hi == d && (s == Live ==> m[b - 1].b0) && (!Occupied(s) ==> !m[b - 1].b0) &&
    (m[n - 1].b1 <==> Occupied(s)) && (!Occupied(s) ==> m[n - 2].hi == d)
  }

  ghost predicate Layout(m: seq<Word>, E: nat, B: Blocks) {
    Tiling(B, E) && E <= |m| && Sized(B) && (forall b {:trigger BlockOk(m, B, b)} :: b in B ==> BlockOk(m, B, b)) &&
    m[3] == Pack(1, true) && m[4] == Pack(1, true) && m[5].b1 && m[E - 1].hi == 0 && m[E - 1].b0
  }

  // ------------------------------------------------------------- neighbours

  lemma {:induction false} PrevFrom(B: Blocks, E: nat, n: nat, a: nat) returns (p: nat)
    requires Tiling(B, E) && (n in B || n == E) && a in B && a < n
    ensures p in B && Next(B, p) == n
    decreases n - a
  {
    if Next(B, a) == n {
      p := a;
    } else {
      p := PrevFrom(B, E, n, Next(B, a));
    }
  }

  /** Every block but the first, and the epilogue, has a block right before it. */
  lemma PrevBlock(B: Blocks, E: nat, n: nat) returns (p: nat)
    requires Tiling(B, E) && (n in B || n == E) && n != FIRST
    ensures p in B && Next(B, p) == n
  {
    p := PrevFrom(B, E, n, FIRST);
  }

  lemma {:induction false} CoverFrom(B: Blocks, E: nat, i: nat, a: nat) returns (b: nat)
    requires Tiling(B, E) && a in B && a <= i < E
    ensures b in B && b <= i < Next(B, b)
    decreases i - a
  {
    if i < Next(B, a) {
      b := a;
    } else {
      b := CoverFrom(B, E, i, Next(B, a));
    }
  }

  /** No word between prologue and epilogue is outside all blocks, or inside two. */
  lemma Cover(B: Blocks, E: nat, i: nat) returns (b: nat)
    requires Tiling(B, E) && FIRST <= i < E
    ensures b in B && b <= i < Next(B, b)
    ensures forall a :: a in B && a <= i < Next(B, a) ==> a == b
  {
    b := CoverFrom(B, E, i, FIRST);
  }

  /** A clear tag leads, through the footer, to a free block right before. */
  lemma TagPrev(m: seq<Word>, E: nat, B: Blocks, n: nat) returns (a: nat)
    requires Layout(m, E, B) && (n in B || n == E) && !m[n - 1].b1
    ensures a in B && Next(B, a) == n && !Occupied(B[a].status) && m[n - 2].hi == B[a].size && a < n
  {
    a := PrevBlock(B, E, n);
    assert BlockOk(m, B, a);
  }

  /** No two neighbours are both unallocated, but for a block that is being moved. */
  predicate Fine(s: Status, t: Status) {
    s == Live || t == Live || (s == Loose && t != Limbo) || (t == Loose && s != Limbo)
  }

  ghost predicate Separated(B: Blocks) {
    forall a {:trigger Next(B, a)} :: a in B && Next(B, a) in B ==> Fine(B[a].status, B[Next(B, a)].status)
  }

  ghost predicate OneLoose(B: Blocks, p: nat) {
    forall b {:trigger B[b]} :: b in B && B[b].status == Loose ==> b == p
  }

  ghost predicate Isolated(B: Blocks, p: nat)
    requires p in B
  {
    (Next(B, p) in B ==> B[Next(B, p)].status == Live) &&
    forall a {:trigger Next(B, a)} :: a in B && Next(B, a) == p ==> B[a].status == Live
  }

  // ------------------------------------------------------------- changing a stretch of the heap

  /** `B'` differs from `B` only in blocks from `lo` up to `hi`. */
  ghost predicate Within(B: Blocks, B': Blocks, lo: nat, hi: nat) {
    (forall b {:trigger b in B} {:trigger b in B'} :: b < lo || hi <= b ==> (b in B <==> b in B')) &&
    (forall b {:trigger B[b]} {:trigger B'[b]} :: b in B && (b < lo || hi <= b) ==> B'[b] == B[b])
  }

  /** `m'` differs from `m` only between header `lo` and tag `hi`. */
  ghost predicate Rewritten(m: seq<Word>, m': seq<Word>, lo: nat, hi: nat) {
    1 <= lo < hi <= |m| && |m'| == |m| &&
    (forall i :: 0 <= i < |m| && (i < lo - 1 || hi <= i) ==> m'[i] == m[i]) &&
    m'[lo - 1].b1 == m[lo - 1].b1 && m'[hi - 1] == m[hi - 1].(b1 := m'[hi - 1].b1)
  }

  ghost predicate Stretch(B: Blocks, E: nat, lo: nat, hi: nat) {
    lo in B && (hi in B || hi == E) && lo < hi
  }

  /** Rewriting a stretch keeps the layout of everything around it. */
  lemma Reshape(m: seq<Word>, m': seq<Word>, E: nat, B: Blocks, B': Blocks, lo: nat, hi: nat)
    requires Layout(m, E, B) && Tiling(B', E) && Sized(B') && Stretch(B, E, lo, hi)
    requires Within(B, B', lo, hi) && Rewritten(m, m', lo, hi)
    requires forall b {:trigger BlockOk(m', B', b)} :: b in B' && lo <= b < hi ==> BlockOk(m', B', b)
    ensures Layout(m', E, B')
  {
    hide Tiling, BlockOk, Sized, Within, Rewritten;
    forall b | b in B' ensures BlockOk(m', B', b) {
      if b < lo || hi <= b { ReshapeAround(m, m', E, B, B', lo, hi, b); }
    }
    ReshapeEnds(m, m', E, B, lo, hi);
  }

  lemma ReshapeAround(m: seq<Word>, m': seq<Word>, E: nat, B: Blocks, B': Blocks, lo: nat, hi: nat, b: nat)
    requires Layout(m, E, B) && Stretch(B, E, lo, hi) && b in B' && (b < lo || hi <= b)
    requires Within(B, B', lo, hi) && Rewritten(m, m', lo, hi)
    ensures BlockOk(m', B', b)
  {
    assert b in B && B'[b] == B[b] && BlockOk(m, B, b) && Next(B', b) == Next(B, b);
    assert b < lo ==> Next(B, b) <= lo;
  }

  lemma ReshapeEnds(m: seq<Word>, m': seq<Word>, E: nat, B: Blocks, lo: nat, hi: nat)
    requires Layout(m, E, B) && Stretch(B, E, lo, hi) && Rewritten(m, m', lo, hi)
    ensures |m'| == |m| && E <= |m'|
    ensures m'[3] == m[3] && m'[4] == m[4] && m'[5].b1 && m'[E - 1].hi == 0 && m'[E - 1].b0
  {
    assert BlockOk(m, B, lo);
    assert FIRST < hi;
  }

  /** The blocks from `lo` up to `hi` joined into one. */
  ghost function Join(B: Blocks, lo: nat, hi: nat, s: Status): Blocks
    requires lo < hi
  {
    map b | b in B && (b <= lo || hi <= b) :: if b == lo then Block((hi - lo) / 2, s) else B[b]
  }

  lemma JoinTiling(B: Blocks, E: nat, lo: nat, hi: nat, s: Status)
    requires Tiling(B, E) && Stretch(B, E, lo, hi)
    ensures Tiling(Join(B, lo, hi, s), E) && Within(B, Join(B, lo, hi, s), lo, hi)
    ensures lo in Join(B, lo, hi, s) && Next(Join(B, lo, hi, s), lo) == hi
    ensures forall b :: b in Join(B, lo, hi, s) && lo <= b < hi ==> b == lo
  {
    hide Within, Join;
    var B' := Join(B, lo, hi, s);
    JoinMembers(B, E, lo, hi, s);
    forall b | b in B' ensures Next(B', b) == E || Next(B', b) in B' { JoinNext(B, E, lo, hi, s, b); }
    forall b | b in B' ensures FIRST <= b && b % 2 == 0 && B'[b].size >= 1 && b + 2 * B'[b].size <= E {
      JoinNext(B, E, lo, hi, s, b);
    }
    forall x, y | x in B' && y in B' && x < y ensures x + 2 * B'[x].size <= y {
      JoinOrder(B, E, lo, hi, s, x, y);
    }
  }

  /** Which blocks a join leaves. */
  lemma JoinMembers(B: Blocks, E: nat, lo: nat, hi: nat, s: Status)
    requires Tiling(B, E) && Stretch(B, E, lo, hi)
    ensures Within(B, Join(B, lo, hi, s), lo, hi)
    ensures lo in Join(B, lo, hi, s) && Next(Join(B, lo, hi, s), lo) == hi &&
      (FIRST in B ==> FIRST in Join(B, lo, hi, s))
    ensures forall b :: b in Join(B, lo, hi, s) && lo <= b < hi ==> b == lo
  {
    assert B[lo].size >= 1 && (hi in B ==> B[hi].size >= 1);
  }

  /** The bounds of one block after a join, and what follows it. */
  lemma JoinNext(B: Blocks, E: nat, lo: nat, hi: nat, s: Status, b: nat)
    requires Tiling(B, E) && Stretch(B, E, lo, hi) && b in Join(B, lo, hi, s)
    ensures var B' := Join(B, lo, hi, s);
      (Next(B', b) == E || Next(B', b) in B') && FIRST <= b && b % 2 == 0 && B'[b].size >= 1 && b + 2 * B'[b].size <= E
  {
    hide Tiling;
    TileAt(B, E, b); TileAt(B, E, lo);
    if hi in B { TileAt(B, E, hi); }
    TileBefore(B, E, lo, hi);
    if b < lo { TileBefore(B, E, b, lo); }
    assert b != lo ==> Next(Join(B, lo, hi, s), b) == Next(B, b);
    TileEnd(B, E);
  }

  lemma JoinOrder(B: Blocks, E: nat, lo: nat, hi: nat, s: Status, x: nat, y: nat)
    requires Tiling(B, E) && Stretch(B, E, lo, hi) && x < y && x in Join(B, lo, hi, s) && y in Join(B, lo, hi, s)
    ensures x + 2 * Join(B, lo, hi, s)[x].size <= y
  {
    assert x + 2 * B[x].size <= y;
  }

  /** A block of size `d` cut out of the front of block `b`. */
  ghost function Split(B: Blocks, b: nat, d: nat, s: Status, t: Status): Blocks
    requires b in B && 1 <= d < B[b].size
  {
    B[b := Block(d, s)][b + 2 * d := Block(B[b].size - d, t)]
  }

  lemma SplitTiling(B: Blocks, E: nat, b: nat, d: nat, s: Status, t: Status)
    requires Tiling(B, E) && b in B && 1 <= d < B[b].size
    ensures Tiling(Split(B, b, d, s, t), E) && Within(B, Split(B, b, d, s, t), b, Next(B, b)) && b + 2 * d !in B
    ensures forall c :: c in Split(B, b, d, s, t) && b <= c < Next(B, b) ==> c == b || c == b + 2 * d
    ensures Next(Split(B, b, d, s, t), b) == b + 2 * d && Next(Split(B, b, d, s, t), b + 2 * d) == Next(B, b)
  {
    hide Split, Within;
    var B' := Split(B, b, d, s, t);
    SplitMembers(B, E, b, d, s, t);
    forall x | x in B' ensures FIRST <= x && x % 2 == 0 && B'[x].size >= 1 && x + 2 * B'[x].size <= E {
      SplitNext(B, E, b, d, s, t, x);
    }
    forall x | x in B' ensures Next(B', x) == E || Next(B', x) in B' { SplitNext(B, E, b, d, s, t, x); }
    forall x, y | x in B' && y in B' && x < y ensures x + 2 * B'[x].size <= y {
      SplitOrder(B, E, b, d, s, t, x, y);
    }
  }

  /** Which blocks a split leaves. */
  lemma SplitMembers(B: Blocks, E: nat, b: nat, d: nat, s: Status, t: Status)
    requires Tiling(B, E) && b in B && 1 <= d < B[b].size
    ensures Within(B, Split(B, b, d, s, t), b, Next(B, b)) && b + 2 * d !in B &&
      (FIRST in B ==> FIRST in Split(B, b, d, s, t))
    ensures forall c :: c in Split(B, b, d, s, t) && b <= c < Next(B, b) ==> c == b || c == b + 2 * d
    ensures Next(Split(B, b, d, s, t), b) == b + 2 * d && Next(Split(B, b, d, s, t), b + 2 * d) == Next(B, b)
  {
    hide Tiling;
    forall c | c in B && b < c ensures Next(B, b) <= c { TileBefore(B, E, b, c); }
  }

  /** The bounds of one block after a split, and what follows it. */
  lemma SplitNext(B: Blocks, E: nat, b: nat, d: nat, s: Status, t: Status, x: nat)
    requires Tiling(B, E) && b in B && 1 <= d < B[b].size && x in Split(B, b, d, s, t)
    ensures var B' := Split(B, b, d, s, t);
      (Next(B', x) == E || Next(B', x) in B') && FIRST <= x && x % 2 == 0 && B'[x].size >= 1 && x + 2 * B'[x].size <= E
  {
    hide Tiling;
    var n := b + 2 * d;
    TileAt(B, E, b);
    if x != b && x != n { TileAt(B, E, x); }
    if n in B { TileBefore(B, E, b, n); }
  }

  lemma SplitOrder(B: Blocks, E: nat, b: nat, d: nat, s: Status, t: Status, x: nat, y: nat)
    requires Tiling(B, E) && b in B && 1 <= d < B[b].size && x < y
    requires x in Split(B, b, d, s, t) && y in Split(B, b, d, s, t)
    ensures x + 2 * Split(B, b, d, s, t)[x].size <= y
  {
    var n := b + 2 * d;
    if x != n { assert x in B && x + 2 * B[x].size <= E; }
    if y != n { assert y in B && B[y].size >= 1; }
  }

  ghost function WithStatus(B: Blocks, b: nat, s: Status): Blocks
    requires b in B
  {
    B[b := Block(B[b].size, s)]
  }

  lemma StatusTiling(B: Blocks, E: nat, b: nat, s: Status)
    requires Tiling(B, E) && b in B
    ensures Tiling(WithStatus(B, b, s), E) && Within(B, WithStatus(B, b, s), b, Next(B, b)) &&
      Next(WithStatus(B, b, s), b) == Next(B, b)
    ensures forall c :: c in WithStatus(B, b, s) && b <= c < Next(B, b) ==> c == b
  {
    hide Within, WithStatus;
    var B' := WithStatus(B, b, s);
    StatusMembers(B, E, b, s);
    forall x | x in B' ensures FIRST <= x && x % 2 == 0 && B'[x].size >= 1 && x + 2 * B'[x].size <= E {
      StatusNext(B, E, b, s, x);
    }
    forall x | x in B' ensures Next(B', x) == E || Next(B', x) in B' { StatusNext(B, E, b, s, x); }
    forall x, y | x in B' && y in B' && x < y ensures x + 2 * B'[x].size <= y {
      StatusNext(B, E, b, s, x);
      TileBefore(B, E, x, y);
    }
  }

  lemma StatusMembers(B: Blocks, E: nat, b: nat, s: Status)
    requires Tiling(B, E) && b in B
    ensures Within(B, WithStatus(B, b, s), b, Next(B, b)) && WithStatus(B, b, s).Keys == B.Keys
    ensures forall c :: c in WithStatus(B, b, s) && b <= c < Next(B, b) ==> c == b
  {
    hide Tiling;
    TileAt(B, E, b);
    forall c | c in B && b < c ensures Next(B, b) <= c { TileBefore(B, E, b, c); }
  }

  lemma StatusNext(B: Blocks, E: nat, b: nat, s: Status, x: nat)
    requires Tiling(B, E) && b in B && x in WithStatus(B, b, s)
    ensures var B' := WithStatus(B, b, s);
      x in B && B'[x].size == B[x].size && Next(B', x) == Next(B, x) &&
      (Next(B', x) == E || Next(B', x) in B') && FIRST <= x && x % 2 == 0 && B'[x].size >= 1 && x + 2 * B'[x].size <= E
  {
    hide Tiling;
    TileAt(B, E, x);
  }

  /** A new block at the end. */
  ghost function Append(B: Blocks, E: nat, d: nat, s: Status): Blocks { B[E := Block(d, s)] }

  lemma AppendTiling(B: Blocks, E: nat, d: nat, s: Status)
    requires Tiling(B, E) && d >= 1
    ensures Tiling(Append(B, E, d, s), E + 2 * d) && E !in B
  {
    var B', E' := Append(B, E, d, s), E + 2 * d;
    assert E !in B;
    forall x | x in B' ensures Next(B', x) == E' || Next(B', x) in B' {
      if x != E { assert Next(B', x) == Next(B, x); }
    }
  }

  // ------------------------------------------------------------- contents

  /** The words of block `b` between header and next header are unchanged. */
  ghost predicate SameBody(m: seq<Word>, m': seq<Word>, b: nat, d: nat) {
    d >= 1 && b + 2 * d <= |m| == |m'| && forall i :: b <= i < b + 2 * d - 1 ==> m'[i] == m[i]
  }

  /** Every block in use, except `x`, stays where it is and keeps its contents. */
  ghost predicate Kept(m: seq<Word>, m': seq<Word>, B: Blocks, B': Blocks, x: nat) {
    forall b {:trigger B[b]} ::
      b in B && b != x && Occupied(B[b].status) ==> b in B' && B'[b] == B[b] && SameBody(m, m', b, B[b].size)
  }

  lemma KeptTrans(m0: seq<Word>, m1: seq<Word>, m2: seq<Word>, B0: Blocks, B1: Blocks, B2: Blocks, x: nat)
    requires Kept(m0, m1, B0, B1, x) && Kept(m1, m2, B1, B2, x)
    ensures Kept(m0, m2, B0, B2, x)
  {
    forall b | b in B0 && b != x && Occupied(B0[b].status)
      ensures b in B2 && B2[b] == B0[b] && SameBody(m0, m2, b, B0[b].size)
    {
      assert b in B1 && B1[b] == B0[b] && SameBody(m0, m1, b, B0[b].size);
      assert SameBody(m1, m2, b, B0[b].size);
    }
  }

  lemma ReshapeKept(m: seq<Word>, m': seq<Word>, E: nat, B: Blocks, B': Blocks, lo: nat, hi: nat, x: nat)
    requires Layout(m, E, B) && Stretch(B, E, lo, hi) && Within(B, B', lo, hi) && Rewritten(m, m', lo, hi)
    requires forall b :: b in B && lo <= b < hi && Occupied(B[b].status) ==> b == x
    ensures Kept(m, m', B, B', x)
  {
    forall b | b in B && b != x && Occupied(B[b].status) ensures b in B' && B'[b] == B[b] &&
      SameBody(m, m', b, B[b].size) {
      if b < lo { assert Next(B, b) <= lo; }
    }
  }
}
