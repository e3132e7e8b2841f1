/**
 The implicit-list allocators: mm_linkedlist_firstfit.c and mm_linkedlist_nextfit.c.

 Every block has a header and a footer, so the heap is the list of its blocks, written out.
 `Flat` writes it out; the prologue is the first block.  The two files differ in the search
 for a fit, and in the rover that only next fit reads.
 */
module ImplicitLists {
  import opened Words
  import Memlib

  /** A block of `size` double words: header, body, footer. */
  datatype Blk = Blk(size: nat, live: bool, body: seq<Word>)

  predicate Ok(b: Blk) { b.size >= 1 && |b.body| == 2 * b.size - 2 }

  ghost predicate AllOk(bs: seq<Blk>) { forall i :: 0 <= i < |bs| ==> Ok(bs[i]) }

  function Tag(b: Blk): Word { Pack(b.size, b.live) }

  function Flat1(b: Blk): seq<Word> { [Tag(b)] + b.body + [Tag(b)] }

  /** The words of a list of blocks. */
  function Flat(bs: seq<Blk>): seq<Word> { if bs == [] then [] else Flat1(bs[0]) + Flat(bs[1..]) }

  const EPILOGUE: Word := Pack(0, true)

  const PROLOGUE: Blk := Blk(1, true, [])

  lemma {:induction false} FlatAppend(a: seq<Blk>, b: seq<Blk>)
    ensures Flat(a + b) == Flat(a) + Flat(b)
  {
    if a == [] {
      assert a + b == b;
    } else {
      assert (a + b)[0] == a[0] && (a + b)[1..] == a[1..] + b;
      FlatAppend(a[1..], b);
    }
  }

  lemma FlatOne(b: Blk)
    ensures Flat([b]) == Flat1(b)
  {
    assert [b][1..] == [];
  }

  /** Block pointer of the block after `a`. */
  function At(a: seq<Blk>): nat { 2 + |Flat(a)| }

  /** The heap up to its break `E` is the block list and the epilogue. */
  ghost predicate Spells(m: seq<Word>, E: nat, bs: seq<Blk>) {
    E == At(bs) <= |m| && m[1..E - 1] == Flat(bs) && m[E - 1] == EPILOGUE
  }

  /** The words around block `b`, between blocks `a` and `c`. */
  lemma Focus(m: seq<Word>, E: nat, a: seq<Blk>, b: Blk, c: seq<Blk>)
    requires Spells(m, E, a + [b] + c) && AllOk(a + [b] + c)
    ensures var p := At(a);
      p + 2 * b.size <= E <= |m| && At(a + [b]) == p + 2 * b.size && b.size >= 1 &&
      m[p - 1] == Tag(b) && m[p + 2 * b.size - 2] == Tag(b) && m[p..p + 2 * b.size - 2] == b.body
    ensures At(a) + 2 * b.size - 1 < |m| && m[At(a) + 2 * b.size - 1] == if c == [] then EPILOGUE else Tag(c[0])
    ensures c == [] <==> At(a) + 2 * b.size == E
    ensures a != [] ==> At(a) >= 4 && m[At(a) - 2] == Tag(a[|a| - 1]) && At(a) == At(a[..|a| - 1]) + 2 * a[|a| - 1].size
  {
    hide Flat, Pack, Flat1, Tag;
    FlatAppend(a + [b], c); FlatAppend(a, [b]); FlatOne(b);
    assert (a + [b] + c)[|a|] == b;
    FocusMem(m, E, Flat(a), b, Flat(c));
    FlatHead(c);
    if a != [] {
      assert Ok((a + [b] + c)[|a| - 1]);
      LastTag(a);
    }
  }

  /** Block `b` between the words `w` and `t`. */
  lemma FocusMem(m: seq<Word>, E: nat, w: seq<Word>, b: Blk, t: seq<Word>)
    requires Ok(b) && 2 <= E <= |m| && m[1..E - 1] == w + Flat1(b) + t && m[E - 1] == EPILOGUE
    ensures var p := 2 + |w|;
      |Flat1(b)| == 2 * b.size && p + 2 * b.size + |t| == E && b.size >= 1 && m[p - 1] == Tag(b) &&
      m[p + 2 * b.size - 2] == Tag(b) && m[p..p + 2 * b.size - 2] == b.body
    ensures m[2 + |w| + 2 * b.size - 1] == if t == [] then EPILOGUE else t[0]
    ensures w != [] ==> m[|w|] == w[|w| - 1]
  {
    hide Tag, Pack, Flat1;
    var s := m[1..E - 1];
    FocusWords(w, b, t);
    SubSlice(m, 1, E - 1, |w| + 1, |w| + 2 * b.size - 1);
    SliceAt(m, 1, E - 1, |w|); SliceAt(m, 1, E - 1, |w| + 2 * b.size - 1);
    if t != [] { SliceAt(m, 1, E - 1, |w| + 2 * b.size); }
    if w != [] { SliceAt(m, 1, E - 1, |w| - 1); }
  }

  lemma SliceAt<T>(m: seq<T>, a: nat, b: nat, i: nat)
    requires a <= b <= |m| && i < b - a
    ensures m[a..b][i] == m[a + i]
  {
  }

  /** The last word of some blocks is the footer of the last one. */
  lemma LastTag(a: seq<Blk>)
    requires a != [] && Ok(a[|a| - 1])
    ensures |Flat(a)| >= 2 && Flat(a)[|Flat(a)| - 1] == Tag(a[|a| - 1]) &&
      At(a) == At(a[..|a| - 1]) + 2 * a[|a| - 1].size
  {
    hide Flat, Pack;
    var l := a[|a| - 1];
    assert a == a[..|a| - 1] + [l];
    FlatAppend(a[..|a| - 1], [l]); FlatOne(l);
  }

  lemma FocusWords(w: seq<Word>, b: Blk, t: seq<Word>)
    requires Ok(b)
    ensures var (s, n) := (w + Flat1(b) + t, |w|);
      |Flat1(b)| == 2 * b.size && |s| == n + 2 * b.size + |t| && s[n] == Tag(b) && s[n + 2 * b.size - 1] == Tag(b) &&
        s[n + 1..n + 2 * b.size - 1] == b.body &&
      (t != [] ==> s[n + 2 * b.size] == t[0]) && (w != [] ==> s[n - 1] == w[n - 1])
  {
  }

  lemma FlatHead(c: seq<Blk>)
    ensures c == [] <==> Flat(c) == []
    ensures c != [] ==> |Flat(c)| > 0 && Flat(c)[0] == Tag(c[0])
  {
  }

  lemma SubSlice<T>(m: seq<T>, a: nat, b: nat, i: nat, j: nat)
    requires a <= b <= |m| && i <= j <= b - a
    ensures m[a..b][i..j] == m[a + i..a + j]
  {
    forall t | 0 <= t < j - i ensures m[a..b][i..j][t] == m[a + i..a + j][t] {}
  }

  lemma Splice<T>(s: seq<T>, s': seq<T>, n: nat, k: nat, y: seq<T>)
    requires |s'| == |s| && n + k <= |s| && s'[n..n + k] == y
    requires forall i :: 0 <= i < |s| && (i < n || n + k <= i) ==> s'[i] == s[i]
    ensures s' == s[..n] + y + s[n + k..]
  {
    assert s'[..n] == s[..n];
    assert s'[n + k..] == s[n + k..];
    assert s' == s'[..n] + s'[n..n + k] + s'[n + k..];
  }

  lemma SpliceInto<T>(a: seq<T>, x: seq<T>, c: seq<T>, y: seq<T>)
    ensures var s := a + x + c; s[..|a|] + y + s[|a| + |x|..] == a + y + c
  {
    var s := a + x + c;
    assert s[..|a|] == a && s[|a| + |x|..] == c;
  }

  lemma FlatThree(a: seq<Blk>, x: seq<Blk>, c: seq<Blk>)
    ensures Flat(a + x + c) == Flat(a) + Flat(x) + Flat(c)
  {
    FlatAppend(a + x, c); FlatAppend(a, x);
  }

  /** Rewriting the words of the blocks `x` rewrites just those blocks. */
  lemma Patch(m: seq<Word>, m': seq<Word>, E: nat, a: seq<Blk>, x: seq<Blk>, y: seq<Blk>, c: seq<Blk>)
    requires Spells(m, E, a + x + c) && |m'| == |m| && |Flat(y)| == |Flat(x)|
    requires At(a) - 1 + |Flat(x)| <= |m|
    requires forall i :: 0 <= i < |m| && (i < At(a) - 1 || At(a) - 1 + |Flat(x)| <= i) ==> m'[i] == m[i]
    requires m'[At(a) - 1..At(a) - 1 + |Flat(x)|] == Flat(y)
    ensures Spells(m', E, a + y + c)
  {
    hide Flat;
    FlatThree(a, x, c); FlatThree(a, y, c);
    PatchFlat(m, m', E, Flat(a), Flat(x), Flat(y), Flat(c));
  }

  lemma PatchFlat(m: seq<Word>, m': seq<Word>, E: nat, a: seq<Word>, x: seq<Word>, y: seq<Word>, c: seq<Word>)
    requires 2 <= E <= |m| == |m'| && m[1..E - 1] == a + x + c && |x| == |y| && 1 + |a| + |x| <= |m| &&
      m'[1 + |a|..1 + |a| + |x|] == y
    requires forall i :: 0 <= i < |m| && (i < 1 + |a| || 1 + |a| + |x| <= i) ==> m'[i] == m[i]
    ensures m'[1..E - 1] == a + y + c && m'[E - 1] == m[E - 1]
  {
    assert |m[1..E - 1]| == |a| + |x| + |c|;
    PatchWords(m, m', E, |a|, |x|, y);
    SpliceInto(a, x, c, y);
    assert m'[E - 1] == m[E - 1];
  }

  lemma PatchWords(m: seq<Word>, m': seq<Word>, E: nat, n: nat, k: nat, y: seq<Word>)
    requires |m'| == |m| && 2 <= E <= |m| && 1 + n + k <= E - 1 && m'[1 + n..1 + n + k] == y
    requires forall i :: 0 <= i < |m| && (i < 1 + n || 1 + n + k <= i) ==> m'[i] == m[i]
    ensures var s := m[1..E - 1]; m'[1..E - 1] == s[..n] + y + s[n + k..]
  {
    var s, s' := m[1..E - 1], m'[1..E - 1];
    SubSlice(m', 1, E - 1, n, n + k);
    forall i | 0 <= i < |s| && (i < n || n + k <= i) ensures s'[i] == s[i] { assert m'[1 + i] == m[1 + i]; }
    Splice(s, s', n, k, y);
  }

  /** Any words between equal tags are a block. */
  function BlockOf(m: seq<Word>, p: nat, d: nat, live: bool): (b: Blk)
    requires 1 <= p && 1 <= d && p + 2 * d <= |m|
    ensures Ok(b)
  {
    Blk(d, live, m[p..p + 2 * d - 2])
  }

  lemma BlockOfFlat(m: seq<Word>, p: nat, d: nat, live: bool)
    requires 1 <= p && 1 <= d && p + 2 * d <= |m| && m[p - 1] == Pack(d, live) && m[p + 2 * d - 2] == Pack(d, live)
    ensures Flat([BlockOf(m, p, d, live)]) == m[p - 1..p + 2 * d - 1]
  {
    FlatOne(BlockOf(m, p, d, live));
  }

  // ------------------------------------------------------------- what a program sees

  datatype Grant = Grant(ptr: nat, size: nat, body: seq<Word>)

  /** The live blocks from address `p` on: where they are, how big, and what they hold. */
  function Grants(bs: seq<Blk>, p: nat): seq<Grant> {
    if bs == [] then []
    else (if bs[0].live then [Grant(p, bs[0].size, bs[0].body)] else []) + Grants(bs[1..], p + 2 * bs[0].size)
  }

  /** Double words in free blocks. */
  function FreeSum(bs: seq<Blk>): nat {
    if bs == [] then 0 else (if bs[0].live then 0 else bs[0].size) + FreeSum(bs[1..])
  }

  lemma {:induction false} GrantsAppend(a: seq<Blk>, b: seq<Blk>, p: nat)
    requires AllOk(a)
    ensures Grants(a + b, p) == Grants(a, p) + Grants(b, p + |Flat(a)|)
    ensures FreeSum(a + b) == FreeSum(a) + FreeSum(b)
  {
    if a == [] {
      assert a + b == b;
    } else {
      var h, t, q := a[0], a[1..], p + 2 * a[0].size;
      assert (a + b)[0] == h && (a + b)[1..] == t + b;
      GrantsAppend(t, b, q);
      assert p + |Flat(a)| == q + |Flat(t)| by { assert Ok(h); }
      GrantsStep(a + b, p); GrantsStep(a, p);
      JoinThree(if h.live then [Grant(p, h.size, h.body)] else [], Grants(t, q), Grants(b, q + |Flat(t)|));
    }
  }

  lemma GrantsStep(bs: seq<Blk>, p: nat)
    requires bs != []
    ensures Grants(bs, p) == (if bs[0].live then [Grant(p, bs[0].size, bs[0].body)] else []) + Grants(bs[1..],
      p + 2 * bs[0].size)
    ensures FreeSum(bs) == (if bs[0].live then 0 else bs[0].size) + FreeSum(bs[1..])
  {
  }

  lemma JoinThree<T>(x: seq<T>, y: seq<T>, z: seq<T>)
    ensures x + (y + z) == (x + y) + z
  {
  }

  lemma GrantsOne(b: Blk, p: nat)
    ensures Grants([b], p) == if b.live then [Grant(p, b.size, b.body)] else []
    ensures FreeSum([b]) == if b.live then 0 else b.size
  {
    assert [b][1..] == [];
  }

  ghost predicate AllFree(bs: seq<Blk>) { forall i :: 0 <= i < |bs| ==> !bs[i].live }

  lemma {:induction false} FreeRunGrants(x: seq<Blk>, p: nat)
    requires AllFree(x) && AllOk(x)
    ensures Grants(x, p) == [] && 2 * FreeSum(x) == |Flat(x)|
  {
    if x != [] { FreeRunGrants(x[1..], p + 2 * x[0].size); }
  }

  /** Replacing blocks by blocks of the same extent moves nothing else. */
  lemma GrantsPatch(a: seq<Blk>, x: seq<Blk>, y: seq<Blk>, c: seq<Blk>, p: nat)
    requires AllOk(a) && AllOk(x) && AllOk(y) && |Flat(x)| == |Flat(y)|
    ensures var (q, r) := (p + |Flat(a)|, p + |Flat(a)| + |Flat(x)|);
      Grants(a + x + c, p) == Grants(a, p) + Grants(x, q) + Grants(c, r) &&
      Grants(a + y + c, p) == Grants(a, p) + Grants(y, q) + Grants(c, r) &&
      FreeSum(a + x + c) == FreeSum(a) + FreeSum(x) + FreeSum(c) &&
        FreeSum(a + y + c) == FreeSum(a) + FreeSum(y) + FreeSum(c)
  {
    hide Flat, Grants, FreeSum;
    GrantsAppend(a, x, p); GrantsAppend(a + x, c, p);
    GrantsAppend(a, y, p); GrantsAppend(a + y, c, p);
    FlatAppend(a, x); FlatAppend(a, y);
  }

  // ------------------------------------------------------------- block lists of a heap

  /** The prologue comes first; every other block is at least 16 bytes. */
  ghost predicate WellFormed(bs: seq<Blk>) {
    AllOk(bs) && bs != [] && bs[0] == PROLOGUE && forall i :: 1 <= i < |bs| ==> bs[i].size >= 2
  }

  /** The parts of a list of blocks, and what may stand in the middle. */
  lemma Replace(a: seq<Blk>, x: seq<Blk>, y: seq<Blk>, c: seq<Blk>)
    requires AllOk(a + x + c) && WellFormed(a + c) && a != [] && forall i :: 0 <= i < |y| ==> Ok(y[i]) && y[i].size >= 2
    ensures WellFormed(a + y + c) && AllOk(a) && AllOk(x) && AllOk(y) && AllOk(c)
  {
    var s, t, w := a + x + c, a + y + c, a + c;
    forall i | 0 <= i < |t| ensures Ok(t[i]) && (i >= 1 ==> t[i].size >= 2) {
      if i < |a| {
        assert t[i] == w[i];
      } else if i >= |a| + |y| {
        assert t[i] == w[i - |y|];
      }
    }
    assert t[0] == w[0];
    forall i | 0 <= i < |a| ensures Ok(a[i]) { assert a[i] == s[i]; }
    forall i | 0 <= i < |x| ensures Ok(x[i]) { assert x[i] == s[|a| + i]; }
    forall i | 0 <= i < |c| ensures Ok(c[i]) { assert c[i] == s[|a| + |x| + i]; }
  }

  /** Leaving out blocks after the prologue. */
  lemma Without(a: seq<Blk>, x: seq<Blk>, c: seq<Blk>)
    requires WellFormed(a + x + c) && a != []
    ensures WellFormed(a + c)
  {
    var s, w := a + x + c, a + c;
    forall i | 0 <= i < |w| ensures Ok(w[i]) && (i >= 1 ==> w[i].size >= 2) {
      if i < |a| { assert w[i] == s[i]; } else { assert w[i] == s[i + |x|]; }
    }
    assert w[0] == s[0];
  }

  lemma FlatPair(a: Blk, b: Blk)
    ensures Flat([a, b]) == Flat1(a) + Flat1(b)
  {
    assert [a, b] == [a] + [b];
    FlatAppend([a], [b]);
    FlatOne(a); FlatOne(b);
  }

  /** Writing equal tags at both ends of the blocks `x` makes them one block. */
  lemma Fused(m: seq<Word>, m': seq<Word>, E: nat, a: seq<Blk>, x: seq<Blk>, c: seq<Blk>, size: nat, live: bool)
    requires Spells(m, E, a + x + c) && AllOk(a + x + c) && WellFormed(a + c) && a != [] && |Flat(x)| == 2 * size &&
      size >= 2
    requires At(a) + 2 * size <= |m|
    requires m' == m[At(a) - 1 := Pack(size, live)][At(a) + 2 * size - 2 := Pack(size, live)]
    ensures var y := [BlockOf(m', At(a), size, live)];
      Spells(m', E, a + y + c) && WellFormed(a + y + c) && |Flat(y)| == |Flat(x)|
  {
    hide Flat, WellFormed, Spells;
    var y, lo := [BlockOf(m', At(a), size, live)], At(a) - 1;
    BlockOfFlat(m', At(a), size, live);
    Replace(a, x, y, c);
    Patch(m, m', E, a, x, y, c);
  }

  /** No block from number `i` up to `j` can hold `asize` double words. */
  ghost predicate NoFit(bs: seq<Blk>, i: nat, j: nat, asize: nat)
    requires j <= |bs|
  {
    forall k :: i <= k < j ==> bs[k].live || bs[k].size < asize
  }

  /** Memory after place has split a block. */
  lemma Halved(m: seq<Word>, m': seq<Word>, E: nat, a: seq<Blk>, b: Blk, c: seq<Blk>, d: nat)
    requires Spells(m, E, a + [b] + c) && WellFormed(a + [b] + c) && a != [] && 2 <= d && d + 2 <= b.size &&
      At(a) + 2 * b.size <= |m|
    requires var (p, q) := (At(a), At(a) + 2 * d);
      m' == m[p - 1 := Pack(d, true)][q - 2 := Pack(d, true)][q - 1 := Pack(b.size - d, false)]
        [p + 2 * b.size - 2 := Pack(b.size - d, false)]
    ensures |b.body| == 2 * b.size - 2
    ensures var y := [Blk(d, true, b.body[..2 * d - 2]), Blk(b.size - d, false, b.body[2 * d..])];
      Spells(m', E, a + y + c) && WellFormed(a + y + c) && |Flat(y)| == |Flat([b])|
  {
    hide Flat, WellFormed, Spells, AllOk, Pack;
    AllOkOf(a + [b] + c);
    Without(a, [b], c);
    Replace(a, [b], [], c);
    InList([b], 0);
    var y0, y1 := Blk(d, true, b.body[..2 * d - 2]), Blk(b.size - d, false, b.body[2 * d..]);
    FlatPair(y0, y1); FlatOne(b);
    Replace(a, [b], [y0, y1], c);
    Focus(m, E, a, b, c);
    HalvedWords(m, m', At(a), b, d);
    Patch(m, m', E, a, [b], [y0, y1], c);
  }

  lemma PackSize(d: nat, live: bool)
    ensures Pack(d, live).hi == d && Pack(d, live).b0 == live
  {
  }

  lemma PackHi(d: nat, live: bool)
    ensures Pack(d, live).hi == d
  {
  }

  lemma AllOkOf(bs: seq<Blk>)
    requires WellFormed(bs)
    ensures AllOk(bs) && bs != []
  {
  }

  lemma HalvedWords(m: seq<Word>, m': seq<Word>, p: nat, b: Blk, d: nat)
    requires 2 <= p && Ok(b) && 2 <= d && d + 2 <= b.size && p + 2 * b.size <= |m| && m[p..p + 2 * b.size - 2] == b.body
    requires m' == m[p - 1 := Pack(d, true)][p + 2 * d - 2 := Pack(d, true)][p + 2 * d - 1 := Pack(b.size - d, false)]
      [p + 2 * b.size - 2 := Pack(b.size - d, false)]
    ensures m'[p - 1..p - 1 + 2 * b.size] == Flat1(Blk(d, true, b.body[..2 * d - 2])) + Flat1(Blk(b.size - d, false,
      b.body[2 * d..]))
  {
    hide Pack;
    var l := m'[p - 1..p - 1 + 2 * b.size];
    var r := Flat1(Blk(d, true, b.body[..2 * d - 2])) + Flat1(Blk(b.size - d, false, b.body[2 * d..]));
    assert |l| == |r|;
    forall i | 0 <= i < |l| ensures l[i] == r[i] {
      if 1 <= i < 2 * b.size - 1 { assert m[p - 1 + i] == b.body[i - 1]; }
    }
  }

  /** Memory after extend_heap's PUTs. */
  lemma Appended(m: seq<Word>, m': seq<Word>, E: nat, bs: seq<Blk>, d: nat)
    requires Spells(m, E, bs) && WellFormed(bs) && d >= 1 && E + 2 * d <= |m|
    requires m' == m[E - 1 := Pack(d, false)][E + 2 * d - 2 := Pack(d, false)][E + 2 * d - 1 := EPILOGUE]
    ensures var b := BlockOf(m', E, d, false);
      Spells(m', E + 2 * d, bs + [b]) && AllOk(bs + [b]) && At(bs) == E && At(bs + [b]) == E + 2 * d
  {
    hide Flat;
    var b := BlockOf(m', E, d, false);
    FlatAppend(bs, [b]);
    BlockOfFlat(m', E, d, false);
    assert m'[1..E - 1] == m[1..E - 1];
    assert m'[1..E + 2 * d - 1] == m'[1..E - 1] + m'[E - 1..E + 2 * d - 1];
  }

  class ImplicitHeap {
    const mem: array<Word>
    var brk: nat
    var epilogue: nat
    var rover: nat              // last_fit_ptr
    ghost var bs: seq<Blk>      // the blocks in address order, prologue first
    ghost var at: nat           // how many of them lie before the rover

    /** Memory is the block list, written out, and the rover is at a block boundary or the epilogue. */
    ghost predicate Valid()
      reads this, mem
    {
      Spells(mem[..], brk, bs) && WellFormed(bs) && epilogue + 1 == brk && at <= |bs| && rover == At(bs[..at])
    }

    /** The header found at the k-th boundary. */
    lemma HeadAt(k: nat)
      requires Spells(mem[..], brk, bs) && WellFormed(bs) && k <= |bs|
      ensures var p := At(bs[..k]);
        2 <= p <= brk <= mem.Length && mem[p - 1] == (if k < |bs| then Tag(bs[k]) else EPILOGUE) &&
          (p == brk <==> k == |bs|)
      ensures k < |bs| ==> At(bs[..k + 1]) == At(bs[..k]) + 2 * bs[k].size && bs[k].size >= 1
    {
      hide Flat;
      if k < |bs| {
        assert bs == bs[..k] + [bs[k]] + bs[k + 1..];
        assert bs[..k + 1] == bs[..k] + [bs[k]];
        Focus(mem[..], brk, bs[..k], bs[k], bs[k + 1..]);
      } else {
        assert bs[..k] == bs;
      }
    }

    /** Boundaries grow with their number. */
    lemma {:induction false} Boundaries(i: nat, j: nat)
      requires Spells(mem[..], brk, bs) && WellFormed(bs) && i < j <= |bs|
      ensures At(bs[..i]) < At(bs[..j])
      decreases j
    {
      HeadAt(j - 1);
      if i < j - 1 { Boundaries(i, j - 1); }
    }

    // ------------------------------------------------------------- searching

    /** best_fit of mm_linkedlist_firstfit.c: the first free block that is big enough, or null. */
    method FirstFit(asize: nat) returns (ptr: nat, ghost k: nat)
      requires Valid()
      ensures k <= |bs| && NoFit(bs, 0, k, asize) && (ptr == 0 <==> k == |bs|)
      ensures ptr != 0 ==> ptr == At(bs[..k]) && !bs[k].live && asize <= bs[k].size
    {
      hide Spells, WellFormed, At;
      ptr, k := 2, 0;
      HeadAt(0);
      StartAt();
      while mem[ptr - 1].hi > 0
        invariant k <= |bs| && ptr == At(bs[..k]) && 2 <= ptr <= mem.Length && NoFit(bs, 0, k, asize)
        invariant mem[ptr - 1] == if k < |bs| then Tag(bs[k]) else EPILOGUE
        decreases |bs| - k
      {
        HeadAt(k);
        if !mem[ptr - 1].b0 && asize <= mem[ptr - 1].hi {
          return;
        }
        ptr := ptr + 2 * mem[ptr - 1].hi;
        k := k + 1;
        HeadAt(k);
      }
      if k < |bs| { HeadAt(k); }
      ptr := 0;
    }

    lemma StartAt()
      ensures At(bs[..0]) == 2
    {
    }

    /** next_fit: the first free block that is big enough, searching from the rover to the end and then
        from the start to the rover; null exactly when no block is. */
    method NextFit(asize: nat) returns (ptr: nat, ghost k: nat)
      requires Valid()
      modifies `rover, `at
      ensures Valid() && k <= |bs| && (ptr == 0 <==> k == |bs|)
      ensures ptr == 0 ==> NoFit(bs, 0, |bs|, asize) && at == old(at)
      ensures ptr != 0 ==> ptr == At(bs[..k]) && !bs[k].live && asize <= bs[k].size && at == k
      ensures ptr != 0 ==>
        if old(at) <= k then NoFit(bs, old(at), k, asize) else NoFit(bs, old(at), |bs|, asize) && NoFit(bs, 0, k, asize)
    {
      hide Spells, WellFormed, At, NoFit;
      ptr, k := rover, at;
      HeadAt(k);
      NoneYet(bs, k, asize);
      while mem[ptr - 1].hi > 0
        invariant Valid() && at == old(at) && at <= k <= |bs| && ptr == At(bs[..k]) && 2 <= ptr <= mem.Length &&
          NoFit(bs, at, k, asize)
        invariant mem[ptr - 1] == if k < |bs| then Tag(bs[k]) else EPILOGUE
        decreases |bs| - k
      {
        HeadAt(k);
        if !mem[ptr - 1].b0 && asize <= mem[ptr - 1].hi {
          rover, at := ptr, k;
          return;
        }
        NoFitMore(bs, at, k, asize);
        ptr := ptr + 2 * mem[ptr - 1].hi;
        k := k + 1;
        HeadAt(k);
      }
      if k < |bs| { HeadAt(k); }
      ptr, k := NextFitWrap(asize);
    }

    lemma NoneYet(bs: seq<Blk>, k: nat, asize: nat)
      requires k <= |bs|
      ensures NoFit(bs, k, k, asize)
    {
    }

    lemma NoFitMore(bs: seq<Blk>, i: nat, k: nat, asize: nat)
      requires k < |bs| && NoFit(bs, i, k, asize) && (bs[k].live || bs[k].size < asize)
      ensures NoFit(bs, i, k + 1, asize)
    {
    }

    lemma NoFitAll(bs: seq<Blk>, k: nat, asize: nat)
      requires k <= |bs| && NoFit(bs, 0, k, asize) && NoFit(bs, k, |bs|, asize)
      ensures NoFit(bs, 0, |bs|, asize)
    {
    }

    /** The second loop of next_fit, from the start of the heap to the rover. */
    method NextFitWrap(asize: nat) returns (ptr: nat, ghost k: nat)
      requires Valid() && NoFit(bs, at, |bs|, asize)
      modifies `rover, `at
      ensures Valid() && k <= |bs| && (ptr == 0 <==> k == |bs|)
      ensures ptr == 0 ==> NoFit(bs, 0, |bs|, asize) && at == old(at)
      ensures ptr != 0 ==>
        ptr == At(bs[..k]) && !bs[k].live && asize <= bs[k].size && at == k < old(at) && NoFit(bs, 0, k, asize)
    {
      hide Spells, WellFormed, At, NoFit;
      ptr, k := 2, 0;
      StartAt();
      HeadAt(0);
      NoneYet(bs, 0, asize);
      if 0 < at { Boundaries(0, at); }
      while ptr < rover
        invariant Valid() && at == old(at) && k <= at <= |bs| && ptr == At(bs[..k]) && 2 <= ptr <= mem.Length &&
          NoFit(bs, 0, k, asize)
        invariant mem[ptr - 1] == if k < |bs| then Tag(bs[k]) else EPILOGUE
        invariant ptr < rover <==> k < at
        decreases at - k
      {
        HeadAt(k);
        if !mem[ptr - 1].b0 && asize <= mem[ptr - 1].hi {
          rover, at := ptr, k;
          return;
        }
        NoFitMore(bs, 0, k, asize);
        ptr := ptr + 2 * mem[ptr - 1].hi;
        k := k + 1;
        HeadAt(k);
        if k < at { Boundaries(k, at); }
      }
      NoFitAll(bs, k, asize);
      ptr, k := 0, |bs|;
    }

    // ------------------------------------------------------------- placing

    /** Everything but the rover is in order. */
    ghost predicate Laid()
      reads this, mem
    {
      Spells(mem[..], brk, bs) && WellFormed(bs) && epilogue + 1 == brk
    }

    /** The PUTs of place that split a block. */
    method PlaceFront(ptr: nat, csize: nat, asize: nat, ghost a: seq<Blk>, ghost b: Blk, ghost c: seq<Blk>)
        returns (ghost g: Blk)
      requires Laid() && bs == a + [b] + c && a != [] && 4 <= ptr == At(a) && csize == b.size && 2 <= asize &&
        asize + 2 <= b.size
      requires Ok(b) && ptr + 2 * b.size <= mem.Length
      modifies this, mem
      ensures Valid() && brk == old(brk) && at == |a| + 1 && Ok(g) && g == Blk(asize, true, b.body[..2 * asize - 2])
      ensures bs == a + [g, Blk(b.size - asize, false, b.body[2 * asize..])] + c
    {
      hide Spells, WellFormed, Flat, Pack;
      ghost var m := mem[..];
      g := Blk(asize, true, b.body[..2 * asize - 2]);
      ghost var rest := Blk(b.size - asize, false, b.body[2 * asize..]);
      mem[ptr - 1] := Pack(asize, true);
      PackSize(asize, true);
      mem[ptr + 2 * mem[ptr - 1].hi - 2] := Pack(asize, true);
      var next := ptr + 2 * mem[ptr - 1].hi;
      mem[next - 1] := Pack(csize - asize, false);
      PackSize(csize - asize, false);
      mem[next + 2 * mem[next - 1].hi - 2] := Pack(csize - asize, false);
      rover := next;
      Halved(m, mem[..], brk, a, b, c, asize);
      bs, at := a + [g, rest] + c, |a| + 1;
      FlatAppend(a, [g]); FlatOne(g);
      assert bs[..at] == a + [g];
    }

    /** place: takes `asize` double words at the front of block `b`, and splits off the rest when it
        makes a block.  What `b` held at the front stays, and the rover is right behind. */
    method Place(ptr: nat, asize: nat, ghost a: seq<Blk>, ghost b: Blk, ghost c: seq<Blk>) returns (ghost g: Blk)
      requires Laid() && bs == a + [b] + c && a != [] && ptr == At(a) && 2 <= asize <= b.size
      modifies this, mem
      ensures Valid() && brk == old(brk) && g.live && Ok(g) && Ok(b) && ptr >= 4
      ensures at == |a| + 1 && rover == ptr + 2 * g.size
      ensures if b.size - asize >= 2
        then g == Blk(asize, true, b.body[..2 * asize - 2]) &&
          bs == a + [g, Blk(b.size - asize, false, b.body[2 * asize..])] + c
        else g == Blk(b.size, true, b.body) && bs == a + [g] + c
    {
      hide Spells, WellFormed, Flat, Pack;
      AllOkOf(bs);
      Focus(mem[..], brk, a, b, c);
      assert (a + [b] + c)[|a|] == b;
      ghost var m, p := mem[..], ptr;
      var csize := mem[ptr - 1].hi;
      PackSize(b.size, b.live);
      if csize - asize >= 2 {
        g := PlaceFront(ptr, csize, asize, a, b, c);
        Behind(a, g, bs[|a| + 1..]);
      } else {
        g := Blk(b.size, true, b.body);
        mem[ptr - 1] := Pack(csize, true);
        PackSize(csize, true);
        mem[ptr + 2 * mem[ptr - 1].hi - 2] := Pack(csize, true);
        rover := ptr + 2 * mem[ptr - 1].hi;
        FlatOne(b); FlatOne(g);
        Without(a, [b], c);
        Fused(m, mem[..], brk, a, [b], c, b.size, true);
        assert mem[..][ptr..ptr + 2 * b.size - 2] == m[ptr..ptr + 2 * b.size - 2];
        bs, at := a + [g] + c, |a| + 1;
        FlatAppend(a, [g]);
        assert bs[..at] == a + [g];
      }
    }

    lemma Behind(a: seq<Blk>, g: Blk, c: seq<Blk>)
      requires bs == a + [g] + c && Ok(g)
      ensures bs[..|a| + 1] == a + [g] && At(bs[..|a| + 1]) == At(a) + 2 * g.size
    {
      FlatAppend(a, [g]); FlatOne(g);
    }

    // ------------------------------------------------------------- coalescing

    /** The memory is right, and the rover anywhere; the blocks are `a`, then free block `b`, then `c`. */
    ghost predicate Around(a: seq<Blk>, b: Blk, c: seq<Blk>)
      reads this, mem
    {
      Spells(mem[..], brk, bs) && AllOk(bs) && epilogue + 1 == brk && bs == a + [b] + c && a != [] &&
        WellFormed(a + c) && !b.live
    }

    /** coalesce: merges `b` with all free blocks before it and all free blocks after it, one round of
        neighbours at a time, and leaves the rover at the result. */
    method Coalesce(ptr: nat, ghost a: seq<Blk>, ghost b: Blk, ghost c: seq<Blk>)
      returns (r: nat, ghost a': seq<Blk>, ghost u: seq<Blk>, ghost v: seq<Blk>, ghost c': seq<Blk>, ghost d: Blk)
      requires Around(a, b, c) && ptr == At(a)
      requires b.size >= 2 || !a[|a| - 1].live
      modifies this, mem
      ensures Valid() && brk == old(brk) && bs == a' + [d] + c' && r == At(a') && r == rover && at == |a'| && a' != []
      ensures a == a' + u && c == v + c' && AllFree(u) && AllFree(v)
      ensures a'[|a'| - 1].live && (c' != [] ==> c'[0].live)
      ensures !d.live && Ok(d) && |Flat([d])| == |Flat(u + [b] + v)|
      decreases |a| + |c|
    {
      hide Spells, WellFormed, Flat, Pack, AllOk, At;
      var merged;
      ghost var u0, v0, a1, c1, d1;
      merged, r, a1, u0, v0, c1, d1 := Round(ptr, a, b, c);
      if !merged {
        a', u, v, c', d := a, [], [], c, b;
        assert u + [b] + v == [b];
        return;
      }
      r, a', u, v, c', d := Coalesce(r, a1, d1, c1);
      Widened(u, u0, b, v0, v, d1, d);
      assert a == a' + (u + u0) && c == (v0 + v) + c';
      u, v := u + u0, v0 + v;
    }

    /** One round: merges the block with the neighbours that are free, if any. */
    method Round(ptr: nat, ghost a: seq<Blk>, ghost b: Blk, ghost c: seq<Blk>)
      returns (merged: bool, r: nat, ghost a1: seq<Blk>, ghost u: seq<Blk>, ghost v: seq<Blk>, ghost c1: seq<Blk>,
        ghost d: Blk)
      requires Around(a, b, c) && ptr == At(a) && (b.size >= 2 || !a[|a| - 1].live)
      modifies this, mem
      ensures brk == old(brk) && rover == r
      ensures !merged ==>
        Valid() && bs == old(bs) && mem[..] == old(mem[..]) && r == ptr && at == |a| && a[|a| - 1].live &&
        (c != [] ==> c[0].live) && Ok(b)
      ensures merged ==> Around(a1, d, c1) && r == At(a1) && d.size >= 2 && |Flat([d])| == |Flat(u + [b] + v)|
      ensures merged ==> a == a1 + u && c == v + c1 && AllFree(u) && AllFree(v) && |a1| + |c1| < |a| + |c|
    {
      hide Spells, WellFormed, Flat, Pack, AllOk, At;
      ghost var l := a[|a| - 1];
      Bits(a, b, c);
      var prev := ptr - 2 * mem[ptr - 2].hi;
      var prevAlloc := mem[prev + 2 * mem[prev - 1].hi - 2].b0;
      var nextAlloc := mem[ptr + 2 * mem[ptr - 1].hi - 1].b0;
      var size := mem[ptr - 1].hi;
      merged := !(prevAlloc && nextAlloc);
      if prevAlloc && nextAlloc {
        r, a1, u, v, c1, d := ptr, a, [], [], c, b;
        Settled(a, b, c);
        at := |a|;
        assert bs[..at] == a;
      } else if prevAlloc {
        r, d := MergeNext(ptr, size, a, b, c);
        a1, u, v, c1 := a, [], [c[0]], c[1..];
      } else if nextAlloc {
        r, d := MergePrev(ptr, size, a, b, c);
        a1, u, v, c1 := a[..|a| - 1], [l], [], c;
      } else {
        r, d := MergeBoth(ptr, size, a, b, c);
        a1, u, v, c1 := a[..|a| - 1], [l], [c[0]], c[1..];
      }
      rover := r;
    }

    /** The words a round of coalesce looks at. */
    lemma Bits(a: seq<Blk>, b: Blk, c: seq<Blk>)
      requires Around(a, b, c)
      ensures var (p, l) := (At(a), a[|a| - 1]);
        4 <= p && p + 2 * b.size <= mem.Length && mem[p - 1].hi == b.size && b.size >= 1 && Ok(b) &&
        (mem[p + 2 * b.size - 1].b0 <==> c == [] || c[0].live) && mem[p - 2].hi == l.size &&
        2 <= p - 2 * l.size && mem[p - 2 * l.size - 1].hi == l.size && (mem[p - 2].b0 <==> l.live)
    {
      hide Spells, WellFormed, Flat, Pack, AllOk;
      var a0, l := a[..|a| - 1], a[|a| - 1];
      assert a == a0 + [l] && a + [b] + c == a0 + [l] + ([b] + c);
      Focus(mem[..], brk, a, b, c);
      Focus(mem[..], brk, a0, l, [b] + c);
      PackSize(b.size, b.live);
      PackSize(l.size, l.live);
      PackSize(0, true);
      if c != [] { PackSize(c[0].size, c[0].live); }
      assert Ok(b) by { assert (a + [b] + c)[|a|] == b; InList(a + [b] + c, |a|); }
    }

    lemma Settled(a: seq<Blk>, b: Blk, c: seq<Blk>)
      requires Around(a, b, c) && b.size >= 2
      ensures WellFormed(bs)
    {
      assert Ok((a + [b] + c)[|a|]);
      Replace(a, [b], [b], c);
    }

    /** Equal tags around the blocks `x` make them one free block. */
    ghost method Merge(m: seq<Word>, a: seq<Blk>, x: seq<Blk>, c: seq<Blk>, size: nat) returns (d: Blk)
      requires Spells(m, brk, bs) && AllOk(bs) && bs == a + x + c && a != [] && WellFormed(a + c) && epilogue + 1 == brk
      requires |Flat(x)| == 2 * size && size >= 2 && At(a) + 2 * size <= |m|
      requires mem[..] == m[At(a) - 1 := Pack(size, false)][At(a) + 2 * size - 2 := Pack(size, false)]
      modifies `bs
      ensures Around(a, d, c) && d.size >= 2 && |Flat([d])| == |Flat(x)|
    {
      hide Spells, WellFormed, Flat, Pack, AllOk;
      d := BlockOf(mem[..], At(a), size, false);
      Fused(m, mem[..], brk, a, x, c, size, false);
      bs := a + [d] + c;
      AllOkOf(bs);
    }

    /** What case 2 reads. */
    lemma NextParts(a: seq<Blk>, b: Blk, c: seq<Blk>)
      requires Around(a, b, c) && c != [] && !c[0].live
      ensures var (n, c1, p) := (c[0], c[1..], At(a));
        bs == a + [b, n] + c1 && WellFormed(a + c1) && |Flat([b, n])| == 2 * (b.size + n.size) && b.size >= 1 &&
          n.size >= 2 &&
        p + 2 * b.size + 2 * n.size <= mem.Length && mem[p - 1].hi == b.size && mem[p + 2 * b.size - 1].hi == n.size &&
        mem[p + 2 * b.size + 2 * n.size - 2].hi == n.size
    {
      hide Spells, WellFormed, Flat, Pack, AllOk;
      var m, n, c1 := mem[..], c[0], c[1..];
      assert c == [n] + c1 && a + [b] + c == (a + [b]) + [n] + c1 && a + [b] + c == a + [b, n] + c1;
      Focus(m, brk, a, b, c);
      Focus(m, brk, a + [b], n, c1);
      PackSize(b.size, b.live); PackSize(n.size, n.live);
      FlatPair(b, n);
      assert Ok(b) && Ok(n) by { InList(a + [b] + c, |a|); InList(a + [b] + c, |a| + 1); }
      NextSize(a, c);
      assert a + [n] + c1 == a + c;
      Without(a, [n], c1);
    }

    /** What case 3 reads. */
    lemma PrevParts(a: seq<Blk>, b: Blk, c: seq<Blk>)
      requires Around(a, b, c) && !a[|a| - 1].live
      ensures var (a0, l, p) := (a[..|a| - 1], a[|a| - 1], At(a));
        bs == a0 + [l, b] + c && WellFormed(a0 + c) && a0 != [] && |Flat([l, b])| == 2 * (l.size + b.size) &&
          l.size >= 2 && b.size >= 1 &&
        p == At(a0) + 2 * l.size && p + 2 * b.size <= mem.Length && mem[p - 1].hi == b.size &&
          mem[p - 2].hi == l.size && mem[p - 2 * l.size - 1].hi == l.size
    {
      hide Spells, WellFormed, Flat, Pack, AllOk;
      var m, a0, l := mem[..], a[..|a| - 1], a[|a| - 1];
      assert a == a0 + [l] && a + [b] + c == a0 + [l] + ([b] + c) && a + [b] + c == a0 + [l, b] + c;
      Focus(m, brk, a, b, c);
      Focus(m, brk, a0, l, [b] + c);
      PackSize(b.size, b.live); PackSize(l.size, l.live);
      FlatPair(l, b);
      assert Ok(l) && Ok(b) by { InList(a + [b] + c, |a| - 1); InList(a + [b] + c, |a|); }
      NextSize(a, c);
      Without(a0, [l], c);
    }

    /** What case 4 needs besides. */
    lemma BothParts(a: seq<Blk>, b: Blk, c: seq<Blk>)
      requires Around(a, b, c) && !a[|a| - 1].live && c != [] && !c[0].live
      ensures var (a0, l, n, c1) := (a[..|a| - 1], a[|a| - 1], c[0], c[1..]);
        bs == a0 + ([l] + [b] + [n]) + c1 && WellFormed(a0 + c1) &&
          |Flat([l] + [b] + [n])| == 2 * (l.size + b.size + n.size)
    {
      hide Spells, WellFormed, Flat, Pack, AllOk;
      var a0, l, n, c1 := a[..|a| - 1], a[|a| - 1], c[0], c[1..];
      assert a == a0 + [l] && c == [n] + c1 && a + [b] + c == a0 + ([l] + [b] + [n]) + c1;
      FlatAppend([l] + [b], [n]); FlatAppend([l], [b]); FlatOne(l); FlatOne(b); FlatOne(n);
      assert Ok(l) && Ok(b) && Ok(n) by {
        InList(a + [b] + c, |a| - 1);
        InList(a + [b] + c, |a|);
        InList(a + [b] + c, |a| + 1);
      }
      assert a0 + ([l] + [n]) + c1 == a + c;
      NextSize(a, c);
      Without(a0, [l] + [n], c1);
    }

    /** Case 2. */
    method MergeNext(ptr: nat, size0: nat, ghost a: seq<Blk>, ghost b: Blk, ghost c: seq<Blk>)
        returns (r: nat, ghost d: Blk)
      requires Around(a, b, c) && ptr == At(a) && size0 == b.size && c != [] && !c[0].live
      modifies this, mem
      ensures brk == old(brk) && Around(a, d, c[1..]) && r == At(a) && d.size >= 2 &&
        |Flat([d])| == |Flat([] + [b] + [c[0]])|
    {
      hide Spells, WellFormed, Flat, Pack, AllOk;
      ghost var m, n := mem[..], c[0];
      NextParts(a, b, c);
      assert [] + [b] + [n] == [b, n];
      var size := size0 + mem[ptr + 2 * mem[ptr - 1].hi - 1].hi;
      mem[ptr - 1] := Pack(size, false);
      PackSize(size, false);
      mem[ptr + 2 * mem[ptr - 1].hi - 2] := Pack(size, false);
      r := ptr;
      d := Merge(m, a, [b, n], c[1..], size);
    }

    /** Case 3. */
    method MergePrev(ptr: nat, size0: nat, ghost a: seq<Blk>, ghost b: Blk, ghost c: seq<Blk>)
        returns (r: nat, ghost d: Blk)
      requires Around(a, b, c) && ptr == At(a) && size0 == b.size && !a[|a| - 1].live
      modifies this, mem
      ensures brk == old(brk) && a[..|a| - 1] != [] && Around(a[..|a| - 1], d, c) && r == At(a[..|a| - 1]) &&
        d.size >= 2
      ensures |Flat([d])| == |Flat([a[|a| - 1]] + [b] + [])|
    {
      hide Spells, WellFormed, Flat, Pack, AllOk;
      ghost var m, l := mem[..], a[|a| - 1];
      PrevParts(a, b, c);
      assert [l] + [b] + [] == [l, b];
      var size := size0 + mem[ptr - 2 * mem[ptr - 2].hi - 1].hi;
      mem[ptr - 2 * mem[ptr - 2].hi - 1] := Pack(size, false);
      mem[ptr + 2 * mem[ptr - 1].hi - 2] := Pack(size, false);
      r := ptr - 2 * mem[ptr - 2].hi;
      d := Merge(m, a[..|a| - 1], [l, b], c, size);
    }

    /** Case 4. */
    method MergeBoth(ptr: nat, size0: nat, ghost a: seq<Blk>, ghost b: Blk, ghost c: seq<Blk>)
        returns (r: nat, ghost d: Blk)
      requires Around(a, b, c) && ptr == At(a) && size0 == b.size && !a[|a| - 1].live && c != [] && !c[0].live
      modifies this, mem
      ensures brk == old(brk) && a[..|a| - 1] != [] && Around(a[..|a| - 1], d, c[1..]) && r == At(a[..|a| - 1]) &&
        d.size >= 2
      ensures |Flat([d])| == |Flat([a[|a| - 1]] + [b] + [c[0]])|
    {
      hide Spells, WellFormed, Flat, Pack, AllOk;
      ghost var m, a0, l, n, c1 := mem[..], a[..|a| - 1], a[|a| - 1], c[0], c[1..];
      PrevParts(a, b, c); NextParts(a, b, c); BothParts(a, b, c);
      var next := ptr + 2 * mem[ptr - 1].hi;
      var size := size0 + mem[ptr - 2 * mem[ptr - 2].hi - 1].hi + mem[next + 2 * mem[next - 1].hi - 2].hi;
      mem[ptr - 2 * mem[ptr - 2].hi - 1] := Pack(size, false);
      PackSize(size, false);
      r := ptr - 2 * mem[ptr - 2].hi;
      mem[r + 2 * mem[r - 1].hi - 2] := Pack(size, false);
      d := Merge(m, a0, [l] + [b] + [n], c1, size);
    }

    // ------------------------------------------------------------- extending

    /** mem_sbrk and the PUTs of extend_heap. */
    method AppendFree(d: nat) returns (ptr: int, ghost b: Blk)
      requires Valid() && d >= 1
      modifies this, mem
      ensures ptr == -1 <==> old(brk) + 2 * d > mem.Length
      ensures ptr == -1 ==> Valid() && bs == old(bs) && brk == old(brk) && mem[..] == old(mem[..]) && at == old(at)
      ensures ptr != -1 ==>
        Around(old(bs), b, []) && brk == old(brk) + 2 * d && ptr == At(old(bs)) && b.size == d && old(bs) != [] && Ok(b)
    {
      hide Spells, WellFormed, Flat, Pack;
      ghost var m0, E, bs0 := mem[..], brk, bs;
      HeadAt(|bs|);
      assert bs[..|bs|] == bs;
      AllOkOf(bs);
      b := PROLOGUE;
      ptr, brk := Memlib.Sbrk(brk, 2 * d, mem.Length);
      if ptr == -1 {
        return;
      }
      mem[ptr - 1] := Pack(d, false);
      PackSize(d, false);
      mem[ptr + 2 * mem[ptr - 1].hi - 2] := Pack(d, false);
      mem[ptr + 2 * mem[ptr - 1].hi - 1] := Pack(0, true);
      epilogue := ptr + 2 * mem[ptr - 1].hi - 1;
      Appended(m0, mem[..], E, bs, d);
      b := BlockOf(mem[..], E, d, false);
      bs := bs0 + [b];
      assert bs == bs0 + [b] + [] && bs0 + [] == bs0;
    }

    /** extend_heap for `d` double words: null when memlib has no more, else the free block at the end,
        merged with the free blocks before it. */
    method ExtendHeap(d: nat) returns (r: nat, ghost a: seq<Blk>, ghost u: seq<Blk>, ghost g: Blk)
      requires Valid() && d >= 1 && (d >= 2 || !bs[|bs| - 1].live)
      modifies this, mem
      ensures r == 0 <==> old(brk) + 2 * d > mem.Length
      ensures r == 0 ==> Valid() && bs == old(bs) && brk == old(brk) && mem[..] == old(mem[..]) && at == old(at)
      ensures r != 0 ==>
        Valid() && brk == old(brk) + 2 * d && bs == a + [g] && a != [] && r == At(a) && !g.live && Ok(g) &&
        rover == r
      ensures r != 0 ==> old(bs) == a + u && AllFree(u) && a[|a| - 1].live && 2 * g.size == |Flat(u)| + 2 * d
    {
      hide Spells, WellFormed, Flat, Pack, Around;
      ghost var bs0 := bs;
      a, u, g := bs, [], PROLOGUE;
      var ptr;
      ghost var b, v, c;
      ptr, b := AppendFree(d);
      if ptr == -1 {
        return 0, bs, [], PROLOGUE;
      }
      r, a, u, v, c, g := Coalesce(ptr, bs0, b, []);
      assert v == [] && c == [] && a + [g] + c == a + [g] && u + [b] + v == u + [b];
      FlatOne(g);
      FlatAppend(u, [b]); FlatOne(b);
    }

    // ------------------------------------------------------------- mm_malloc

    lemma LastBlock()
      requires Valid()
      ensures 2 <= epilogue < mem.Length && |bs| > 0 && mem[epilogue - 1] == Tag(bs[|bs| - 1])
      ensures var q := epilogue - 2 * bs[|bs| - 1].size + 1; 1 <= q <= mem.Length && mem[q - 1] == Tag(bs[|bs| - 1])
    {
      hide Flat, Pack;
      var a, l := bs[..|bs| - 1], bs[|bs| - 1];
      assert bs == a + [l] + [];
      Focus(mem[..], brk, a, l, []);
    }

    /** mm_malloc with either search.  `j` counts the grants before the new one. */
    method Malloc(size: nat, useRover: bool) returns (r: nat, ghost j: nat, ghost g: Grant)
      requires Valid()
      modifies this, mem
      ensures Valid()
      ensures r == 0 ==>
        bs == old(bs) && brk == old(brk) && mem[..] == old(mem[..]) && at == old(at) && rover == old(rover)
      ensures var (asize, last) := (AdjustedSize(size), old(bs)[|old(bs)| - 1]);
        r == 0 <==>
          size == 0 || (NoFit(old(bs), 0, |old(bs)|, asize) &&
            old(brk) + 2 * (Max(asize, 512) - if last.live then 0 else last.size) > mem.Length)
      ensures r != 0 ==> size > 0 && g.ptr == r >= 4 && AdjustedSize(size) <= g.size <= AdjustedSize(size) + 1
      ensures r != 0 ==>
        j <= |old(Grants(bs, 2))| && Grants(bs, 2) == old(Grants(bs, 2))[..j] + [g] + old(Grants(bs, 2))[j..]
      ensures r != 0 ==> rover == r + 2 * g.size
      ensures r != 0 ==> 2 * (FreeSum(bs) + g.size) == 2 * old(FreeSum(bs)) + brk - old(brk)
      ensures brk != old(brk) ==>
        NoFit(old(bs), 0, |old(bs)|, AdjustedSize(size)) && var last := old(bs)[|old(bs)| - 1];
        brk == old(brk) + 2 * (Max(AdjustedSize(size), 512) - if last.live then 0 else last.size)
      ensures r != 0 && brk == old(brk) ==>
        exists k: nat :: Chosen(old(bs), old(at), k, AdjustedSize(size), useRover, r)
      ensures r != 0 && brk == old(brk) ==> CutFrom(old(bs), r, AdjustedSize(size), bs)
      ensures r != 0 && brk != old(brk) ==> BehindLive(old(bs), r)
    {
      hide Spells, WellFormed, Flat, Pack, NoFit, Grants, FreeSum, At, Chosen, CutFrom, BehindLive, AllOk, Ok, Sliced;
      j, g := 0, Grant(0, 0, []);
      if size == 0 {
        return 0, 0, g;
      }
      var asize := AdjustedSize(size);
      var ptr;
      ghost var k;
      if useRover { ptr, k := NextFit(asize); } else { ptr, k := FirstFit(asize); }
      ghost var bs0 := bs;
      if ptr != 0 {
        ghost var a, b, c := bs[..k], bs[k], bs[k + 1..];
        assert bs == a + [b] + c;
        Fits(bs, k, asize);
        Choice(bs, old(at), k, asize, useRover, ptr);
        ghost var x := Place(ptr, asize, a, b, c);
        Granted(a, b, c, bs, asize, x);
        CutAt(a, b, c, ptr, asize, x, bs);
        r, j, g := ptr, |Grants(a, 2)|, Grant(ptr, x.size, x.body);
        return;
      }
      if k == |bs| { assert NoFit(bs, 0, |bs|, asize); }
      LastShort(bs, asize);
      r, j, g := MallocGrow(asize);
    }

    /** The rest of mm_malloc, when nothing fits: extend the heap and use the block at its end. */
    method MallocGrow(asize: nat) returns (r: nat, ghost j: nat, ghost g: Grant)
      requires Valid() && NoFit(bs, 0, |bs|, asize) && asize >= 2
      modifies this, mem
      ensures Valid()
      ensures r == 0 <==> old(brk) + 2 * Missing(old(bs), asize) > mem.Length
      ensures r == 0 ==> bs == old(bs) && brk == old(brk) && mem[..] == old(mem[..]) && at == old(at)
      ensures r != 0 ==>
        brk == old(brk) + 2 * Missing(old(bs), asize) > old(brk) && g.ptr == r >= 4 &&
        asize <= g.size <= asize + 1
      ensures r != 0 ==> rover == r + 2 * g.size && BehindLive(old(bs), r)
      ensures r != 0 ==>
        j <= |old(Grants(bs, 2))| && Grants(bs, 2) == old(Grants(bs, 2))[..j] + [g] + old(Grants(bs, 2))[j..]
      ensures r != 0 ==> 2 * (FreeSum(bs) + g.size) == 2 * old(FreeSum(bs)) + brk - old(brk)
    {
      hide Spells, WellFormed, Flat, Pack, NoFit, Grants, FreeSum, At, BehindLive;
      j, g := 0, Grant(0, 0, []);
      ghost var bs0 := bs;
      var extendsize := if asize > CHUNK then asize else CHUNK;
      LastBlock();
      LastShort(bs, asize);
      PackSize(bs[|bs| - 1].size, bs[|bs| - 1].live);
      var lastFree := epilogue - 2 * mem[epilogue - 1].hi + 1;
      if !mem[lastFree - 1].b0 {
        extendsize := extendsize - mem[lastFree - 1].hi;
      }
      var ptr;
      ghost var a, u, f;
      ptr, a, u, f := ExtendHeap(extendsize);
      if ptr == 0 {
        return 0, 0, g;
      }
      assert bs == a + [f] + [];
      LiveBehind(bs0, a, u, ptr);
      GrewEnough(bs0, a, u, f, extendsize, asize);
      ghost var x := Place(ptr, asize, a, f, []);
      Granted(a, f, [], bs, asize, x);
      Extended(bs0, a, u, f, extendsize);
      r, j, g := ptr, |Grants(a, 2)|, Grant(ptr, x.size, x.body);
    }

    // ------------------------------------------------------------- mm_free

    /** The rover is at a free block that reaches over word `p`. */
    ghost predicate OnFree(p: nat)
      reads this
    {
      at < |bs| && !bs[at].live && rover <= p < rover + 2 * bs[at].size
    }

    /** mm_free of the j-th grant: exactly that grant disappears, its size is free again, and the free
        block it is now part of has live neighbours. */
    method Release(ptr: nat, ghost j: nat) returns (ghost a: seq<Blk>, ghost d: Blk, ghost c: seq<Blk>)
      requires Valid() && j < |Grants(bs, 2)| && Grants(bs, 2)[j].ptr == ptr && ptr != 2
      modifies this, mem
      ensures Valid() && brk == old(brk)
      ensures Grants(bs, 2) == old(Grants(bs, 2))[..j] + old(Grants(bs, 2))[j + 1..]
      ensures FreeSum(bs) == old(FreeSum(bs)) + old(Grants(bs, 2)[j].size)
      ensures bs == a + [d] + c && !d.live && a != [] && a[|a| - 1].live && (c != [] ==> c[0].live)
      ensures rover == At(a) && at == |a| && OnFree(ptr)
    {
      hide Spells, WellFormed, Flat, Pack, Grants, FreeSum;
      AllOkOf(bs);
      ghost var k := Locate(bs, 2, j);
      ghost var bs0, m0, a0, b, c0 := bs, mem[..], bs[..k], bs[k], bs[k + 1..];
      assert bs == a0 + [b] + c0;
      LocatedAt(k, ptr);
      Focus(m0, brk, a0, b, c0);
      PackSize(b.size, b.live);
      var size := mem[ptr - 1].hi;
      mem[ptr - 1] := Pack(size, false);
      PackSize(size, false);
      mem[ptr + 2 * mem[ptr - 1].hi - 2] := Pack(size, false);
      FlatOne(b);
      Without(a0, [b], c0);
      Fused(m0, mem[..], brk, a0, [b], c0, size, false);
      ghost var b1 := BlockOf(mem[..], ptr, size, false);
      bs := a0 + [b1] + c0;
      AllOkOf(bs);
      var r;
      ghost var u, v;
      r, a, u, v, c, d := Coalesce(ptr, a0, b1, c0);
      ReleasedGrants(a, u, b, b1, v, c, d);
      GrantSplit(a0, b, c0);
      assert a0 + [b] + c0 == (a + u) + [b] + (v + c);
      MergedOver(a, u, b1, v, d);
      assert a0 == a + u;
    }

    /** The block behind a grant. */
    lemma LocatedAt(k: nat, ptr: nat)
      requires Valid() && k < |bs| && ptr == At(bs[..k]) && ptr != 2
      ensures k >= 1 && bs[..k] != [] && bs[k].size >= 2 && Ok(bs[k]) && ptr + 2 * bs[k].size <= brk
    {
      HeadAt(k);
      HeadAt(k + 1);
    }

    // ------------------------------------------------------------- mm_realloc

    /** What a successful mm_realloc of the j-th of the grants `G` promises: it is replaced by a grant `g`
        that is big enough and holds the same words as far as both reach; no other grant changes. */
    ghost predicate Regranted(G: seq<Grant>, j: nat, r: nat, i: nat, g: Grant, size: nat)
      reads this, mem
    {
      Valid() && j < |G| && i < |G| && g.ptr == r && size + 8 <= 8 * g.size && Agree(G[j].body, g.body) &&
      Grants(bs, 2) == Insert(Drop(G, j), i, g)
    }

    /** Live block `b`, perhaps just grown, is cut back to what is asked for. */
    method Recut(ptr: nat, size: nat, asize: nat, ghost G: seq<Grant>, ghost a: seq<Blk>, ghost b: Blk,
        ghost c: seq<Blk>, ghost o: Grant)
      returns (ghost g: Grant)
      requires Laid() && bs == a + [b] + c && a != [] && ptr == At(a) && asize <= b.size &&
        asize == AdjustedSize(size) && size > 0 && b.live
      requires Agree(o.body, b.body) && G == Grants(a, 2) + [o] + Grants(c, At(a) + 2 * b.size)
      modifies this, mem
      ensures Regranted(G, |Grants(a, 2)|, ptr, |Grants(a, 2)|, g, size) && brk == old(brk)
      ensures asize <= g.size <= asize + 1 && rover == ptr + 2 * g.size
    {
      hide Spells, WellFormed, Flat, Pack, Grants;
      ghost var x := Place(ptr, asize, a, b, c);
      g := Grant(ptr, x.size, x.body);
      Regrown(a, b, c, bs, asize, x, o, G);
    }

    /** The PUTs that make live block `b` and the free block `n` behind it one live block. */
    method AbsorbNext(ptr: nat, combined: nat, foot: nat, ghost a: seq<Blk>, ghost b: Blk, ghost n: Blk,
        ghost c: seq<Blk>) returns (ghost d: Blk)
      requires Laid() && bs == a + [b] + ([n] + c) && a != [] && ptr == At(a) && combined == b.size + n.size &&
        foot == ptr + 2 * combined - 2
      modifies this, mem
      ensures Laid() && brk == old(brk) && bs == a + [d] + c && d.live && d.size == combined && Agree(b.body, d.body)
    {
      hide Spells, WellFormed, Flat, Pack;
      ghost var m := mem[..];
      AllOkOf(bs);
      assert bs == a + [b, n] + c && bs == (a + [b]) + [n] + c;
      Focus(m, brk, a, b, [n] + c);
      Focus(m, brk, a + [b], n, c);
      InList(bs, |a|); InList(bs, |a| + 1);
      FlatPair(b, n);
      Without(a, [b, n], c);
      mem[ptr - 1] := Pack(combined, true);
      mem[foot] := Pack(combined, true);
      d := BlockOf(mem[..], ptr, combined, true);
      SameFront(m, mem[..], ptr, 2 * b.size - 2, 2 * combined - 2);
      Fused(m, mem[..], brk, a, [b, n], c, combined, true);
      bs := a + [d] + c;
    }

    /** The block is the last one: extend the heap and grow into the new memory. */
    method GrowAtEnd(ptr: nat, csize: nat, size: nat, asize: nat, ghost G: seq<Grant>, ghost a: seq<Blk>, ghost b: Blk)
      returns (r: nat, ghost g: Grant)
      requires Valid() && bs == a + [b] && a != [] && ptr == At(a) && csize == b.size < asize == AdjustedSize(size) &&
        size > 0 && b.live
      requires G == Grants(bs, 2)
      modifies this, mem
      ensures r == 0 <==> old(brk) + 2 * Max(asize - csize, 512) > mem.Length
      ensures r == 0 ==>
        Valid() && bs == old(bs) && brk == old(brk) && mem[..] == old(mem[..]) && at == old(at)
      ensures r != 0 ==> r == ptr && Regranted(G, |Grants(a, 2)|, ptr, |Grants(a, 2)|, g, size)
      ensures r != 0 ==>
        brk == old(brk) + 2 * Max(asize - csize, 512) && asize <= g.size <= asize + 1 && rover == ptr + 2 * g.size
    {
      hide Spells, WellFormed, Flat, Pack, Grants;
      g := Grant(0, 0, []);
      var needSize := asize - csize;
      LastBlock();
      PackHi(b.size, true);
      var lastFree := epilogue - 2 * mem[epilogue - 1].hi + 1;
      if !mem[lastFree - 1].b0 {
        needSize := needSize - mem[lastFree - 1].hi;
      }
      PackSize(b.size, true);
      var extendSize := if needSize > CHUNK then needSize else CHUNK;
      ghost var bs0 := bs;
      var p;
      ghost var a1, u, f;
      p, a1, u, f := ExtendHeap(extendSize);
      if p == 0 {
        return 0, g;
      }
      NothingMerged(a, b, a1, u);
      FlatNone();
      assert bs == a + [b] + ([f] + []);
      AllOkOf(bs);
      Focus(mem[..], brk, a, b, [f] + []);
      PackSize(f.size, false);
      var next := ptr + 2 * mem[ptr - 1].hi;
      var combined := csize + mem[next - 1].hi;
      ghost var d := AbsorbNext(ptr, combined, ptr + 2 * combined - 2, a, b, f, []);
      LiveLast(a, b, G);
      g := Recut(ptr, size, asize, G, a, d, [], Grant(ptr, b.size, b.body));
      r := ptr;
    }

    /** The block cannot grow where it is: allocate, copy, free. */
    method MoveOut(ptr: nat, csize: nat, size: nat, asize: nat, useRover: bool, ghost G: seq<Grant>, ghost j: nat)
      returns (r: nat, ghost i: nat, ghost g: Grant)
      requires Valid() && G == Grants(bs, 2) && j < |G| && G[j].ptr == ptr != 2 &&
        G[j].size == csize < asize == AdjustedSize(size) && size > 0
      modifies this, mem
      ensures Valid()
      ensures r == 0 ==>
        bs == old(bs) && brk == old(brk) && mem[..] == old(mem[..]) && at == old(at)
      ensures var last := old(bs)[|old(bs)| - 1];
        r == 0 <==>
          NoFit(old(bs), 0, |old(bs)|, asize) &&
          old(brk) + 2 * (Max(asize, 512) - if last.live then 0 else last.size) > mem.Length
      ensures r != 0 ==> Regranted(G, j, r, i, g, size) && asize <= g.size <= asize + 1 && r != ptr && OnFree(ptr)
      ensures r != 0 && brk == old(brk) ==> exists n: nat :: Chosen(old(bs), old(at), n, asize, useRover, r)
      ensures brk != old(brk) ==>
        NoFit(old(bs), 0, |old(bs)|, asize) && var last := old(bs)[|old(bs)| - 1];
        brk == old(brk) + 2 * (Max(asize, 512) - if last.live then 0 else last.size)
    {
      hide Spells, WellFormed, Flat, Grants, FreeSum, NoFit, Agree, At, Chosen;
      i := 0;
      ghost var jm;
      r, jm, g := Malloc(size, useRover);
      if r == 0 {
        return;
      }
      ghost var j1 := if j < jm then j else j + 1;
      assert Grants(bs, 2)[j1] == G[j] && Grants(bs, 2)[jm] == g;
      ghost var x := g;
      g := CopyAndRelease(ptr, r, csize, size, j1, jm);
      i := if j < jm then jm - 1 else jm;
      MovedGrant(G, j, jm, j1, i, x, g);
    }

    /** memcpy and mm_free at the end of mm_realloc, from the j-th grant into the k-th. */
    method CopyAndRelease(ptr: nat, r: nat, csize: nat, size: nat, ghost j: nat, ghost k: nat) returns (ghost g: Grant)
      requires Valid() && j < |Grants(bs, 2)| && k < |Grants(bs, 2)| && j != k && Grants(bs, 2)[j].ptr == ptr != 2 &&
        Grants(bs, 2)[k].ptr == r != 2
      requires Grants(bs, 2)[j].size == csize < AdjustedSize(size) && size + 8 <= 8 * Grants(bs, 2)[k].size && size > 0
      modifies this, mem
      ensures Valid() && brk == old(brk) && g.ptr == r && g.size == old(Grants(bs, 2)[k].size) &&
        Agree(old(Grants(bs, 2)[j].body), g.body)
      ensures r != ptr && OnFree(ptr)
      ensures Grants(bs, 2) == Drop(old(Grants(bs, 2))[k := g], j)
    {
      hide Spells, WellFormed, Flat, Grants, FreeSum, Agree;
      var words := if size < 8 * csize then (size + 3) / 4 else 2 * csize;
      ghost var m1 := mem[..];
      Span(j, k);
      BigEnough(size, csize, words, Grants(bs, 2)[k].size);
      Memlib.Copy(mem, r, ptr, words);
      g := Fill(m1, ptr, r, words, k, j);
      ghost var ga, gd, gc := Release(ptr, j);
    }

    /** The words of a grant. */
    lemma GrantWords(j: nat) returns (p: nat)
      requires Valid() && j < |Grants(bs, 2)|
      ensures p < |bs| && |Grants(bs[..p], 2)| == j
      ensures var x := Grants(bs, 2)[j];
        x.ptr == At(bs[..p]) && x.ptr + 2 * x.size == At(bs[..p + 1]) <= brk <= mem.Length && x.size >= 1 &&
        |x.body| == 2 * x.size - 2 && mem[x.ptr..x.ptr + 2 * x.size - 2] == x.body
    {
      hide Spells, WellFormed, Flat, Grants;
      AllOkOf(bs);
      p := Locate(bs, 2, j);
      HeadAt(p); HeadAt(p + 1);
      assert bs == bs[..p] + [bs[p]] + bs[p + 1..];
      Focus(mem[..], brk, bs[..p], bs[p], bs[p + 1..]);
      InList(bs, p);
    }

    /** The header of a grant holds its size. */
    lemma HeadOf(ptr: nat, j: nat)
      requires Valid() && j < |Grants(bs, 2)| && Grants(bs, 2)[j].ptr == ptr
      ensures 1 <= ptr <= mem.Length && mem[ptr - 1].hi == Grants(bs, 2)[j].size
    {
      hide Spells, Flat, Grants, WellFormed;
      var k := GrantWords(j);
      HeadAt(k);
    }

    /** Two grants lie apart, and what is copied stays inside the heap. */
    lemma Span(j: nat, k: nat)
      requires Valid() && j < |Grants(bs, 2)| && k < |Grants(bs, 2)| && j != k
      ensures var (x, y) := (Grants(bs, 2)[j], Grants(bs, 2)[k]);
        x.ptr + 2 * x.size <= brk <= mem.Length && y.ptr + 2 * y.size <= brk && x.size >= 1 && y.size >= 1 &&
        |x.body| == 2 * x.size - 2 && mem[x.ptr..x.ptr + 2 * x.size - 2] == x.body &&
        (x.ptr + 2 * x.size <= y.ptr || y.ptr + 2 * y.size <= x.ptr)
    {
      hide Spells, WellFormed, Flat, Grants, At;
      var p := GrantWords(j);
      var q := GrantWords(k);
      if p + 1 < q { Boundaries(p + 1, q); }
      if q + 1 < p { Boundaries(q + 1, p); }
    }

    /** The words copied into a grant are its new contents. */
    ghost method Fill(m1: seq<Word>, ptr: nat, r: nat, words: nat, jm: nat, j1: nat) returns (g: Grant)
      requires Spells(m1, brk, bs) && WellFormed(bs) && epilogue + 1 == brk && at <= |bs| && rover == At(bs[..at])
      requires jm < |Grants(bs, 2)| && j1 < |Grants(bs, 2)| && j1 != jm && Grants(bs, 2)[jm].ptr == r &&
        Grants(bs, 2)[j1].ptr == ptr && r != 2
      requires var (x, y) := (Grants(bs, 2)[j1], Grants(bs, 2)[jm]);
        2 * x.size - 2 <= words <= 2 * y.size - 2 && ptr + words <= |m1| == mem.Length && r + words <= |m1| &&
          |x.body| == 2 * x.size - 2 && x.size >= 1 &&
        ptr + 2 * x.size - 2 <= |m1| && m1[ptr..ptr + 2 * x.size - 2] == x.body
      requires mem[..] == m1[..r] + m1[ptr..ptr + words] + m1[r + words..]
      modifies `bs
      ensures Valid() && Grants(bs, 2) == old(Grants(bs, 2))[jm := g] && g.ptr == r &&
        g.size == old(Grants(bs, 2))[jm].size
      ensures Agree(old(Grants(bs, 2))[j1].body, g.body)
    {
      hide Spells, WellFormed, Flat, Grants;
      AllOkOf(bs);
      var k := Locate(bs, 2, jm);
      var a, b, c, x := bs[..k], bs[k], bs[k + 1..], Grants(bs, 2)[j1];
      assert bs == a + [b] + c;
      Focus(m1, brk, a, b, c);
      InList(bs, k);
      if k == 0 { StartAt(); }
      g := Grant(r, b.size, mem[..][r..r + 2 * b.size - 2]);
      var y := Blk(b.size, true, g.body);
      FilledWords(m1, mem[..], ptr, r, words, x.body, g.body);
      Filled(m1, mem[..], brk, a, b, c, words);
      FilledGrants(a, b, c, y);
      BoundaryKept(a, b, c, y, at);
      bs := a + [y] + c;
    }

    /** mm_realloc once there is something to resize, and a size. */
    method ResizeGrant(ptr: nat, size: nat, useRover: bool, ghost j: nat)
      returns (r: nat, ghost i: nat, ghost g: Grant, ghost k: nat)
      requires Valid() && j < |Grants(bs, 2)| && Grants(bs, 2)[j].ptr == ptr && ptr != 2 && size > 0
      modifies this, mem
      ensures Valid()
      ensures r != 0 ==> Regranted(old(Grants(bs, 2)), j, r, i, g, size)
      ensures r == 0 ==> bs == old(bs) && brk == old(brk) && mem[..] == old(mem[..]) && at == old(at)
      ensures k < |old(bs)| && ptr == At(old(bs)[..k]) && ptr > 0
      ensures r == ptr <==> InPlace(old(bs), k, AdjustedSize(size), old(brk), mem.Length)
      ensures var (asize, last) := (AdjustedSize(size), old(bs)[|old(bs)| - 1]);
        r == 0 <==>
          NoFit(old(bs), 0, |old(bs)|, asize) &&
          old(brk) + 2 * (Max(asize, 512) - if last.live then 0 else last.size) > mem.Length &&
          !InPlace(old(bs), k, asize, old(brk), mem.Length)
      ensures r != 0 ==> AdjustedSize(size) <= g.size <= AdjustedSize(size) + 1
      ensures r == ptr ==> rover == r + 2 * g.size
      ensures r != 0 && r != ptr ==> OnFree(ptr)
      ensures r != 0 && r != ptr && brk == old(brk) ==>
        exists n: nat :: Chosen(old(bs), old(at), n, AdjustedSize(size), useRover, r)
      ensures r == ptr ==>
        brk == old(brk) + if AdjustedSize(size) <= old(bs)[k].size || k + 1 < |old(bs)| then 0
          else 2 * Max(AdjustedSize(size) - old(bs)[k].size, 512)
      ensures r != ptr && brk != old(brk) ==>
        NoFit(old(bs), 0, |old(bs)|, AdjustedSize(size)) && var last := old(bs)[|old(bs)| - 1];
        brk == old(brk) + 2 * (Max(AdjustedSize(size), 512) - if last.live then 0 else last.size)
    {
      hide Spells, WellFormed, Flat, Pack, Grants, FreeSum, NoFit, Chosen, Agree, Insert, Drop;
      i, g, k := 0, Grant(0, 0, []), 0;
      AllOkOf(bs);
      ghost var G := Grants(bs, 2);
      k := Locate(bs, 2, j);
      ghost var a, b, c := bs[..k], bs[k], bs[k + 1..];
      assert bs == a + [b] + c;
      LocatedAt(k, ptr);
      Focus(mem[..], brk, a, b, c);
      GrantParts(a, b, c);
      PackSize(b.size, true);
      PackSize(0, true);
      if c != [] { PackSize(c[0].size, c[0].live); }
      i := j;
      var asize, csize := AdjustedSize(size), mem[ptr - 1].hi;
      if asize <= csize {
        g := Recut(ptr, size, asize, G, a, b, c, G[j]);
        r := ptr;
        return;
      }
      var next := ptr + 2 * mem[ptr - 1].hi;
      var nextSize := mem[next - 1].hi;
      if !mem[next - 1].b0 && csize + nextSize >= asize {
        ghost var n, c1 := c[0], c[1..];
        assert c == [n] + c1;
        GrantsOverFree(n, c1, At(a) + 2 * b.size);
        ghost var d := AbsorbNext(ptr, csize + nextSize, next + 2 * mem[next - 1].hi - 2, a, b, n, c1);
        g := Recut(ptr, size, asize, G, a, d, c1, G[j]);
        r := ptr;
        return;
      }
      if nextSize == 0 {
        NotEmpty(bs, k, c);
        assert a + [b] + [] == a + [b];
        r, g := GrowAtEnd(ptr, csize, size, asize, G, a, b);
        if r != 0 {
          return;
        }
      }
      r, i, g := MoveOut(ptr, csize, size, asize, useRover, G, j);
    }

    /** mm_realloc of the j-th grant, which is block `k`. */
    method Realloc(ptr: nat, size: nat, useRover: bool, ghost j: nat)
        returns (r: nat, ghost i: nat, ghost g: Grant, ghost k: nat)
      requires Valid() && (ptr != 0 ==> j < |Grants(bs, 2)| && Grants(bs, 2)[j].ptr == ptr && ptr != 2)
      modifies this, mem
      ensures Valid()
      ensures ptr == 0 && r != 0 ==>
        i <= |old(Grants(bs, 2))| && g.ptr == r && size + 8 <= 8 * g.size &&
        Grants(bs, 2) == Insert(old(Grants(bs, 2)), i, g)
      ensures ptr != 0 && size == 0 ==> r == 0 && brk == old(brk) && Grants(bs, 2) == Drop(old(Grants(bs, 2)), j)
      ensures ptr != 0 && r != 0 ==> Regranted(old(Grants(bs, 2)), j, r, i, g, size)
      ensures r == 0 && (ptr == 0 || size > 0) ==> bs == old(bs) && brk == old(brk) && mem[..] == old(mem[..])
      ensures ptr != 0 && size > 0 ==> k < |old(bs)| && ptr == At(old(bs)[..k])
      ensures ptr != 0 && size > 0 ==>
        (r == ptr <==> InPlace(old(bs), k, AdjustedSize(size), old(brk), mem.Length))
      ensures var (asize, last) := (AdjustedSize(size), old(bs)[|old(bs)| - 1]);
        r == 0 <==>
          size == 0 || (NoFit(old(bs), 0, |old(bs)|, asize) &&
            old(brk) + 2 * (Max(asize, 512) - if last.live then 0 else last.size) > mem.Length &&
            (ptr != 0 ==> !InPlace(old(bs), k, asize, old(brk), mem.Length)))
      ensures r != 0 ==> AdjustedSize(size) <= g.size <= AdjustedSize(size) + 1
      ensures r != 0 && (ptr == 0 || r == ptr) ==> rover == r + 2 * g.size
      ensures ptr != 0 && (size == 0 || (r != 0 && r != ptr)) ==> OnFree(ptr)
      ensures r == 0 && (ptr == 0 || size > 0) ==> at == old(at) && rover == old(rover)
      ensures r != 0 && r != ptr && brk == old(brk) ==>
        exists n: nat :: Chosen(old(bs), old(at), n, AdjustedSize(size), useRover, r)
      ensures r != 0 && r == ptr ==>
        brk == old(brk) + if AdjustedSize(size) <= old(bs)[k].size || k + 1 < |old(bs)| then 0
          else 2 * Max(AdjustedSize(size) - old(bs)[k].size, 512)
      ensures r != ptr && brk != old(brk) ==>
        NoFit(old(bs), 0, |old(bs)|, AdjustedSize(size)) && var last := old(bs)[|old(bs)| - 1];
        brk == old(brk) + 2 * (Max(AdjustedSize(size), 512) - if last.live then 0 else last.size)
    {
      hide Spells, WellFormed, Flat, Pack, Grants, FreeSum, NoFit, Chosen;
      i, g, k := 0, Grant(0, 0, []), 0;
      if ptr == 0 {
        r, i, g := Malloc(size, useRover);
        return;
      }
      if size == 0 {
        ghost var x, y, z := Release(ptr, j);
        return 0, 0, g, 0;
      }
      r, i, g, k := ResizeGrant(ptr, size, useRover, j);
    }

    // ------------------------------------------------------------- the program

    /** The program writes word `i` of the j-th grant. */
    method Store(ptr: nat, i: nat, w: Word, ghost j: nat)
      requires Valid() && j < |Grants(bs, 2)| && Grants(bs, 2)[j].ptr == ptr != 2 && i < |Grants(bs, 2)[j].body|
      modifies `bs, mem
      ensures Valid()
      ensures Grants(bs,
        2) == old(Grants(bs, 2))[j := old(Grants(bs, 2)[j]).(body := old(Grants(bs, 2)[j]).body[i := w])]
    {
      hide Spells, WellFormed, Flat, Grants;
      AllOkOf(bs);
      ghost var k := Locate(bs, 2, j);
      ghost var m, a, b, c := mem[..], bs[..k], bs[k], bs[k + 1..];
      assert bs == a + [b] + c;
      LocatedAt(k, ptr);
      Focus(m, brk, a, b, c);
      mem[ptr + i] := w;
      ghost var y := Blk(b.size, true, mem[..][ptr..ptr + 2 * b.size - 2]);
      assert y.body == b.body[i := w];
      Filled(m, mem[..], brk, a, b, c, 2 * b.size - 2);
      FilledGrants(a, b, c, y);
      BoundaryKept(a, b, c, y, at);
      bs := a + [y] + c;
    }

    // ------------------------------------------------------------- mm_init

    /** mm_init, on memory fresh from memlib. */
    method Init() returns (r: int)
      requires brk == 0
      modifies this, mem
      ensures r == 0 <==> mem.Length >= 4 + 2 * CHUNK
      ensures r == 0 ==> Valid() && brk == 4 + 2 * CHUNK && Grants(bs, 2) == [Grant(2, 1, [])] && FreeSum(bs) == CHUNK
      ensures r != 0 ==> r == -1
    {
      hide Spells, WellFormed, Grants, FreeSum;
      var start;
      start, brk := Memlib.Sbrk(brk, 4, mem.Length);
      if start == -1 {
        return -1;
      }
      mem[0] := OfValue(0);
      mem[1] := Pack(1, true);
      mem[2] := Pack(1, true);
      mem[3] := Pack(0, true);
      epilogue := 3;
      rover := 2;
      bs, at := [PROLOGUE], 0;
      EmptyHeap(mem[..], brk);
      var p;
      ghost var a, u, g;
      p, a, u, g := ExtendHeap(CHUNK);
      if p == 0 {
        return -1;
      }
      FirstChunk(a, u, g, bs);
      r := 0;
    }

    constructor (capacity: nat)
      ensures brk == 0 && mem.Length == capacity && fresh(mem)
    {
      mem := new Word[capacity](_ => OfValue(0));
      brk, epilogue, rover := 0, 0, 0;
      bs, at := [], 0;
    }
  }

  /** Two payloads hold the same words as far as both reach. */
  ghost predicate Agree(v: seq<Word>, w: seq<Word>) {
    forall i :: 0 <= i < |v| && i < |w| ==> v[i] == w[i]
  }

  lemma SameFront(m: seq<Word>, m': seq<Word>, p: nat, k: nat, n: nat)
    requires k <= n && p + n <= |m| == |m'| && forall i :: p <= i < p + k ==> m'[i] == m[i]
    ensures Agree(m[p..p + k], m'[p..p + n])
  {
  }

  function Drop<T>(s: seq<T>, j: nat): seq<T> requires j < |s| { s[..j] + s[j + 1..] }

  function Insert<T>(s: seq<T>, i: nat, x: T): seq<T> requires i <= |s| { s[..i] + [x] + s[i..] }

  /** What the program sees when a live block is cut back. */
  lemma Regrown(a: seq<Blk>, b: Blk, c: seq<Blk>, bs': seq<Blk>, asize: nat, x: Blk, o: Grant, G: seq<Grant>)
    requires WellFormed(a + [b] + c) && WellFormed(bs') && a != [] && b.live && Ok(b) && Ok(x) && x.live &&
      2 <= asize <= b.size
    requires if b.size - asize >= 2
      then x == Blk(asize, true, b.body[..2 * asize - 2]) &&
        bs' == a + [x, Blk(b.size - asize, false, b.body[2 * asize..])] + c
      else x == Blk(b.size, true, b.body) && bs' == a + [x] + c
    requires Agree(o.body, b.body) && G == Grants(a, 2) + [o] + Grants(c, At(a) + 2 * b.size)
    ensures var (j, g) := (|Grants(a, 2)|, Grant(At(a), x.size, x.body));
      j < |G| && Grants(bs', 2) == Insert(Drop(G, j), j, g) && Agree(G[j].body, g.body)
  {
    hide WellFormed, Flat, Grants, Insert, Drop, Agree, AllOk;
    var y := if b.size - asize >= 2 then [x, Blk(b.size - asize, false, b.body[2 * asize..])] else [x];
    Parts(a, [b], c);
    RecutPart(b, asize, x, y, At(a), o);
    GrantsPatch(a, [b], y, c, 2);
    Exchanged(Grants(a, 2), o, Grants(c, At(a) + 2 * b.size), Grant(At(a), x.size, x.body));
  }

  /** What is made of a live block that is cut back. */
  lemma RecutPart(b: Blk, asize: nat, x: Blk, y: seq<Blk>, p: nat, o: Grant)
    requires Ok(b) && 2 <= asize <= b.size && Agree(o.body, b.body)
    requires if b.size - asize >= 2
      then x == Blk(asize, true, b.body[..2 * asize - 2]) &&
        y == [x, Blk(b.size - asize, false, b.body[2 * asize..])]
      else x == Blk(b.size, true, b.body) && y == [x]
    ensures AllOk(y) && |Flat(y)| == |Flat([b])| == 2 * b.size && Grants(y, p) == [Grant(p, x.size, x.body)] &&
      Agree(o.body, x.body)
  {
    hide Flat, Grants;
    FlatOne(b); FlatOne(x);
    GrantsOne(x, p);
    if b.size - asize >= 2 {
      FlatPair(x, y[1]);
      GrantsAppend([x], [y[1]], p);
      GrantsOne(y[1], p + 2 * x.size);
      assert y == [x] + [y[1]];
    }
  }

  lemma Exchanged<T>(a: seq<T>, x: T, c: seq<T>, y: T)
    ensures (a + [x] + c)[|a|] == x && Insert(Drop(a + [x] + c, |a|), |a|, y) == a + [y] + c
  {
    var s := a + [x] + c;
    assert s[..|a|] == a && s[|a| + 1..] == c;
    assert (a + c)[..|a|] == a && (a + c)[|a|..] == c;
  }

  lemma NothingMerged(a: seq<Blk>, b: Blk, a1: seq<Blk>, u: seq<Blk>)
    requires a + [b] == a1 + u && AllFree(u) && b.live
    ensures u == [] && a1 == a + [b]
  {
    if u != [] { SameLast(a + [b], a1, u); }
  }

  lemma SameLast<T>(s: seq<T>, a: seq<T>, u: seq<T>)
    requires s == a + u && u != []
    ensures s[|s| - 1] == u[|u| - 1]
  {
  }

  lemma FlatNone()
    ensures Flat([]) == []
  {
  }

  lemma LiveLast(a: seq<Blk>, b: Blk, G: seq<Grant>)
    requires WellFormed(a + [b]) && b.live && G == Grants(a + [b], 2)
    ensures G == Grants(a, 2) + [Grant(At(a), b.size, b.body)] + []
    ensures forall p :: Grants([], p) == []
  {
    assert a + [b] == a + [b] + [];
    Parts(a, [b], []);
    GrantsAppend(a, [b], 2);
    GrantsOne(b, At(a));
  }

  lemma GrantParts(a: seq<Blk>, b: Blk, c: seq<Blk>)
    requires WellFormed(a + [b] + c) && b.live
    ensures Grants(a + [b] + c, 2) == Grants(a, 2) + [Grant(At(a), b.size, b.body)] + Grants(c, At(a) + 2 * b.size)
    ensures Agree(b.body, b.body)
  {
    Parts(a, [b], c);
    GrantSplit(a, b, c);
    var G, j := Grants(a + [b] + c, 2), |Grants(a, 2)|;
    assert G == G[..j] + [G[j]] + G[j + 1..];
  }

  lemma GrantsOverFree(n: Blk, c: seq<Blk>, p: nat)
    requires !n.live
    ensures Grants([n] + c, p) == Grants(c, p + 2 * n.size)
  {
    assert ([n] + c)[1..] == c;
  }

  lemma NotEmpty(bs: seq<Blk>, k: nat, c: seq<Blk>)
    requires WellFormed(bs) && k < |bs| && c == bs[k + 1..]
    ensures c != [] ==> c[0].size > 0
  {
    if c != [] { assert c[0] == bs[k + 1]; }
  }

  /** The copy covers the whole old payload and fits the new one. */
  lemma BigEnough(size: nat, csize: nat, words: nat, gsize: nat)
    requires csize < AdjustedSize(size) && csize >= 1 && size + 8 <= 8 * gsize
    requires words == if size < 8 * csize then (size + 3) / 4 else 2 * csize
    ensures 2 * csize - 2 <= words <= 2 * csize && words <= 2 * gsize - 2
  {
  }

  lemma FilledWords(m: seq<Word>, m': seq<Word>, ptr: nat, r: nat, words: nat, v: seq<Word>, w: seq<Word>)
    requires |v| <= words && ptr + words <= |m| && r + words <= |m| &&
      m' == m[..r] + m[ptr..ptr + words] + m[r + words..]
    requires m[ptr..ptr + |v|] == v && r + |w| <= |m| && w == m'[r..r + |w|]
    ensures Agree(v, w)
  {
    forall i | 0 <= i < |v| && i < |w| ensures v[i] == w[i] {
      assert v[i] == m[ptr + i] && w[i] == m'[r + i];
    }
  }

  /** Rewriting the body of a block rewrites just that. */
  lemma Filled(m: seq<Word>, m': seq<Word>, E: nat, a: seq<Blk>, b: Blk, c: seq<Blk>, words: nat)
    requires Spells(m, E, a + [b] + c) && WellFormed(a + [b] + c) && a != [] && words <= 2 * b.size - 2 &&
      |m'| == |m| && At(a) + 2 * b.size <= |m|
    requires forall i :: 0 <= i < |m| && (i < At(a) || At(a) + words <= i) ==> m'[i] == m[i]
    ensures b.size >= 2
    ensures var y := Blk(b.size, b.live, m'[At(a)..At(a) + 2 * b.size - 2]);
      Spells(m', E, a + [y] + c) && WellFormed(a + [y] + c)
  {
    hide Flat, WellFormed, Spells;
    AllOkOf(a + [b] + c);
    Focus(m, E, a, b, c);
    MiddleSize(a, b, c);
    Without(a, [b], c);
    assert m' == m'[At(a) - 1 := Pack(b.size, b.live)][At(a) + 2 * b.size - 2 := Pack(b.size, b.live)];
    var y := Blk(b.size, b.live, m'[At(a)..At(a) + 2 * b.size - 2]);
    BlockOfFlat(m', At(a), b.size, b.live);
    FlatOne(b);
    assert [BlockOf(m', At(a), b.size, b.live)] == [y];
    Replace(a, [b], [y], c);
    Patch(m, m', E, a, [b], [y], c);
  }

  lemma MiddleSize(a: seq<Blk>, b: Blk, c: seq<Blk>)
    requires WellFormed(a + [b] + c) && a != []
    ensures Ok(b) && b.size >= 2
  {
    assert (a + [b] + c)[|a|] == b;
  }

  lemma FilledGrants(a: seq<Blk>, b: Blk, c: seq<Blk>, y: Blk)
    requires WellFormed(a + [b] + c) && b.live && y.live && Ok(y) && y.size == b.size
    ensures var (G, j) := (Grants(a + [b] + c, 2), |Grants(a, 2)|);
      j < |G| && Grants(a + [y] + c, 2) == G[j := Grant(At(a), y.size, y.body)]
  {
    hide Flat, WellFormed, Grants;
    Parts(a, [b], c);
    FlatOne(b); FlatOne(y);
    assert Ok([b][0]);
    GrantsPatch(a, [b], [y], c, 2);
    GrantsOne(b, At(a)); GrantsOne(y, At(a));
  }

  lemma BoundaryKept(a: seq<Blk>, b: Blk, c: seq<Blk>, y: Blk, k: nat)
    requires Ok(b) && Ok(y) && y.size == b.size && k <= |a + [b] + c|
    ensures At((a + [y] + c)[..k]) == At((a + [b] + c)[..k])
  {
    hide Flat;
    if k <= |a| {
      assert (a + [y] + c)[..k] == (a + [b] + c)[..k];
    } else {
      var t := c[..k - |a| - 1];
      assert (a + [y] + c)[..k] == a + [y] + t && (a + [b] + c)[..k] == a + [b] + t;
      FlatAppend(a + [y], t); FlatAppend(a, [y]); FlatAppend(a + [b], t); FlatAppend(a, [b]);
      FlatOne(b); FlatOne(y);
    }
  }

  lemma MovedGrant(G: seq<Grant>, j: nat, jm: nat, j1: nat, i: nat, x: Grant, g: Grant)
    requires j < |G| && jm <= |G| && j1 == (if j < jm then j else j + 1) && i == (if j < jm then jm - 1 else jm)
    ensures Drop(Insert(G, jm, x)[jm := g], j1) == Insert(Drop(G, j), i, g)
  {
    hide Drop, Insert;
    InsertUpdate(G, jm, x, g);
    var G1, G2 := Insert(G, jm, g), Drop(G, j);
    InsertLength(G, jm, g); DropLength(G1, j1); DropLength(G, j); InsertLength(G2, i, g);
    forall k | 0 <= k < |G| ensures Drop(G1, j1)[k] == Insert(G2, i, g)[k] {
      DropAt(G1, j1, k);
      InsertAt(G, jm, g, if k < j1 then k else k + 1);
      InsertAt(G2, i, g, k);
      if k < i { DropAt(G, j, k); }
      if k > i { DropAt(G, j, k - 1); }
    }
  }

  lemma DropLength(s: seq<Grant>, j: nat)
    requires j < |s|
    ensures |Drop(s, j)| == |s| - 1
  {
  }

  lemma InsertLength(s: seq<Grant>, i: nat, x: Grant)
    requires i <= |s|
    ensures |Insert(s, i, x)| == |s| + 1
  {
  }

  lemma DropAt(s: seq<Grant>, j: nat, k: nat)
    requires j < |s| && k < |s| - 1
    ensures |Drop(s, j)| == |s| - 1 && Drop(s, j)[k] == s[if k < j then k else k + 1]
  {
  }

  lemma InsertAt(s: seq<Grant>, i: nat, x: Grant, k: nat)
    requires i <= |s| && k <= |s|
    ensures |Insert(s, i, x)| == |s| + 1 && Insert(s, i, x)[k] == if k < i then s[k] else if k == i then x else s[k - 1]
  {
  }

  lemma InsertUpdate(s: seq<Grant>, i: nat, x: Grant, y: Grant)
    requires i <= |s|
    ensures |Insert(s, i, x)| == |s| + 1 && Insert(s, i, x)[i := y] == Insert(s, i, y)
  {
  }

  lemma EmptyHeap(m: seq<Word>, E: nat)
    requires E == 4 <= |m| && m[1] == Pack(1, true) && m[2] == Pack(1, true) && m[3] == Pack(0, true)
    ensures Spells(m, E, [PROLOGUE]) && WellFormed([PROLOGUE]) && At([PROLOGUE][..0]) == 2
  {
    FlatOne(PROLOGUE);
    assert m[1..3] == [m[1], m[2]];
  }

  lemma FirstChunk(a: seq<Blk>, u: seq<Blk>, g: Blk, bs: seq<Blk>)
    requires [PROLOGUE] == a + u && a != [] && AllFree(u) && bs == a + [g] && !g.live &&
      2 * g.size == |Flat(u)| + 2 * CHUNK
    ensures Grants(bs, 2) == [Grant(2, 1, [])] && FreeSum(bs) == CHUNK
  {
    assert u == [] && a == [PROLOGUE];
    GrantsAppend(a, [g], 2);
    GrantsOne(PROLOGUE, 2);
    GrantsOne(g, 2 + |Flat(a)|);
    FlatOne(PROLOGUE);
  }

  /** The block behind the j-th grant. */
  lemma {:induction false} Locate(bs: seq<Blk>, p: nat, j: nat) returns (k: nat)
    requires j < |Grants(bs, p)| && AllOk(bs)
    ensures k < |bs| && bs[k].live && |Grants(bs[..k], p)| == j &&
      Grants(bs, p)[j] == Grant(p + |Flat(bs[..k])|, bs[k].size, bs[k].body)
  {
    var h := if bs[0].live then 1 else 0;
    if j < h {
      k := 0;
      assert bs[..0] == [];
    } else {
      var i := Locate(bs[1..], p + 2 * bs[0].size, j - h);
      k := i + 1;
      LocateOn(bs, p, i);
    }
  }

  /** The grants before a block, and where it is, counted from the first block. */
  lemma LocateOn(bs: seq<Blk>, p: nat, i: nat)
    requires AllOk(bs) && i + 1 < |bs|
    ensures var q := p + 2 * bs[0].size;
      |Grants(bs[..i + 1], p)| == (if bs[0].live then 1 else 0) + |Grants(bs[1..][..i], q)| &&
        p + |Flat(bs[..i + 1])| == q + |Flat(bs[1..][..i])|
  {
    hide Flat, Grants;
    assert bs[..i + 1] == [bs[0]] + bs[1..][..i];
    GrantsAppend([bs[0]], bs[1..][..i], p);
    GrantsOne(bs[0], p);
    FlatAppend([bs[0]], bs[1..][..i]);
    FlatOne(bs[0]);
    InList(bs, 0);
  }

  lemma GrantSplit(a: seq<Blk>, b: Blk, c: seq<Blk>)
    requires AllOk(a) && AllOk([b]) && b.live
    ensures var (G, j) := (Grants(a + [b] + c, 2), |Grants(a, 2)|);
      j < |G| && G[..j] == Grants(a, 2) && G[j] == Grant(At(a), b.size, b.body) &&
        G[j + 1..] == Grants(c, At(a) + 2 * b.size)
  {
    hide Flat, Grants;
    GrantsAppend(a + [b], c, 2); GrantsAppend(a, [b], 2); GrantsOne(b, At(a));
    FlatAppend(a, [b]); FlatOne(b);
    assert AllOk(a + [b]);
  }

  /** Freeing a block and merging it with its free neighbours removes one grant. */
  lemma ReleasedGrants(a: seq<Blk>, u: seq<Blk>, b: Blk, b1: Blk, v: seq<Blk>, c: seq<Blk>, d: Blk)
    requires WellFormed((a + u) + [b] + (v + c)) && AllFree(u) && AllFree(v) && b.live && !b1.live && !d.live &&
      Ok(d) && Ok(b1) && b1.size == b.size
    requires |Flat([d])| == |Flat(u + [b1] + v)|
    ensures AllOk(a + u) && AllOk([b]) && AllOk(v + c)
    ensures Grants(a + [d] + c, 2) == Grants(a + u, 2) + Grants(v + c, At(a + u) + 2 * b.size)
    ensures FreeSum(a + [d] + c) == FreeSum((a + u) + [b] + (v + c)) + b.size
  {
    hide WellFormed, Flat, Grants, FreeSum;
    Parts(a + u, [b], v + c);
    Pieces(a, u); Pieces(v, c);
    var q := At(a);
    FlatAppend(a, u); FlatAppend(v, c); FlatAppend(u + [b1], v); FlatAppend(u, [b1]); FlatOne(b1); FlatOne(b);
      FlatOne(d);
    GrantsAppend(a, [d], 2); GrantsAppend(a + [d], c, 2); FlatAppend(a, [d]);
    Joins(a, d);
    assert Ok([b][0]);
    GrantsAppend(a, u, 2); GrantsAppend(v, c, q + |Flat(u)| + 2 * b.size);
    FreeRunGrants(u, q); FreeRunGrants(v, q + |Flat(u)| + 2 * b.size);
    GrantsOne(d, q);
    GrantsAppend(a + u, [b], 2); GrantsOne(b, q + |Flat(u)|);
    GrantsAppend((a + u) + [b], v + c, 2);
    Joins(a + u, b);
  }

  lemma Pieces(a: seq<Blk>, u: seq<Blk>)
    requires AllOk(a + u)
    ensures AllOk(a) && AllOk(u)
  {
    forall i | 0 <= i < |a| ensures Ok(a[i]) { assert (a + u)[i] == a[i]; }
    forall i | 0 <= i < |u| ensures Ok(u[i]) { assert (a + u)[|a| + i] == u[i]; }
  }

  lemma Joins(a: seq<Blk>, d: Blk)
    requires AllOk(a) && Ok(d)
    ensures AllOk(a + [d])
  {
  }

  /** ALIGN, in bytes. */
  function Align(size: nat): nat { (size + 7) / 8 * 8 }

  /** DSIZE + ALIGN(size), in double words: the least block whose payload holds `size` bytes. */
  function AdjustedSize(size: nat): (d: nat)
    ensures size + 8 <= 8 * d && 8 * (d - 1) < size + 8 && (size > 0 ==> d >= 2)
  {
    1 + Align(size) / 8
  }

  /** CHUNKSIZE, in double words. */
  const CHUNK: nat := 512

  function Max(a: nat, b: nat): nat { if a > b then a else b }

  /** What mm_malloc asks extend_heap for when nothing fits: the larger of the block and a chunk, less a free block at
      the end of the heap. */
  function Missing(bs: seq<Blk>, asize: nat): nat {
    var last := if bs == [] || bs[|bs| - 1].live then 0 else bs[|bs| - 1].size;
    if Max(asize, CHUNK) > last then Max(asize, CHUNK) - last else 0
  }

  /** Block number `k`, at `r`, is the one that first fit takes, or next fit with its rover before block number `at`. */
  ghost predicate Chosen(bs: seq<Blk>, at: nat, k: nat, asize: nat, useRover: bool, r: nat) {
    k < |bs| && at <= |bs| && r == At(bs[..k]) && !bs[k].live && asize <= bs[k].size &&
    if !useRover then NoFit(bs, 0, k, asize)
    else if at <= k then NoFit(bs, at, k, asize)
    else NoFit(bs, at, |bs|, asize) && NoFit(bs, 0, k, asize)
  }

  /** A live block of `asize` double words from the front of `b`, or all of `b` when the rest would be no block. */
  ghost function Sliced(b: Blk, asize: nat): seq<Blk>
    requires Ok(b) && 2 <= asize <= b.size
  {
    if b.size - asize < 2 then [Blk(b.size, true, b.body)]
    else [Blk(asize, true, b.body[..2 * asize - 2]), Blk(b.size - asize, false, b.body[2 * asize..])]
  }

  /** The free block at `r` is cut. */
  ghost predicate CutFrom(bs: seq<Blk>, r: nat, asize: nat, bs': seq<Blk>) {
    exists k: nat {:trigger bs[..k]} ::
      k < |bs| && r == At(bs[..k]) && !bs[k].live && 2 <= asize <= bs[k].size && Ok(bs[k]) &&
      bs' == bs[..k] + Sliced(bs[k], asize) + bs[k + 1..]
  }

  /** Address `r` is right behind the last live block. */
  ghost predicate BehindLive(bs: seq<Blk>, r: nat) {
    exists k: nat :: k < |bs| && bs[k].live && AllFree(bs[k + 1..]) && r == At(bs[..k + 1])
  }

  lemma CutAt(a: seq<Blk>, b: Blk, c: seq<Blk>, r: nat, asize: nat, x: Blk, bs': seq<Blk>)
    requires r == At(a) && !b.live && 2 <= asize <= b.size && Ok(b)
    requires if b.size - asize >= 2
      then x == Blk(asize, true, b.body[..2 * asize - 2]) &&
        bs' == a + [x, Blk(b.size - asize, false, b.body[2 * asize..])] + c
      else x == Blk(b.size, true, b.body) && bs' == a + [x] + c
    ensures CutFrom(a + [b] + c, r, asize, bs')
  {
    var bs := a + [b] + c;
    assert bs[..|a|] == a && bs[|a|] == b && bs[|a| + 1..] == c;
  }

  lemma LiveBehind(bs: seq<Blk>, a: seq<Blk>, u: seq<Blk>, r: nat)
    requires bs == a + u && AllFree(u) && a != [] && a[|a| - 1].live && r == At(a)
    ensures BehindLive(bs, r)
  {
    assert bs[..|a| - 1 + 1] == a && bs[|a| - 1 + 1..] == u && bs[|a| - 1] == a[|a| - 1];
  }

  /** Block `k` can become `asize` double words where it is: it is big enough, or a free block behind it makes it so,
      or it is the last one and memlib has what is missing, a chunk at least. */
  ghost predicate InPlace(bs: seq<Blk>, k: nat, asize: nat, brk: nat, limit: nat) {
    k < |bs| &&
    (asize <= bs[k].size || (k + 1 < |bs| && !bs[k + 1].live && asize <= bs[k].size + bs[k + 1].size) ||
      (k + 1 == |bs| && brk + 2 * Max(asize - bs[k].size, 512) <= limit))
  }

  lemma Choice(bs: seq<Blk>, at: nat, k: nat, asize: nat, useRover: bool, r: nat)
    requires k < |bs| && at <= |bs| && r == At(bs[..k]) && !bs[k].live && asize <= bs[k].size
    requires !useRover ==> NoFit(bs, 0, k, asize)
    requires useRover ==>
      if at <= k then NoFit(bs, at, k, asize) else NoFit(bs, at, |bs|, asize) && NoFit(bs, 0, k, asize)
    ensures Chosen(bs, at, k, asize, useRover, r)
  {
    hide NoFit;
  }

  lemma Fits(bs: seq<Blk>, k: nat, asize: nat)
    requires WellFormed(bs) && k < |bs| && !bs[k].live && asize <= bs[k].size
    ensures k >= 1 && !NoFit(bs, 0, |bs|, asize)
  {
  }

  /** A block at the end that does not fit is short of the request, so the extension is positive. */
  lemma LastShort(bs: seq<Blk>, asize: nat)
    requires WellFormed(bs) && NoFit(bs, 0, |bs|, asize)
    ensures |bs| > 0 && (!bs[|bs| - 1].live ==> bs[|bs| - 1].size < asize)
  {
  }

  /** What the program sees of a block placed in free block `b`. */
  lemma Granted(a: seq<Blk>, b: Blk, c: seq<Blk>, bs': seq<Blk>, asize: nat, x: Blk)
    requires WellFormed(a + [b] + c) && WellFormed(bs') && a != [] && !b.live && Ok(b) && Ok(x) && x.live &&
      2 <= asize <= b.size
    requires if b.size - asize >= 2
      then x.size == asize && bs' == a + [x, Blk(b.size - asize, false, b.body[2 * asize..])] + c
      else x.size == b.size && bs' == a + [x] + c
    ensures var (G, j, g) := (Grants(a + [b] + c, 2), |Grants(a, 2)|, Grant(At(a), x.size, x.body));
      j <= |G| && Grants(bs', 2) == G[..j] + [g] + G[j..] && FreeSum(bs') + x.size == FreeSum(a + [b] + c)
  {
    hide WellFormed, Flat, Grants, FreeSum;
    var y := if b.size - asize >= 2 then [x, Blk(b.size - asize, false, b.body[2 * asize..])] else [x];
    Parts(a, [b], c);
    FlatOne(b);
    if b.size - asize >= 2 { FlatPair(x, y[1]); } else { FlatOne(x); }
    GrantsPatch(a, [b], y, c, 2);
    GrantsOne(b, At(a));
    GrantsOne(x, At(a));
    if b.size - asize >= 2 {
      GrantsAppend([x], [y[1]], At(a));
      FlatOne(x);
      GrantsOne(y[1], At(a) + 2 * x.size);
      assert y == [x] + [y[1]];
    }
    assert Grants(y, At(a)) == [Grant(At(a), x.size, x.body)];
    assert Grants(a, 2) + [] + Grants(c, At(a) + 2 * b.size) == Grants(a, 2) + Grants(c, At(a) + 2 * b.size);
  }

  lemma Parts(a: seq<Blk>, x: seq<Blk>, c: seq<Blk>)
    requires WellFormed(a + x + c)
    ensures AllOk(a) && AllOk(x) && AllOk(c)
  {
    var s := a + x + c;
    forall i | 0 <= i < |a| ensures Ok(a[i]) { assert a[i] == s[i]; }
    forall i | 0 <= i < |x| ensures Ok(x[i]) { assert x[i] == s[|a| + i]; }
    forall i | 0 <= i < |c| ensures Ok(c[i]) { assert c[i] == s[|a| + |x| + i]; }
  }

  /** The extension and the free blocks it merges with are big enough together. */
  lemma GrewEnough(bs: seq<Blk>, a: seq<Blk>, u: seq<Blk>, f: Blk, x: nat, asize: nat)
    requires WellFormed(bs) && bs == a + u && AllFree(u) && a != [] && a[|a| - 1].live &&
      2 * f.size == |Flat(u)| + 2 * x
    requires x == Missing(bs, asize)
    ensures f.size >= asize
  {
    if u != [] {
      assert bs[|bs| - 1] == u[|u| - 1];
      var u0, l := u[..|u| - 1], u[|u| - 1];
      assert u == u0 + [l];
      FlatAppend(u0, [l]);
      FlatOne(l);
      assert Ok(bs[|bs| - 1]);
    }
  }

  lemma Extended(bs: seq<Blk>, a: seq<Blk>, u: seq<Blk>, f: Blk, x: nat)
    requires WellFormed(bs) && bs == a + u && AllFree(u) && !f.live && 2 * f.size == |Flat(u)| + 2 * x
    ensures Grants(a + [f] + [], 2) == Grants(bs, 2) && FreeSum(a + [f] + []) == FreeSum(bs) + x
  {
    hide Flat, Grants, FreeSum;
    assert a + u == a + u + [] && a + [f] + [] == a + [f];
    Parts(a, u, []);
    GrantsAppend(a, u, 2); GrantsAppend(a, [f], 2);
    FreeRunGrants(u, At(a)); GrantsOne(f, At(a));
  }

  lemma MergedOver(a: seq<Blk>, u: seq<Blk>, b: Blk, v: seq<Blk>, d: Blk)
    requires |Flat([d])| == |Flat(u + [b] + v)| && Ok(d) && Ok(b)
    ensures At(a) <= At(a + u) < At(a) + 2 * d.size
  {
    FlatAppend(a, u);
    FlatAppend(u + [b], v); FlatAppend(u, [b]);
    FlatOne(b); FlatOne(d);
  }

  lemma InList(bs: seq<Blk>, i: nat)
    requires AllOk(bs) && i < |bs|
    ensures Ok(bs[i])
  {
  }

  lemma NextSize(a: seq<Blk>, c: seq<Blk>)
    requires WellFormed(a + c) && a != []
    ensures c != [] ==> c[0].size >= 2
    ensures !a[|a| - 1].live ==> |a| >= 2 && a[|a| - 1].size >= 2
  {
    if c != [] { assert (a + c)[|a|] == c[0]; }
    assert (a + c)[|a| - 1] == a[|a| - 1];
  }

  /** A block made of `u0`, `b`, `v0` and grown by free neighbours stands for all of them. */
  lemma Widened(u: seq<Blk>, u0: seq<Blk>, b: Blk, v0: seq<Blk>, v: seq<Blk>, d1: Blk, d: Blk)
    requires |Flat([d1])| == |Flat(u0 + [b] + v0)| && |Flat([d])| == |Flat(u + [d1] + v)|
    ensures |Flat([d])| == |Flat((u + u0) + [b] + (v0 + v))|
  {
    hide Flat;
    FlatAppend(u + [d1], v); FlatAppend(u, [d1]);
    assert (u + u0) + [b] + (v0 + v) == u + (u0 + [b] + v0) + v;
    FlatAppend(u + (u0 + [b] + v0), v); FlatAppend(u, u0 + [b] + v0);
  }
}
