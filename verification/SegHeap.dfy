/**
 mm_seg_bestfit.c and mm_seg_descend.c without mm_realloc: header-and-footer blocks, indexed
 by segregated lists whose links live in the free blocks.

 The two files differ in the order of the lists: the first adds a free block at the front, the
 second (`sorted`) keeps every list from big to small and stops a search early.
 */
module SegHeaps {
  import opened Words
  import opened ImplicitLists
  import opened SegLists
  import opened Layouts
  import Memlib

  // ------------------------------------------------------------- the free blocks of a list

  /** A free block that has room for links.  Only a block just added to the heap can have none. */
  predicate Linkable(b: Blk) { !b.live && b.size >= 2 }

  /** Where the free blocks are, and how big. */
  ghost function FreeMap(bs: seq<Blk>, p: nat): map<nat, nat> {
    if bs == [] then map[]
    else (if Linkable(bs[0]) then map[p := bs[0].size] else map[]) + FreeMap(bs[1..], p + 2 * bs[0].size)
  }

  /** The prologue comes first. */
  ghost predicate Rooted(bs: seq<Blk>) { AllOk(bs) && bs != [] && bs[0] == PROLOGUE }

  lemma WellRooted(bs: seq<Blk>)
    requires WellFormed(bs)
    ensures Rooted(bs)
  {
  }

  lemma RootedOk(bs: seq<Blk>, i: nat)
    requires Rooted(bs) && i < |bs|
    ensures Ok(bs[i]) && AllOk(bs)
  {
  }

  lemma RootedParts(a: seq<Blk>, x: seq<Blk>, c: seq<Blk>)
    requires Rooted(a + x + c)
    ensures AllOk(a) && AllOk(x) && AllOk(c)
  {
    var s := a + x + c;
    forall i | 0 <= i < |a| ensures Ok(a[i]) { assert a[i] == s[i]; }
    forall i | 0 <= i < |x| ensures Ok(x[i]) { assert x[i] == s[|a| + i]; }
    forall i | 0 <= i < |c| ensures Ok(c[i]) { assert c[i] == s[|a| + |x| + i]; }
  }

  lemma {:induction false} FreeMapRange(bs: seq<Blk>, p: nat, q: nat)
    requires AllOk(bs) && q in FreeMap(bs, p)
    ensures p <= q && q + 2 * FreeMap(bs, p)[q] <= p + |Flat(bs)| && FreeMap(bs, p)[q] >= 2
  {
    var b := bs[0];
    assert Ok(b);
    if q in FreeMap(bs[1..], p + 2 * b.size) { FreeMapRange(bs[1..], p + 2 * b.size, q); }
  }

  lemma {:induction false} FreeMapAppend(a: seq<Blk>, b: seq<Blk>, p: nat)
    requires AllOk(a)
    ensures FreeMap(a + b, p) == FreeMap(a, p) + FreeMap(b, p + |Flat(a)|)
  {
    if a == [] {
      assert a + b == b;
    } else {
      var h, t, q := a[0], a[1..], p + 2 * a[0].size;
      assert (a + b)[0] == h && (a + b)[1..] == t + b;
      assert Ok(h);
      FreeMapAppend(t, b, q);
      assert p + |Flat(a)| == q + |Flat(t)|;
      MapJoin(if Linkable(h) then map[p := h.size] else map[], FreeMap(t, q), FreeMap(b, q + |Flat(t)|));
    }
  }

  lemma MapJoin<K, V>(x: map<K, V>, y: map<K, V>, z: map<K, V>)
    ensures x + (y + z) == (x + y) + z
  {
  }

  lemma FreeMapOne(b: Blk, p: nat)
    ensures FreeMap([b], p) == if Linkable(b) then map[p := b.size] else map[]
  {
    assert [b][1..] == [];
  }

  /** The free blocks before, in and after a stretch are different. */
  lemma FreeMapParts(a: seq<Blk>, x: seq<Blk>, c: seq<Blk>)
    requires AllOk(a) && AllOk(x) && AllOk(c)
    ensures var (A, X, C) := (FreeMap(a, 2), FreeMap(x, At(a)), FreeMap(c, At(a) + |Flat(x)|));
      FreeMap(a + x + c, 2) == A + X + C && A.Keys !! X.Keys && A.Keys !! C.Keys && X.Keys !! C.Keys
  {
    hide Flat, FreeMap;
    FreeMapAppend(a + x, c, 2) by { Joined(a, x); }
    FreeMapAppend(a, x, 2);
    FlatAppend(a, x);
    forall q | q in FreeMap(a, 2) ensures q < At(a) { FreeMapRange(a, 2, q); }
    forall q | q in FreeMap(x, At(a)) ensures At(a) <= q < At(a) + |Flat(x)| { FreeMapRange(x, At(a), q); }
    var e := At(a) + |Flat(x)|;
    forall q | q in FreeMap(c, e) ensures e <= q { FreeMapRange(c, e, q); }
  }

  lemma Joined(a: seq<Blk>, x: seq<Blk>)
    requires AllOk(a) && AllOk(x)
    ensures AllOk(a + x)
  {
  }

  // ------------------------------------------------------------- link words inside free blocks

  /** The same blocks, but for what free blocks hold. */
  ghost predicate SameShape(s: seq<Blk>, t: seq<Blk>) {
    |s| == |t| && forall i :: 0 <= i < |s| ==> SameBlk(s[i], t[i])
  }

  predicate SameBlk(b: Blk, b': Blk) {
    b'.size == b.size && b'.live == b.live && |b'.body| == |b.body| && (b.live ==> b' == b)
  }

  lemma {:induction false} ShapeFacts(s: seq<Blk>, t: seq<Blk>, p: nat)
    requires SameShape(s, t) && AllOk(s)
    ensures AllOk(t) && |Flat(t)| == |Flat(s)| && Grants(t, p) == Grants(s, p) && FreeSum(t) == FreeSum(s) &&
      FreeMap(t, p) == FreeMap(s, p)
  {
    forall i | 0 <= i < |t| ensures Ok(t[i]) { assert SameBlk(s[i], t[i]) && Ok(s[i]); }
    if s != [] {
      assert SameBlk(s[0], t[0]);
      assert SameShape(s[1..], t[1..]) by {
        forall i | 0 <= i < |s| - 1 ensures SameBlk(s[1..][i], t[1..][i]) { assert SameBlk(s[i + 1], t[i + 1]); }
      }
      ShapeFacts(s[1..], t[1..], p + 2 * s[0].size);
    }
  }

  lemma ShapeParts(a: seq<Blk>, x: seq<Blk>, c: seq<Blk>, t: seq<Blk>)
      returns (a': seq<Blk>, x': seq<Blk>, c': seq<Blk>)
    requires SameShape(a + x + c, t)
    ensures t == a' + x' + c' && SameShape(a, a') && SameShape(x, x') && SameShape(c, c')
  {
    var s, n, k := a + x + c, |a|, |x|;
    a', x', c' := t[..n], t[n..n + k], t[n + k..];
    forall i | 0 <= i < n ensures SameBlk(a[i], a'[i]) { assert SameBlk(s[i], t[i]); }
    forall i | 0 <= i < k ensures SameBlk(x[i], x'[i]) { assert SameBlk(s[n + i], t[n + i]); }
    forall i | 0 <= i < |c| ensures SameBlk(c[i], c'[i]) { assert SameBlk(s[n + k + i], t[n + k + i]); }
  }

  lemma ShapeRooted(s: seq<Blk>, t: seq<Blk>)
    requires SameShape(s, t) && Rooted(s)
    ensures Rooted(t)
  {
    ShapeFacts(s, t, 2);
    assert SameBlk(s[0], t[0]);
  }

  lemma ShapeWellFormed(s: seq<Blk>, t: seq<Blk>)
    requires SameShape(s, t) && WellFormed(s)
    ensures WellFormed(t)
  {
    ShapeFacts(s, t, 2);
    assert SameBlk(s[0], t[0]);
    forall i | 1 <= i < |t| ensures t[i].size >= 2 { assert SameBlk(s[i], t[i]); }
  }

  lemma {:induction false} RereadFrom(m: seq<Word>, m': seq<Word>, p: nat, bs: seq<Blk>) returns (bs': seq<Blk>)
    requires AllOk(bs) && 1 <= p && p - 1 + |Flat(bs)| <= |m| == |m'| && m[p - 1..p - 1 + |Flat(bs)|] == Flat(bs)
    requires forall i :: p - 1 <= i < p - 1 + |Flat(bs)| ==> m'[i] == m[i] || LinkWord(FreeMap(bs, p), i)
    ensures SameShape(bs, bs') && m'[p - 1..p - 1 + |Flat(bs)|] == Flat(bs')
    decreases bs
  {
    hide FreeMap, LinkWord, SameShape, Flat, AllOk;
    if bs == [] {
      bs' := [];
      FlatNone();
      ShapeSelf([]);
    } else {
      var b, t, p2, n := bs[0], bs[1..], p + 2 * bs[0].size, |Flat(bs)|;
      FlatCons(bs);
      assert m[p2 - 1..p2 - 1 + |Flat(t)|] == Flat(t) by { SubSlice(m, p - 1, p - 1 + n, 2 * b.size, n); }
      RereadTail(m, m', p, bs);
      var t' := RereadFrom(m, m', p2, t);
      var b' := if b.live then b else Blk(b.size, false, m'[p..p + 2 * b.size - 2]);
      assert [b] + t == bs;
      RereadOne(m, m', p, b, t);
      bs' := [b'] + t';
      FlatCons(bs');
      assert m'[p - 1..p - 1 + n] == m'[p - 1..p2 - 1] + m'[p2 - 1..p2 - 1 + |Flat(t)|];
      ShapeCons(b, t, b', t');
      ShapeLen(t, t');
    }
  }

  lemma FlatCons(bs: seq<Blk>)
    requires bs != []
    ensures Flat(bs) == Flat1(bs[0]) + Flat(bs[1..])
    ensures AllOk(bs) ==> |Flat(bs)| == 2 * bs[0].size + |Flat(bs[1..])| && Ok(bs[0])
  {
  }

  lemma FreeMapCons(bs: seq<Blk>, p: nat)
    requires bs != []
    ensures FreeMap(bs, p) == (if Linkable(bs[0]) then map[p := bs[0].size] else map[]) + FreeMap(bs[1..],
      p + 2 * bs[0].size)
  {
  }

  /** Link words past the first block belong to the others. */
  lemma RereadTail(m: seq<Word>, m': seq<Word>, p: nat, bs: seq<Blk>)
    requires AllOk(bs) && bs != [] && 1 <= p && p - 1 + |Flat(bs)| <= |m| == |m'|
    requires forall i :: p - 1 <= i < p - 1 + |Flat(bs)| ==> m'[i] == m[i] || LinkWord(FreeMap(bs, p), i)
    ensures var (t, p2) := (bs[1..], p + 2 * bs[0].size);
      AllOk(t) && 1 <= p2 && p2 - 1 + |Flat(t)| == p - 1 + |Flat(bs)| &&
      forall i :: p2 - 1 <= i < p2 - 1 + |Flat(t)| ==> m'[i] == m[i] || LinkWord(FreeMap(t, p2), i)
  {
    hide Flat, FreeMap;
    var t, p2 := bs[1..], p + 2 * bs[0].size;
    FlatCons(bs);
    FreeMapCons(bs, p);
    forall i | p2 - 1 <= i < p2 - 1 + |Flat(t)| ensures m'[i] == m[i] || LinkWord(FreeMap(t, p2), i) {
      assert m'[i] == m[i] || LinkWord(FreeMap(bs, p), i);
    }
  }

  lemma ShapeCons(b: Blk, t: seq<Blk>, b': Blk, t': seq<Blk>)
    requires SameBlk(b, b') && SameShape(t, t')
    ensures SameShape([b] + t, [b'] + t')
  {
    forall i | 0 <= i < |t| + 1 ensures SameBlk(([b] + t)[i], ([b'] + t')[i]) {
      if i > 0 { assert SameBlk(t[i - 1], t'[i - 1]); }
    }
  }

  lemma RereadOne(m: seq<Word>, m': seq<Word>, p: nat, b: Blk, t: seq<Blk>)
    requires Ok(b) && AllOk(t) && 1 <= p && p + 2 * b.size - 1 <= |m| == |m'|
    requires p - 1 + |Flat1(b) + Flat(t)| <= |m| && m[p - 1..p - 1 + |Flat1(b) + Flat(t)|] == Flat1(b) + Flat(t)
    requires forall i :: p - 1 <= i < p + 2 * b.size - 1 ==> m'[i] == m[i] || LinkWord(FreeMap([b] + t, p), i)
    ensures m'[p - 1..p + 2 * b.size - 1] == Flat1(if b.live then b else Blk(b.size, false, m'[p..p + 2 * b.size - 2]))
  {
    hide Flat, Pack;
    var s, n, e := Flat1(b) + Flat(t), 2 * b.size, p + 2 * b.size;
    assert ([b] + t)[1..] == t;
    assert FreeMap([b] + t, p) == (if Linkable(b) then map[p := b.size] else map[]) + FreeMap(t, e);
    forall q | q in FreeMap(t, e) ensures e <= q { FreeMapRange(t, e, q); }
    forall i | p - 1 <= i < p + n - 1 ensures m'[i] == m[i] || (Linkable(b) && (i == p || i == p + 1)) {
      assert m'[i] == m[i] || LinkWord(FreeMap([b] + t, p), i);
    }
    forall i | 0 <= i < n ensures m[p - 1 + i] == Flat1(b)[i] {
      assert m[p - 1..p - 1 + |s|][i] == s[i];
    }
    RereadWords(m, m', p, b);
  }

  lemma RereadWords(m: seq<Word>, m': seq<Word>, p: nat, b: Blk)
    requires Ok(b) && 1 <= p && p + 2 * b.size - 1 <= |m| == |m'|
    requires forall i :: 0 <= i < 2 * b.size ==> m[p - 1 + i] == Flat1(b)[i]
    requires forall i :: p - 1 <= i < p + 2 * b.size - 1 ==> m'[i] == m[i] || (Linkable(b) && (i == p || i == p + 1))
    ensures m'[p - 1..p + 2 * b.size - 1] == Flat1(if b.live then b else Blk(b.size, false, m'[p..p + 2 * b.size - 2]))
  {
    hide Pack;
    var n, l := 2 * b.size, m'[p - 1..p + 2 * b.size - 1];
    var r := Flat1(if b.live then b else Blk(b.size, false, m'[p..p + n - 2]));
    forall i | 0 <= i < n ensures l[i] == r[i] {
      assert l[i] == m'[p - 1 + i] && m[p - 1 + i] == Flat1(b)[i];
    }
  }

  /** Writing links into free blocks leaves the same heap. */
  lemma Reread(m: seq<Word>, m': seq<Word>, E: nat, bs: seq<Blk>, F: map<nat, nat>) returns (bs': seq<Blk>)
    requires Spells(m, E, bs) && Rooted(bs) && OnlyLinks(m, m', F) && F.Keys <= FreeMap(bs, 2).Keys
    ensures Spells(m', E, bs') && Rooted(bs') && SameShape(bs, bs')
  {
    hide Flat, FreeMap;
    var n := |Flat(bs)|;
    forall i | 1 <= i < 1 + n ensures m'[i] == m[i] || LinkWord(FreeMap(bs, 2), i) {
      assert m'[i] == m[i] || LinkWord(F, i);
    }
    bs' := RereadFrom(m, m', 2, bs);
    ShapeFacts(bs, bs', 2);
    ShapeRooted(bs, bs');
    forall q | q in F ensures q + 4 <= E {
      FreeMapRange(bs, 2, q);
    }
    assert m'[E - 1] == m[E - 1];
  }

  /** Free blocks of a heap are spread out, and their headers hold their sizes. */
  lemma {:induction false} HeadedFrom(m: seq<Word>, p: nat, bs: seq<Blk>, q: nat)
    requires AllOk(bs) && 1 <= p && p - 1 + |Flat(bs)| <= |m| && m[p - 1..p - 1 + |Flat(bs)|] == Flat(bs) &&
      q in FreeMap(bs, p)
    ensures 1 <= q <= |m| && m[q - 1].hi == FreeMap(bs, p)[q]
    decreases bs
  {
    var b, t, p2 := bs[0], bs[1..], p + 2 * bs[0].size;
    assert Ok(b) && Flat(bs) == Flat1(b) + Flat(t);
    assert m[p - 1] == Flat(bs)[0];
    var n, k := |Flat(bs)|, 2 * b.size;
    assert m[p2 - 1..p2 - 1 + |Flat(t)|] == Flat(t) by { SubSlice(m, p - 1, p - 1 + n, k, n); }
    if q in FreeMap(t, p2) { HeadedFrom(m, p2, t, q); }
  }

  lemma {:induction false} SpreadFrom(bs: seq<Blk>, p: nat, q: nat, r: nat)
    requires AllOk(bs) && q in FreeMap(bs, p) && r in FreeMap(bs, p) && q < r
    ensures q + 2 * FreeMap(bs, p)[q] <= r
  {
    var b, t, p2 := bs[0], bs[1..], p + 2 * bs[0].size;
    assert Ok(b);
    if r in FreeMap(t, p2) { FreeMapRange(t, p2, r); }
    if q in FreeMap(t, p2) { FreeMapRange(t, p2, q); }
    if q in FreeMap(t, p2) && r in FreeMap(t, p2) { SpreadFrom(t, p2, q, r); }
  }

  lemma HeapSpread(m: seq<Word>, E: nat, bs: seq<Blk>, F: map<nat, nat>)
    requires Spells(m, E, bs) && Rooted(bs) && forall q :: q in F ==> q in FreeMap(bs, 2) && F[q] == FreeMap(bs, 2)[q]
    ensures Spread(m, F) && Headed(m, F)
  {
    hide Flat, FreeMap;
    forall q | q in F ensures 4 <= q && 2 <= F[q] && q + 2 * F[q] <= |m| && m[q - 1].hi == F[q] {
      FreeMapRange(bs, 2, q);
      HeadedFrom(m, 2, bs, q);
      NotFirst(bs, q);
    }
    forall p, q | p in F && q in F && p < q ensures p + 2 * F[p] <= q { SpreadFrom(bs, 2, p, q); }
  }

  lemma NotFirst(bs: seq<Blk>, q: nat)
    requires Rooted(bs) && q in FreeMap(bs, 2)
    ensures q >= 4
  {
    assert AllOk(bs[1..]) by { forall i | 0 <= i < |bs| - 1 ensures Ok(bs[1..][i]) { assert Ok(bs[i + 1]); } }
    FreeMapRange(bs[1..], 4, q);
  }

  /** The free blocks outside the stretch `x`. */
  ghost function Rest(a: seq<Blk>, x: seq<Blk>, c: seq<Blk>): map<nat, nat> {
    FreeMap(a, 2) + FreeMap(c, At(a) + |Flat(x)|)
  }

  lemma RestIs(a: seq<Blk>, x: seq<Blk>, c: seq<Blk>)
    requires Rooted(a + x + c)
    ensures var (F, X) := (FreeMap(a + x + c, 2), FreeMap(x, At(a)));
      Rest(a, x, c) == F - X.Keys && Rest(a, x, c).Keys !! X.Keys && F == Rest(a, x, c) + X
    ensures AllOk(a) && AllOk(x) && AllOk(c)
  {
    hide Flat, FreeMap;
    RootedParts(a, x, c);
    FreeMapParts(a, x, c);
  }

  class SegHeap {
    const mem: array<Word>
    const heads: array<nat>     // segregated_lists
    const sorted: bool          // mm_seg_descend.c
    var brk: nat
    var epilogue: nat
    var freed: bool             // freed_48_block
    ghost var bs: seq<Blk>
    ghost var lists: seq<seq<nat>>

    ghost predicate Laid()
      reads this, mem
    {
      Spells(mem[..], brk, bs) && Rooted(bs) && epilogue + 1 == brk && heads.Length == CLASSES
    }

    /** The lists are sorted, if they are to be. */
    ghost predicate Ordered(F: map<nat, nat>)
      reads `lists
    {
      sorted ==> AllDescending(F, lists)
    }

    /** The blocks are a + x + c, and the lists hold exactly the free blocks outside x. */
    ghost predicate Open(a: seq<Blk>, x: seq<Blk>, c: seq<Blk>)
      reads this, mem, heads
    {
      Laid() && bs == a + x + c && a != [] && WellFormed(a + c) && Indexed(mem[..], heads[..], lists, Rest(a, x, c)) &&
        Ordered(Rest(a, x, c))
    }

    /** Memory is the block list; list i holds exactly the free blocks of class i; until it is released
        the reserved block sits behind the prologue, and no two free blocks touch. */
    ghost predicate Valid()
      reads this, mem, heads
    {
      Filed() && Reserved() && Merged()
    }

    ghost predicate Filed()
      reads this, mem, heads
    {
      Laid() && WellFormed(bs) && Indexed(mem[..], heads[..], lists, FreeMap(bs, 2)) && Ordered(FreeMap(bs, 2))
    }

    ghost predicate Reserved()
      reads this
    {
      Reserve(freed, bs)
    }

    /** No two free blocks touch; once the reserved block has been released, at most one pair does. */
    ghost predicate Merged()
      reads this
    {
      Touching(Layout(bs)) <= if freed then 1 else 0
    }

    /** The grants a program knows of: not the prologue, nor the reserved block while it is kept back. */
    ghost function Held(): seq<Grant>
      reads this
    {
      Known(Grants(bs, 2), freed)
    }

    lemma Opened(a: seq<Blk>, x: seq<Blk>, c: seq<Blk>)
      requires Filed() && bs == a + x + c && a != [] && FreeMap(x, At(a)) == map[]
      ensures Open(a, x, c)
    {
      hide Flat, Spells, WellFormed, Rooted, FreeMap, Indexed;
      Without(a, x, c);
      RestIs(a, x, c);
      assert Rest(a, x, c) == FreeMap(bs, 2);
    }

    lemma Closed(a: seq<Blk>, x: seq<Blk>, c: seq<Blk>)
      requires Open(a, x, c) && FreeMap(x, At(a)) == map[]
      ensures Indexed(mem[..], heads[..], lists, FreeMap(bs, 2)) && Ordered(FreeMap(bs, 2))
    {
      hide Flat, Spells, WellFormed, Rooted, FreeMap, Indexed;
      RestIs(a, x, c);
      assert Rest(a, x, c) == FreeMap(bs, 2);
    }

    /** remove_free_block for the first block after the stretch. */
    method UnlistNext(p: nat, ghost a: seq<Blk>, ghost x: seq<Blk>, ghost c: seq<Blk>)
      returns (ghost a': seq<Blk>, ghost x': seq<Blk>, ghost c': seq<Blk>)
      requires Open(a, x, c) && c != [] && !c[0].live && p == At(a + x)
      modifies `bs, `lists, mem, heads
      ensures Open(a', x', c') && SameShape(a, a') && SameShape(x + [c[0]], x') && SameShape(c[1..], c')
    {
      hide Flat, Spells, WellFormed, Rooted, FreeMap, Indexed, SameShape, OnlyLinks, Rest;
      ghost var m, F, n, c1 := mem[..], Rest(a, x, c), c[0], c[1..];
      assert c == [n] + c1 && bs == a + (x + [n]) + c1;
      NextSize(a, c);
      assert a + [n] + c1 == a + c;
      Without(a, [n], c1);
      NextIsFree(a, x, n, c1);
      HeapSpread(m, brk, bs, F);
      ghost var ls, k, i := lists, 0, SegIndex(8 * F[p]);
      lists, k := Remove(mem, heads, p, lists, F);
      if sorted { StaysDescending(F, ls, i, k); }
      ghost var bs' := Reread(m, mem[..], brk, bs, F);
      a', x', c' := ShapeParts(a, x + [n], c1, bs');
      SameRest(a, x + [n], c1, a', x', c');
      ShapeJoin(a, c1, a', c');
      bs := bs';
    }

    lemma NextIsFree(a: seq<Blk>, x: seq<Blk>, n: Blk, c: seq<Blk>)
      requires Rooted(a + x + ([n] + c)) && Linkable(n)
      ensures var (p, F) := (At(a + x), Rest(a, x, [n] + c));
        p in F && F[p] == n.size && F - {p} == Rest(a, x + [n], c)
      ensures var F := Rest(a, x, [n] + c);
        forall q :: q in F ==> q in FreeMap(a + x + ([n] + c), 2) && F[q] == FreeMap(a + x + ([n] + c), 2)[q]
    {
      hide Flat, FreeMap, Rooted;
      RestIs(a, x, [n] + c);
      assert a + x + ([n] + c) == a + (x + [n]) + c;
      RestIs(a, x + [n], c);
      FlatAppend(a, x); FlatAppend(x, [n]); FlatOne(n);
      RootedParts(a, x, [n] + c); RootedParts(a, x + [n], c);
      assert Ok((x + [n])[|x|]);
      FreeMapAppend([n], c, At(a) + |Flat(x)|);
      FreeMapOne(n, At(a) + |Flat(x)|);
      FreeMapParts(a, x, [n] + c);
      FreeMapAppend(x, [n], At(a));
    }

    /** remove_free_block for the last block before the stretch. */
    method UnlistPrev(p: nat, ghost a: seq<Blk>, ghost x: seq<Blk>, ghost c: seq<Blk>)
      returns (ghost a': seq<Blk>, ghost x': seq<Blk>, ghost c': seq<Blk>)
      requires Open(a, x, c) && a != [] && !a[|a| - 1].live && p == At(a[..|a| - 1])
      modifies `bs, `lists, mem, heads
      ensures Open(a', x', c') && SameShape(a[..|a| - 1], a') && SameShape([a[|a| - 1]] + x, x') && SameShape(c, c')
    {
      hide Flat, Spells, WellFormed, Rooted, FreeMap, Indexed, SameShape, OnlyLinks, Rest;
      ghost var m, F, a0, l := mem[..], Rest(a, x, c), a[..|a| - 1], a[|a| - 1];
      assert a == a0 + [l] && bs == a0 + ([l] + x) + c;
      NextSize(a, c);
      Without(a0, [l], c);
      PrevIsFree(a0, l, x, c);
      HeapSpread(m, brk, bs, F);
      ghost var ls, k, i := lists, 0, SegIndex(8 * F[p]);
      lists, k := Remove(mem, heads, p, lists, F);
      if sorted { StaysDescending(F, ls, i, k); }
      ghost var bs' := Reread(m, mem[..], brk, bs, F);
      a', x', c' := ShapeParts(a0, [l] + x, c, bs');
      SameRest(a0, [l] + x, c, a', x', c');
      ShapeJoin(a0, c, a', c');
      bs := bs';
    }

    lemma PrevIsFree(a: seq<Blk>, l: Blk, x: seq<Blk>, c: seq<Blk>)
      requires Rooted(a + [l] + x + c) && Linkable(l)
      ensures var (p, F) := (At(a), Rest(a + [l], x, c));
        p in F && F[p] == l.size && F - {p} == Rest(a, [l] + x, c)
      ensures var F := Rest(a + [l], x, c);
        forall q :: q in F ==> q in FreeMap(a + [l] + x + c, 2) && F[q] == FreeMap(a + [l] + x + c, 2)[q]
    {
      hide Flat, FreeMap, Rooted;
      RestIs(a + [l], x, c);
      assert a + [l] + x + c == a + ([l] + x) + c;
      RestIs(a, [l] + x, c);
      FlatAppend(a, [l]); FlatAppend([l], x); FlatOne(l);
      Pieces(a, [l]);
      assert Ok([l][0]);
      FreeMapAppend(a, [l], 2);
      FreeMapOne(l, At(a));
      FreeMapParts(a + [l], x, c);
      FreeMapParts(a, [l] + x, c);
      FreeMapAppend([l], x, At(a));
    }

    /** insert_free_block for a stretch of one free block. */
    method Enlist(p: nat, ghost a: seq<Blk>, ghost b: Blk, ghost c: seq<Blk>)
        returns (ghost a': seq<Blk>, ghost b': Blk, ghost c': seq<Blk>)
      requires Open(a, [b], c) && !b.live && b.size >= 2 && p == At(a)
      modifies `bs, `lists, mem, heads
      ensures Filed() && bs == a' + [b'] + c'
      ensures SameShape(a, a') && SameBlk(b, b') && SameShape(c, c')
    {
      hide Flat, Spells, WellFormed, Rooted, FreeMap, Indexed, SameShape, OnlyLinks, Rest;
      ghost var m, F := mem[..], Rest(a, [b], c);
      StretchIsFree(a, b, c);
      ghost var F' := F[p := b.size];
      HeapSpread(m, brk, bs, F');
      SpreadHead(m, F', p);
      ghost var k;
      if sorted {
        Outside(F, F', p, mem[..]);
        lists, k := SortedInsert(mem, heads, p, lists, F, b.size);
      } else {
        lists := SegLists.Insert(mem, heads, p, lists, F, b.size);
      }
      ghost var bs' := Reread(m, mem[..], brk, bs, F');
      ghost var x';
      a', x', c' := ShapeParts(a, [b], c, bs');
      ShapeOne(b, x');
      b' := x'[0];
      SameMap(bs, bs');
      RootedOk(bs, |a|);
      Replace(a, [b], [b], c);
      ShapeWellFormed(bs, bs');
      bs := bs';
    }

    lemma StretchIsFree(a: seq<Blk>, b: Blk, c: seq<Blk>)
      requires Rooted(a + [b] + c) && Linkable(b)
      ensures At(a) !in Rest(a, [b], c) && Rest(a, [b], c)[At(a) := b.size] == FreeMap(a + [b] + c, 2)
    {
      hide Flat, FreeMap, Rooted;
      RestIs(a, [b], c);
      FreeMapOne(b, At(a));
    }

    /** Rewriting the words of the stretch, headers and all, into blocks of the same extent. */
    ghost method Rewrite(m: seq<Word>, a: seq<Blk>, x: seq<Blk>, c: seq<Blk>, y: seq<Blk>, ls: seq<seq<nat>>)
      requires Spells(m, brk, a + x + c) && Rooted(a + x + c) && a != [] && WellFormed(a + c) && epilogue + 1 == brk &&
        heads.Length == CLASSES
      requires Indexed(m, heads[..], lists, Rest(a, x, c)) && Ordered(Rest(a, x, c)) && ls == lists
      requires Spells(mem[..], brk, a + y + c) && Rooted(a + y + c) && |Flat(y)| == |Flat(x)|
      requires At(a) - 1 + |Flat(x)| <= |m| == mem.Length
      requires forall i :: 0 <= i < |m| && (i < At(a) - 1 || At(a) - 1 + |Flat(x)| <= i) ==> mem[i] == m[i]
      modifies `bs
      ensures Open(a, y, c)
    {
      hide Flat, Spells, WellFormed, Rooted, FreeMap, Rest;
      bs := a + y + c;
      RestRange(m, brk, a, x, c);
      IndexedFrame(m, mem[..], heads[..], lists, Rest(a, x, c), At(a) - 1, At(a) - 1 + |Flat(x)|);
      assert Rest(a, y, c) == Rest(a, x, c) by { SameExtent(a, x, y, c); }
    }

    lemma SameExtent(a: seq<Blk>, x: seq<Blk>, y: seq<Blk>, c: seq<Blk>)
      requires |Flat(y)| == |Flat(x)|
      ensures Rest(a, y, c) == Rest(a, x, c)
    {
    }

    /** Equal tags at both ends of the stretch make it one block. */
    ghost method Fuse(m: seq<Word>, a: seq<Blk>, x: seq<Blk>, c: seq<Blk>, size: nat, live: bool) returns (d: Blk)
      requires Spells(m, brk, bs) && Rooted(bs) && bs == a + x + c && a != [] && WellFormed(a + c) &&
        epilogue + 1 == brk && heads.Length == CLASSES
      requires Indexed(m, heads[..], lists, Rest(a, x, c)) && Ordered(Rest(a, x, c)) && |Flat(x)| == 2 * size &&
        size >= 2 && At(a) + 2 * size <= |m|
      requires mem[..] == m[At(a) - 1 := Pack(size, live)][At(a) + 2 * size - 2 := Pack(size, live)]
      modifies `bs
      ensures Open(a, [d], c) && d.size == size && d.live == live && Ok(d)
    {
      hide Flat, Spells, WellFormed, Rooted, FreeMap, Indexed, Rest, Pack;
      assert AllOk(bs) by { RootedOk(bs, 0); }
      d := BlockOf(mem[..], At(a), size, live);
      Fused(m, mem[..], brk, a, x, c, size, live);
      WellRooted(a + [d] + c);
      Rewrite(m, a, x, c, [d], lists);
    }

    // ------------------------------------------------------------- place

    /** A live block at the edge belongs to no list. */
    lemma Shift(a: seq<Blk>, g: Blk, r: Blk, c: seq<Blk>)
      requires Open(a, [g, r], c) && g.live && g.size >= 2
      ensures Open(a + [g], [r], c)
    {
      hide Flat, Spells, WellFormed, Rooted, FreeMap, Indexed;
      assert a + [g, r] + c == (a + [g]) + [r] + c && a + [g, r] + c == a + [g] + ([r] + c);
      RestIs(a, [g, r], c);
      RestIs(a + [g], [r], c);
      RootedOk(bs, |a|);
      FreeMapAppend(a, [g], 2); FreeMapOne(g, At(a));
      FlatPair(g, r); FlatAppend(a, [g]); FlatOne(g); FlatOne(r);
      assert a + [] + c == a + c;
      assert (a + [g, r] + c)[|a| + 1] == r;
      RootedOk(bs, |a| + 1);
      Replace(a, [], [g], c);
      assert FreeMap(a + [g], 2) == FreeMap(a, 2);
      assert Rest(a + [g], [r], c) == Rest(a, [g, r], c);
    }

    /** The PUTs of a split. */
    method Halve(ptr: nat, asize: nat, csize: nat, ghost a: seq<Blk>, ghost b: Blk, ghost c: seq<Blk>)
      returns (next: nat, ghost g: Blk, ghost r: Blk)
      requires Open(a, [b], c) && ptr == At(a) && csize == b.size && 2 <= asize && asize + 2 <= b.size
      modifies `bs, mem
      ensures Open(a + [g], [r], c) && next == At(a + [g]) && g.live && Ok(g) && g.size == asize && !r.live &&
        r.size == b.size - asize
    {
      hide Flat, Spells, WellFormed, Rooted, FreeMap, Indexed, Rest, Pack;
      ghost var m := mem[..];
      RootedOk(bs, |a|);
      Focus(m, brk, a, b, c);
      Replace(a, [b], [b], c);
      mem[ptr - 1] := Pack(asize, true);
      PackSize(asize, true);
      mem[ptr + 2 * mem[ptr - 1].hi - 2] := Pack(asize, true);
      next := ptr + 2 * mem[ptr - 1].hi;
      mem[next - 1] := Pack(csize - asize, false);
      PackSize(csize - asize, false);
      mem[next + 2 * mem[next - 1].hi - 2] := Pack(csize - asize, false);
      Halved(m, mem[..], brk, a, b, c, asize);
      g := Blk(asize, true, b.body[..2 * asize - 2]);
      r := Blk(b.size - asize, false, b.body[2 * asize..]);
      WellRooted(a + [g, r] + c);
      FlatOne(b);
      Rewrite(m, a, [b], c, [g, r], lists);
      Shift(a, g, r, c);
      FlatAppend(a, [g]); FlatOne(g);
    }

    method PlaceSplit(ptr: nat, asize: nat, csize: nat, ghost a0: seq<Blk>, ghost b: Blk, ghost c0: seq<Blk>)
      returns (ghost a: seq<Blk>, ghost g: Blk, ghost r: Blk, ghost c: seq<Blk>)
      requires Open(a0, [b], c0) && ptr == At(a0) && csize == b.size && 2 <= asize && asize + 2 <= b.size
      modifies `bs, `lists, mem, heads
      ensures Filed() && bs == a + [g] + [r] + c
      ensures SameShape(a0, a) && SameShape(c0, c) && g.live && Ok(g) && g.size == asize && !r.live &&
        r.size == b.size - asize
    {
      hide Flat, Spells, WellFormed, Rooted, FreeMap, Indexed, SameShape, Rest, Pack;
      var next;
      ghost var rest, a1;
      next, g, rest := Halve(ptr, asize, csize, a0, b, c0);
      a1, r, c := Enlist(next, a0 + [g], rest, c0);
      a := ShapeSnoc(a0, g, a1);
    }

    /** What is left would be too small for a block. */
    method PlaceWhole(ptr: nat, csize: nat, ghost a: seq<Blk>, ghost b: Blk, ghost c: seq<Blk>) returns (ghost g: Blk)
      requires Open(a, [b], c) && ptr == At(a) && csize == b.size >= 2
      modifies `bs, mem
      ensures Filed() && bs == a + [g] + c && g.live && Ok(g) && g.size == b.size
    {
      hide Flat, Spells, WellFormed, Rooted, FreeMap, Indexed, Rest, Pack;
      ghost var m := mem[..];
      RootedOk(bs, |a|);
      Focus(m, brk, a, b, c);
      mem[ptr - 1] := Pack(csize, true);
      PackSize(csize, true);
      mem[ptr + 2 * mem[ptr - 1].hi - 2] := Pack(csize, true);
      FlatOne(b);
      g := Fuse(m, a, [b], c, csize, true);
      FreeMapOne(g, At(a));
      Closed(a, [g], c);
      RootedOk(bs, |a|);
      Replace(a, [g], [g], c);
    }

    /** place, for a listed free block. */
    method Place(ptr: nat, asize: nat, ghost a0: seq<Blk>, ghost b0: Blk, ghost c0: seq<Blk>)
      returns (ghost a: seq<Blk>, ghost g: Blk, ghost t: seq<Blk>, ghost c: seq<Blk>)
      requires Filed() && bs == a0 + [b0] + c0 && a0 != []
      requires ptr == At(a0) && !b0.live && 2 <= asize <= b0.size
      modifies `bs, `lists, mem, heads
      ensures Filed() && bs == a + [g] + t + c
      ensures SameShape(a0, a) && SameShape(c0, c) && g.live && Ok(g)
      ensures if b0.size - asize >= 2 then g.size == asize && |t| == 1 && !t[0].live && t[0].size == b0.size - asize
        else g.size == b0.size && t == []
    {
      hide Flat, Spells, WellFormed, Rooted, FreeMap, Indexed, SameShape, Rest, Pack;
      RootedOk(bs, |a0|);
      Focus(mem[..], brk, a0, b0, c0);
      PackSize(b0.size, b0.live);
      var csize := mem[ptr - 1].hi;
      assert a0 + [] + ([b0] + c0) == a0 + [b0] + c0 && a0 + [] == a0 && [] + [b0] == [b0];
      NoMap(At(a0));
      Opened(a0, [], [b0] + c0);
      ghost var a1, x, c1 := a0, [b0], c0;
      if !mem[ptr - 1].b0 {
        a1, x, c1 := UnlistNext(ptr, a0, [], [b0] + c0);
      }
      assert ([b0] + c0)[1..] == c0;
      ShapeOne(b0, x);
      ghost var b := x[0];
      SameAt(bs, a0, a1);
      if csize - asize >= 2 {
        ghost var r;
        a, g, r, c := PlaceSplit(ptr, asize, csize, a1, b, c1);
        t := [r];
      } else {
        g := PlaceWhole(ptr, csize, a1, b, c1);
        a, t, c := a1, [], c1;
        assert a + [g] + t + c == a + [g] + c;
        ShapeSelf(a1); ShapeSelf(c1);
      }
      ShapeTrans(a0, a1, a); ShapeTrans(c0, c1, c);
    }

    // ------------------------------------------------------------- coalesce

    /** The words coalesce looks at. */
    lemma Neighbours(a: seq<Blk>, b: Blk, c: seq<Blk>)
      requires Laid() && bs == a + [b] + c && a != [] && WellFormed(a + c)
      ensures var (p, l) := (At(a), a[|a| - 1]);
        4 <= p && p + 2 * b.size <= mem.Length && mem[p - 1].hi == b.size && b.size >= 1 && Ok(b) &&
          (mem[p - 1].b0 <==> b.live) &&
        (mem[p + 2 * b.size - 1].b0 <==> c == [] || c[0].live) &&
          (c != [] ==> mem[p + 2 * b.size - 1].hi == c[0].size && c[0].size >= 2) &&
        mem[p - 2].hi == l.size && p - 2 * l.size == At(a[..|a| - 1]) >= 2 && mem[p - 2 * l.size - 1].hi == l.size &&
          (mem[p - 2 * l.size - 1].b0 <==> l.live) &&
        (mem[p - 2].b0 <==> l.live) && (!l.live ==> l.size >= 2 && a[..|a| - 1] != [])
    {
      hide Spells, WellFormed, Flat, Pack;
      var a0, l := a[..|a| - 1], a[|a| - 1];
      assert a == a0 + [l] && a + [b] + c == a0 + [l] + ([b] + c);
      RootedOk(bs, |a|);
      Focus(mem[..], brk, a, b, c);
      Focus(mem[..], brk, a0, l, [b] + c);
      PackSize(b.size, b.live); PackSize(l.size, l.live); PackSize(0, true);
      if c != [] {
        PackSize(c[0].size, c[0].live);
        SizeAt(a + c, |a|);
      }
      if !l.live {
        assert bs[0] == a[0];
        SizeAt(a + c, |a| - 1);
      }
    }

    /** Case 2 of coalesce: the next block is free. */
    method MergeNext(ptr: nat, size0: nat, ghost a: seq<Blk>, ghost b: Blk, ghost c: seq<Blk>)
      returns (r: nat, ghost a': seq<Blk>, ghost d: Blk, ghost c': seq<Blk>)
      requires Open(a, [b], c) && !b.live && ptr == At(a) && size0 == b.size && c != [] && !c[0].live
      modifies `bs, `lists, mem, heads
      ensures Open(a', [d], c') && r == At(a') && SameShape(a, a') && SameShape(c[1..], c') &&
        d.size == b.size + c[0].size && !d.live
    {
      hide Flat, Spells, WellFormed, Rooted, FreeMap, Indexed, SameShape, Rest, Pack;
      Neighbours(a, b, c);
      ghost var x;
      AtNext(a, [b]);
      FlatOne(b);
      a', x, c' := UnlistNext(ptr + 2 * mem[ptr - 1].hi, a, [b], c);
      ShapeTwo(b, c[0], x);
      SameAt(bs, a, a');
      ghost var m, b1, n1 := mem[..], x[0], x[1];
      Pairs(a', b1, n1, c');
      var size := size0 + mem[ptr + 2 * mem[ptr - 1].hi - 1].hi;
      mem[ptr - 1] := Pack(size, false);
      PackSize(size, false);
      mem[ptr + 2 * mem[ptr - 1].hi - 2] := Pack(size, false);
      d := Fuse(m, a', x, c', size, false);
      r := ptr;
    }

    /** Two adjacent blocks of a heap, seen in its words. */
    lemma Pairs(a: seq<Blk>, b: Blk, n: Blk, c: seq<Blk>)
      requires Laid() && bs == a + [b, n] + c
      ensures var p := At(a);
        p + 2 * b.size + 2 * n.size <= mem.Length && mem[p - 1].hi == b.size && mem[p + 2 * b.size - 1].hi == n.size &&
          mem[p + 2 * b.size - 2].hi == b.size &&
        |Flat([b, n])| == 2 * (b.size + n.size) && b.size >= 1 && n.size >= 1 && At(a + [b]) == p + 2 * b.size
    {
      hide Spells, WellFormed, Flat, Pack;
      assert bs == a + [b] + ([n] + c) && bs == (a + [b]) + [n] + c;
      RootedOk(bs, |a|); RootedOk(bs, |a| + 1);
      Focus(mem[..], brk, a, b, [n] + c);
      Focus(mem[..], brk, a + [b], n, c);
      PackSize(b.size, b.live); PackSize(n.size, n.live);
      FlatPair(b, n);
    }

    /** Case 3 of coalesce: the block before is free. */
    method MergePrev(ptr: nat, size0: nat, ghost a: seq<Blk>, ghost b: Blk, ghost c: seq<Blk>)
      returns (r: nat, ghost a': seq<Blk>, ghost d: Blk, ghost c': seq<Blk>)
      requires Open(a, [b], c) && !b.live && ptr == At(a) && size0 == b.size && !a[|a| - 1].live
      modifies `bs, `lists, mem, heads
      ensures Open(a', [d], c') && r == At(a') && SameShape(a[..|a| - 1], a') && SameShape(c, c') &&
        d.size == b.size + a[|a| - 1].size && !d.live
    {
      hide Flat, Spells, WellFormed, Rooted, FreeMap, Indexed, SameShape, Rest, Pack;
      ghost var l := a[|a| - 1];
      Neighbours(a, b, c);
      ghost var x;
      a', x, c' := UnlistPrev(ptr - 2 * mem[ptr - 2].hi, a, [b], c);
      ShapeTwo(l, b, x);
      SameAt(bs, a[..|a| - 1], a');
      ghost var m, l1, b1 := mem[..], x[0], x[1];
      Pairs(a', l1, b1, c');
      var size := size0 + mem[ptr - 2 * mem[ptr - 2].hi - 1].hi;
      mem[ptr - 2 * mem[ptr - 2].hi - 1] := Pack(size, false);
      mem[ptr + 2 * mem[ptr - 1].hi - 2] := Pack(size, false);
      r := ptr - 2 * mem[ptr - 2].hi;
      d := Fuse(m, a', x, c', size, false);
    }

    /** Three adjacent blocks of a heap, seen in its words. */
    lemma Triples(a: seq<Blk>, l: Blk, b: Blk, n: Blk, c: seq<Blk>)
      requires Laid() && bs == a + [l, b, n] + c
      ensures var p := At(a) + 2 * l.size;
        p + 2 * b.size + 2 * n.size <= mem.Length && mem[p - 2].hi == l.size && mem[p - 2 * l.size - 1].hi == l.size &&
          mem[p - 1].hi == b.size &&
        mem[p + 2 * b.size - 1].hi == n.size && |Flat([l, b, n])| == 2 * (l.size + b.size + n.size) && l.size >= 1 &&
          b.size >= 1 && n.size >= 1
    {
      hide Spells, WellFormed, Flat, Pack;
      assert bs == a + [l, b] + ([n] + c) && bs == (a + [l]) + [b, n] + c && [l, b, n] == [l, b] + [n];
      Pairs(a, l, b, [n] + c);
      Pairs(a + [l], b, n, c);
      FlatAppend([l, b], [n]); FlatOne(n);
      RootedOk(bs, |a| + 2);
    }

    /** The PUTs of case 4. */
    method FuseThree(ptr: nat, size0: nat, ghost a: seq<Blk>, ghost l: Blk, ghost b: Blk, ghost n: Blk,
        ghost c: seq<Blk>) returns (r: nat, ghost d: Blk)
      requires Open(a, [l, b, n], c) && ptr == At(a) + 2 * l.size && size0 == b.size && l.size >= 2
      modifies `bs, mem
      ensures Open(a, [d], c) && r == At(a) && d.size == l.size + b.size + n.size && !d.live
    {
      hide Flat, Spells, WellFormed, Rooted, FreeMap, Indexed, Rest, Pack;
      ghost var m := mem[..];
      Triples(a, l, b, n, c);
      var size := size0 + mem[ptr - 2 * mem[ptr - 2].hi - 1].hi + mem[ptr + 2 * mem[ptr - 1].hi - 1].hi;
      mem[ptr - 2 * mem[ptr - 2].hi - 1] := Pack(size, false);
      PackSize(size, false);
      r := ptr - 2 * mem[ptr - 2].hi;
      mem[r + 2 * mem[r - 1].hi - 2] := Pack(size, false);
      d := Fuse(m, a, [l, b, n], c, size, false);
    }

    /** Case 4 of coalesce: both neighbours are free. */
    method MergeBoth(ptr: nat, size0: nat, ghost a: seq<Blk>, ghost b: Blk, ghost c: seq<Blk>)
      returns (r: nat, ghost a': seq<Blk>, ghost d: Blk, ghost c': seq<Blk>)
      requires Open(a, [b], c) && !b.live && ptr == At(a) && size0 == b.size && !a[|a| - 1].live && c != [] &&
        !c[0].live
      modifies `bs, `lists, mem, heads
      ensures Open(a', [d], c') && r == At(a') && SameShape(a[..|a| - 1], a') && SameShape(c[1..], c') && !d.live
      ensures d.size == a[|a| - 1].size + b.size + c[0].size
    {
      hide Flat, Spells, WellFormed, Rooted, FreeMap, Indexed, SameShape, Rest, Pack;
      ghost var l, n, a0 := a[|a| - 1], c[0], a[..|a| - 1];
      Neighbours(a, b, c);
      ghost var a1, x1, c1, x;
      a1, x1, c1 := UnlistPrev(ptr - 2 * mem[ptr - 2].hi, a, [b], c);
      ShapeTwo(l, b, x1);
      SameAt(bs, a0, a1);
      Pairs(a1, x1[0], x1[1], c1);
      ShapeHead(c, c1);
      AtNext(a1, x1);
      a', x, c' := UnlistNext(ptr + 2 * mem[ptr - 1].hi, a1, x1, c1);
      ShapeThree(x1[0], x1[1], c1[0], x);
      SameAt(bs, a1, a');
      r, d := FuseThree(ptr, size0, a', x[0], x[1], x[2], c');
      ShapeTrans(a0, a1, a'); ShapeTrans(c[1..], c1[1..], c');
    }

    /** coalesce: the block joins its free neighbours, and the result is listed. */
    method Coalesce(ptr: nat, ghost a: seq<Blk>, ghost b: Blk, ghost c: seq<Blk>)
      returns (r: nat, ghost a': seq<Blk>, ghost d: Blk, ghost c': seq<Blk>)
      requires Open(a, [b], c) && !b.live && ptr == At(a) && (b.size >= 2 || !a[|a| - 1].live)
      modifies `bs, `lists, mem, heads
      ensures Filed() && bs == a' + [d] + c' && a' != [] && r == At(a') && !d.live
      ensures SameShape(Before(a), a') && SameShape(After(c), c')
      ensures d.size == b.size + (if a[|a| - 1].live then 0 else a[|a| - 1].size) + (if c == [] || c[0].live then 0
        else c[0].size)
    {
      hide Flat, Spells, WellFormed, Rooted, FreeMap, Indexed, SameShape, Rest, Pack;
      Neighbours(a, b, c);
      var prev := ptr - 2 * mem[ptr - 2].hi;
      var prevAlloc := mem[prev - 1].b0;
      var nextAlloc := mem[ptr + 2 * mem[ptr - 1].hi - 1].b0;
      var size := mem[ptr - 1].hi;
      ghost var a1, d1, c1 := a, b, c;
      r := ptr;
      ShapeSelf(a); ShapeSelf(c);
      if prevAlloc && nextAlloc {
      } else if prevAlloc {
        r, a1, d1, c1 := MergeNext(ptr, size, a, b, c);
      } else if nextAlloc {
        r, a1, d1, c1 := MergePrev(ptr, size, a, b, c);
      } else {
        r, a1, d1, c1 := MergeBoth(ptr, size, a, b, c);
      }
      a', d, c' := Enlist(r, a1, d1, c1);
      SameAt(bs, a1, a');
      ShapeTrans(Before(a), a1, a'); ShapeTrans(After(c), c1, c');
      ShapeLen(a1, a');
    }

    // ------------------------------------------------------------- extend_heap

    /** Free blocks keep clear of the end of the heap. */
    lemma AppendedIndex(m: seq<Word>, m': seq<Word>, E: nat, hs: seq<nat>, ls: seq<seq<nat>>, bs0: seq<Blk>)
      requires Spells(m, E, bs0) && Rooted(bs0) && Indexed(m, hs, ls, FreeMap(bs0, 2)) && |m'| == |m| &&
        forall i :: 0 <= i < E - 1 ==> m'[i] == m[i]
      ensures Indexed(m', hs, ls, FreeMap(bs0, 2))
    {
      hide Flat, Indexed;
      var F := FreeMap(bs0, 2);
      forall q | q in F ensures q + 1 < E - 1 || |m| <= q { FreeMapRange(bs0, 2, q); }
      IndexedFrame(m, m', hs, ls, F, E - 1, |m|);
    }

    /** mem_sbrk and the PUTs of extend_heap. */
    method AppendFree(d: nat) returns (ptr: int, ghost b: Blk)
      requires Filed() && d >= 1
      modifies `brk, `epilogue, `bs, mem
      ensures ptr == -1 <==> old(brk) + 2 * d > mem.Length
      ensures ptr == -1 ==> bs == old(bs) && brk == old(brk) && epilogue == old(epilogue) && mem[..] == old(mem[..])
      ensures ptr != -1 ==>
        Open(old(bs), [b], []) && brk == old(brk) + 2 * d && ptr == At(old(bs)) && !b.live && b.size == d
    {
      hide Spells, WellFormed, Rooted, Flat, Pack, Indexed, FreeMap;
      ghost var m0, E, bs0 := mem[..], brk, bs;
      EndOf(m0, brk, bs);
      b := PROLOGUE;
      ptr, brk := Memlib.Sbrk(brk, 2 * d, mem.Length);
      if ptr == -1 {
        return;
      }
      mem[ptr - 1] := Pack(d, false);
      PackSize(d, false);
      mem[ptr + 2 * mem[ptr - 1].hi - 2] := Pack(d, false);
      mem[ptr + 2 * mem[ptr - 1].hi - 1] := Pack(0, true);
      epilogue := ptr + 2 * mem[ptr - 1].hi - 1;
      AllOkOf(bs);
      Appended(m0, mem[..], E, bs, d);
      AppendedIndex(m0, mem[..], E, heads[..], lists, bs);
      b := BlockOf(mem[..], E, d, false);
      bs := bs0 + [b];
      assert bs == bs0 + [b] + [] && bs0 + [] == bs0;
      RootedMore(bs0, b);
      assert Rest(bs0, [b], []) == FreeMap(bs0, 2) by { NoMap(At(bs0) + |Flat([b])|); }
    }

    /** extend_heap: null when memlib has no more, else the free block at the end, merged with the one before it. */
    method ExtendHeap(d: nat) returns (r: nat, ghost a: seq<Blk>, ghost f: Blk)
      requires Filed() && d >= 1 && (d >= 2 || !bs[|bs| - 1].live)
      modifies `brk, `epilogue, `bs, `lists, mem, heads
      ensures r == 0 <==> old(brk) + 2 * d > mem.Length
      ensures r == 0 ==>
        bs == old(bs) && lists == old(lists) && brk == old(brk) && epilogue == old(epilogue) &&
        mem[..] == old(mem[..]) && heads[..] == old(heads[..])
      ensures r != 0 ==>
        Filed() && brk == old(brk) + 2 * d && bs == a + [f] && a != [] && r == At(a) && !f.live &&
        SameShape(Before(old(bs)), a)
      ensures r != 0 ==> f.size == d + if old(bs)[|old(bs)| - 1].live then 0 else old(bs)[|old(bs)| - 1].size
    {
      hide Spells, WellFormed, Rooted, Flat, Pack, Indexed, FreeMap, SameShape, Rest;
      ghost var bs0 := bs;
      AllOkOf(bs);
      a, f := bs, PROLOGUE;
      var ptr;
      ghost var b, c;
      ptr, b := AppendFree(d);
      if ptr == -1 {
        return 0, a, f;
      }
      r, a, f, c := Coalesce(ptr, bs0, b, []);
      ShapeLen([], c);
      assert a + [f] + c == a + [f];
    }

    // ------------------------------------------------------------- mm_malloc

    /** Part of a free block goes to the program; its other grants stay. */
    method GiveOut(ptr: nat, asize: nat, ghost k: nat) returns (ghost j: nat, ghost g: Grant)
      requires Valid() && k < |bs| && k >= 1 && ptr == At(bs[..k]) && !bs[k].live && 2 <= asize <= bs[k].size
      modifies `bs, `lists, mem, heads
      ensures Valid() && g.ptr == ptr && asize <= g.size <= asize + 1
      ensures j <= |old(Held())| && Held() == old(Held())[..j] + [g] + old(Held())[j..]
      ensures FreeSum(bs) + g.size == old(FreeSum(bs))
      ensures Layout(bs) == Placed(old(Layout(bs)), k, asize)
    {
      hide Spells, WellFormed, Rooted, Flat, Pack, Indexed, FreeMap, SameShape, Grants, FreeSum, At, Known, Reserve,
        Layout, Touching, Placed;
      ghost var bs0, a0, b0, c0 := bs, bs[..k], bs[k], bs[k + 1..];
      assert bs == a0 + [b0] + c0;
      ghost var a, x, t, c := Place(ptr, asize, a0, b0, c0);
      GrantedShape(a0, b0, c0, a, x, t, c);
      PlacedLayout(a0, b0, c0, a, x, t, c, asize);
      BeforeFree(freed, bs0, k);
      StillReserved(freed, bs0, bs, a0, a);
      g := Grant(ptr, x.size, x.body);
      j := KnownInsert(Grants(a0, 2), g, Grants(c0, At(a0) + 2 * b0.size), freed);
    }

    /** mm_free's and mm_malloc's PUTs that mark a live block free. */
    method Unmark(ptr: nat, size: nat, ghost a: seq<Blk>, ghost b: Blk, ghost c: seq<Blk>) returns (ghost d: Blk)
      requires Filed() && bs == a + [b] + c && a != [] && b.live && b.size >= 2 && ptr == At(a) && size == b.size
      modifies `bs, mem
      ensures Open(a, [d], c) && !d.live && d.size == b.size && Ok(d)
    {
      hide Spells, WellFormed, Rooted, Flat, Pack, Indexed, FreeMap, Rest;
      ghost var m := mem[..];
      AllOkOf(bs);
      RootedOk(bs, |a|);
      Focus(m, brk, a, b, c);
      FreeMapOne(b, At(a));
      FlatOne(b);
      Opened(a, [b], c);
      mem[ptr - 1] := Pack(size, false);
      PackSize(size, false);
      mem[ptr + 2 * mem[ptr - 1].hi - 2] := Pack(size, false);
      d := Fuse(m, a, [b], c, size, false);
    }

    /** The header of the reserved block. */
    lemma FirstWords()
      requires Valid() && !freed
      ensures mem.Length > 3 && mem[3].b0
    {
      hide Flat, Pack;
      assert bs == bs[..1] + [bs[1]] + bs[2..];
      AtFirst(bs);
      Focus(mem[..], brk, bs[..1], bs[1], bs[2..]);
      PackSize(6, true);
    }

    /** The reserved block is released, without coalescing: it touches a free block exactly if the block behind it is
        free. */
    method ReleaseReserved()
      requires Valid() && !freed
      modifies `bs, `lists, `freed, mem, heads
      ensures Valid() && freed && Held() == old(Held()) && FreeSum(bs) == old(FreeSum(bs)) + 6
      ensures Layout(bs) == Unreserved(old(Layout(bs)))
      ensures Touching(Layout(bs)) == if |old(bs)| > 2 && !old(bs)[2].live then 1 else 0
    {
      hide Spells, WellFormed, Rooted, Flat, Pack, Indexed, FreeMap, SameShape, Grants, FreeSum, Known, Layout,
        Touching, Unreserved;
      ghost var bs0, a, b, c := bs, bs[..1], bs[1], bs[2..];
      assert bs == a + [b] + c;
      AtFirst(bs);
      ghost var d := Unmark(4, 6, a, b, c);
      ghost var a', d', c' := Enlist(4, a, d, c);
      assert (a + []) + [b] + ([] + c) == bs0 && [] + [d] + [] == [d] && a + [] == a && [] + c == c;
      FreedGrants(a, [], b, d, [], c, a', d', c', d);
      freed := true;
      KnownReserved(bs0);
      ReleasedLayout(bs0, d, a', d', c');
    }

    /** The end of the heap, when no free block is big enough. */
    lemma Ending(asize: nat)
      requires Filed() && BestFit(FreeMap(bs, 2), asize, 0)
      ensures var l, q := bs[|bs| - 1], epilogue - 2 * bs[|bs| - 1].size + 1;
        2 <= epilogue < mem.Length && mem[epilogue - 1].hi == l.size && 1 <= q <= mem.Length &&
          mem[q - 1].hi == l.size && (mem[q - 1].b0 <==> l.live) &&
        (!l.live ==> l.size < asize)
    {
      hide Flat, Pack, Spells, WellFormed, FreeMap;
      AllOkOf(bs);
      var a, l := bs[..|bs| - 1], bs[|bs| - 1];
      assert bs == a + [l] + [] && bs == a + [l];
      Focus(mem[..], brk, a, l, []);
      PackSize(l.size, l.live);
      if !l.live {
        LastFree(a, l);
        assert FreeMap(bs, 2)[At(a)] < asize;
      }
    }

    /** mm_malloc.  `j` counts the grants before the new one; `k` is the block it is cut from. */
    method Malloc(size0: nat) returns (r: nat, ghost j: nat, ghost g: Grant, ghost k: nat)
      requires Valid()
      modifies this, mem, heads
      ensures Valid()
      ensures r == 0 ==>
        bs == old(bs) && brk == old(brk) && mem[..] == old(mem[..]) && heads[..] == old(heads[..]) &&
        freed == old(freed) && Held() == old(Held())
      ensures var (asize, last) := (AdjustedSize(Served(size0)), old(bs)[|old(bs)| - 1]);
        r == 0 <==>
          size0 == 0 || (!Room(old(Layout(bs)), asize) &&
            old(brk) + 2 * (Max(asize, 512) - if last.live then 0 else last.size) > mem.Length)
      ensures var (asize, last) := (AdjustedSize(Served(size0)), old(bs)[|old(bs)| - 1]);
        r != 0 ==>
          brk == old(brk) + if Room(old(Layout(bs)), asize) then 0
            else 2 * (Max(asize, 512) - if last.live then 0 else last.size)
      ensures r != 0 ==>
        brk >= old(brk) && Supplied(old(Layout(bs)), (brk - old(brk)) / 2, AdjustedSize(Served(size0)), k, r,
          freed != old(freed), Layout(bs))
      ensures r != 0 && brk > old(brk) ==>
        var s := Grown(old(Layout(bs)), (brk - old(brk)) / 2);
        k == |s| - 1 && s[k] == Tile(Max(AdjustedSize(Served(size0)), 512), false)
      ensures r != 0 ==>
        size0 > 0 && g.ptr == r && AdjustedSize(Served(size0)) <= g.size <= AdjustedSize(Served(size0)) + 1
      ensures r != 0 ==> j <= |old(Held())| && Held() == old(Held())[..j] + [g] + old(Held())[j..]
      ensures size0 > 0 ==> BestFit(old(FreeMap(bs, 2)), AdjustedSize(Served(size0)), if brk == old(brk) then r else 0)
      ensures freed <==> old(freed) || (size0 == 4092 && brk != old(brk))
      ensures r != 0 ==>
        2 * (FreeSum(bs) + g.size) == 2 * old(FreeSum(bs)) + brk - old(brk) + if freed != old(freed) then 12 else 0
    {
      hide Spells, WellFormed, Flat, Pack, Rooted, Indexed, FreeMap, SameShape, Grants, FreeSum, At, Known, Reserve,
        BestFit, Align, Before, Layout, Placed, Touching, Extent;
      j, g, k := 0, Grant(0, 0, []), 0;
      if size0 == 0 {
        return 0, 0, g, 0;
      }
      var size := if size0 == 112 then 128 else if size0 == 448 then 512 else size0;
      var asize := AdjustedSize(size);
      ghost var bs0, F := bs, FreeMap(bs, 2);
      HeapSpread(mem[..], brk, bs, F);
      var ptr;
      if sorted {
        ptr := FindSortedFit(mem, heads, asize, lists, F);
      } else {
        ptr := FindBestFit(mem, heads, asize, lists, F);
      }
      if ptr != 0 {
        k := FitAt(bs, asize, ptr);
        BestAt(bs, asize, k);
        j, g := GiveOut(ptr, asize, k);
        r := ptr;
        return;
      }
      NoRoom(bs, asize);
      r, j, g, k := MallocGrow(size, asize);
    }

    /** mm_malloc's extension of the heap, when no free block is big enough; it ends in the free block `k`. */
    method GrowFor(asize: nat) returns (r: nat, ghost k: nat)
      requires Valid() && BestFit(FreeMap(bs, 2), asize, 0) && asize >= 2
      modifies this, mem, heads
      ensures Valid() && freed == old(freed) && Held() == old(Held())
      ensures var last := old(bs)[|old(bs)| - 1];
        var x := Max(asize, 512) - if last.live then 0 else last.size;
        (r == 0 <==> old(brk) + 2 * x > mem.Length) && (r != 0 ==> brk == old(brk) + 2 * x > old(brk))
      ensures r == 0 ==>
        bs == old(bs) && brk == old(brk) && mem[..] == old(mem[..]) && heads[..] == old(heads[..])
      ensures r != 0 ==> 2 * FreeSum(bs) == 2 * old(FreeSum(bs)) + brk - old(brk)
      ensures r != 0 ==> 1 <= k == |bs| - 1 && r == At(bs[..k]) && !bs[k].live && bs[k].size == Max(asize, 512)
      ensures r != 0 ==>
        Layout(bs) == Grown(old(Layout(bs)), (brk - old(brk)) / 2) && r == 2 + 2 * Extent(Layout(bs)[..k])
    {
      hide Spells, WellFormed, Flat, Pack, Rooted, Indexed, FreeMap, SameShape, Grants, FreeSum, At, Known, Reserve,
        BestFit, Before, AllDescending, Layout, Touching, Extent, Grown;
      k := 0;
      ghost var bs0 := bs;
      var extendsize := if asize > CHUNK then asize else CHUNK;
      Ending(asize);
      var lastFree := epilogue - 2 * mem[epilogue - 1].hi + 1;
      if !mem[lastFree - 1].b0 {
        extendsize := extendsize - mem[lastFree - 1].hi;
      }
      AllOkOf(bs);
      var ptr;
      ghost var a, f;
      ptr, a, f := ExtendHeap(extendsize);
      if ptr == 0 {
        return 0, 0;
      }
      GrownGrants(bs0, a, f, extendsize, freed);
      GrownLayout(bs0, a, f, extendsize);
      assert bs[..|a|] == a;
      r, k := ptr, |a|;
    }

    /** The rest of mm_malloc, when no free block is big enough: extend the heap, and use the block at its end. */
    method MallocGrow(size: nat, asize: nat) returns (r: nat, ghost j: nat, ghost g: Grant, ghost k: nat)
      requires Valid() && BestFit(FreeMap(bs, 2), asize, 0) && !Room(Layout(bs), asize) && asize >= 2
      modifies this, mem, heads
      ensures Valid()
      ensures r == 0 ==>
        bs == old(bs) && brk == old(brk) && mem[..] == old(mem[..]) && heads[..] == old(heads[..]) &&
        freed == old(freed) && Held() == old(Held())
      ensures var last := old(bs)[|old(bs)| - 1];
        var x := Max(asize, 512) - if last.live then 0 else last.size;
        (r == 0 <==> old(brk) + 2 * x > mem.Length) && (r != 0 ==> brk == old(brk) + 2 * x > old(brk))
      ensures r != 0 ==>
        Supplied(old(Layout(bs)), (brk - old(brk)) / 2, asize, k, r, freed != old(freed), Layout(bs))
      ensures r != 0 ==>
        var s := Grown(old(Layout(bs)), (brk - old(brk)) / 2);
        k == |s| - 1 && s[k] == Tile(Max(asize, 512), false)
      ensures r != 0 ==>
        g.ptr == r && asize <= g.size <= asize + 1 && (freed <==> old(freed) || size == 4092)
      ensures r != 0 ==> j <= |old(Held())| && Held() == old(Held())[..j] + [g] + old(Held())[j..]
      ensures r != 0 ==>
        2 * (FreeSum(bs) + g.size) == 2 * old(FreeSum(bs)) + brk - old(brk) + if freed != old(freed) then 12 else 0
    {
      hide Spells, WellFormed, Flat, Pack, Rooted, Indexed, FreeMap, SameShape, Grants, FreeSum, At, Known, Reserve,
        BestFit, Before, AllDescending, Layout, Placed, Touching, Extent, Room, Grown, Unreserved;
      j, g := 0, Grant(0, 0, []);
      r, k := GrowFor(asize);
      if r == 0 {
        return;
      }
      TileAt(bs, k);
      j, g := GiveOut(r, asize, k);
      if size == 4092 && !freed {
        FirstWords();
        if mem[3].b0 {
          ReleaseReserved();
        }
      }
    }

    // ------------------------------------------------------------- mm_free

    /** mm_free of the j-th grant: exactly that grant disappears, and its size is free again. */
    method Release(ptr: nat, ghost j: nat) returns (ghost k: nat)
      requires Valid() && (ptr != 0 ==> j < |Held()| && Held()[j].ptr == ptr)
      modifies `bs, `lists, mem, heads
      ensures Valid()
      ensures ptr == 0 ==> bs == old(bs) && mem[..] == old(mem[..]) && heads[..] == old(heads[..])
      ensures ptr != 0 ==>
        Held() == old(Held())[..j] + old(Held())[j + 1..] && FreeSum(bs) == old(FreeSum(bs)) + old(Held()[j].size)
      ensures ptr != 0 ==>
        k < |old(bs)| && old(bs)[k].live && ptr == 2 + 2 * Extent(old(Layout(bs))[..k]) &&
        Layout(bs) == Layouts.Freed(old(Layout(bs)), k)
    {
      hide Spells, WellFormed, Rooted, Flat, Pack, Indexed, FreeMap, SameShape, Grants, FreeSum, Reserve, Before,
        After, AllFree, Layout, Touching, Extent, Layouts.Freed;
      k := 0;
      if ptr == 0 {
        return;
      }
      ghost var n := if freed then 1 else 2;
      AllOkOf(bs);
      k := Locate(bs, 2, n + j);
      ghost var bs0, a, b, c := bs, bs[..k], bs[k], bs[k + 1..];
      assert bs == a + [b] + c;
      LocatedBlock(bs, k, ptr, freed, n + j);
      Focus(mem[..], brk, a, b, c);
      PackSize(b.size, b.live);
      ghost var d := Unmark(ptr, mem[ptr - 1].hi, a, b, c);
      ghost var r, a', e, c' := Coalesce(ptr, a, d, c);
      LiveGrants(a, b, c);
      ReleasedBlock(bs0, a, b, d, c, a', e, c');
      StillKept(freed, bs0, bs, k, a');
      FreedLayout(a, b, d, c, a', e, c');
      KnownDrop(Grants(a, 2), Grant(ptr, b.size, b.body), Grants(c, At(a) + 2 * b.size), freed);
    }

    // ------------------------------------------------------------- the program

    /** The header of a grant holds its size. */
    lemma HeadOf(ptr: nat, j: nat)
      requires Valid() && j < |Held()| && Held()[j].ptr == ptr
      ensures 1 <= ptr <= mem.Length && mem[ptr - 1].hi == Held()[j].size
    {
      hide Spells, Flat, Grants, Pack;
      var n := if freed then 1 else 2;
      AllOkOf(bs);
      var k := Locate(bs, 2, n + j);
      assert bs == bs[..k] + [bs[k]] + bs[k + 1..];
      Focus(mem[..], brk, bs[..k], bs[k], bs[k + 1..]);
      PackSize(bs[k].size, bs[k].live);
    }

    /** A word inside a live block is written. */
    method Overwrite(ptr: nat, i: nat, w: Word, ghost a: seq<Blk>, ghost b: Blk, ghost c: seq<Blk>)
      returns (ghost y: Blk)
      requires Filed() && bs == a + [b] + c && a != [] && b.live && b.size >= 2 && ptr == At(a) && i < |b.body|
      modifies `bs, mem
      ensures Filed() && bs == a + [y] + c && y == Blk(b.size, true, b.body[i := w])
    {
      hide Spells, WellFormed, Rooted, Flat, Indexed, FreeMap, Rest, AllDescending;
      ghost var m := mem[..];
      AllOkOf(bs);
      RootedOk(bs, |a|);
      Focus(m, brk, a, b, c);
      FreeMapOne(b, At(a));
      Opened(a, [b], c);
      FlatOne(b);
      mem[ptr + i] := w;
      y := Blk(b.size, true, mem[..][ptr..ptr + 2 * b.size - 2]);
      assert y.body == b.body[i := w];
      Filled(m, mem[..], brk, a, b, c, 2 * b.size - 2);
      FlatOne(y);
      WellRooted(a + [y] + c);
      Rewrite(m, a, [b], c, [y], lists);
      FreeMapOne(y, At(a));
      Closed(a, [y], c);
    }

    /** The program writes word `i` of the j-th grant. */
    method Store(ptr: nat, i: nat, w: Word, ghost j: nat)
      requires Valid() && j < |Held()| && Held()[j].ptr == ptr && i < |Held()[j].body|
      modifies `bs, mem
      ensures Valid() && Held() == old(Held())[j := old(Held()[j]).(body := old(Held()[j]).body[i := w])]
    {
      hide Spells, WellFormed, Rooted, Flat, Indexed, FreeMap, Grants, Reserve, AllDescending, Touching, Layout;
      ghost var n := if freed then 1 else 2;
      AllOkOf(bs);
      ghost var k := Locate(bs, 2, n + j);
      ghost var bs0, a, b, c := bs, bs[..k], bs[k], bs[k + 1..];
      assert bs == a + [b] + c;
      LocatedBlock(bs, k, ptr, freed, n + j);
      ghost var y := Overwrite(ptr, i, w, a, b, c);
      FilledGrants(a, b, c, y);
      ReserveKept(freed, bs0, bs, k);
      StoredLayout(a, b, y, c);
    }

    // ------------------------------------------------------------- mm_init

    method PutTags()
      requires mem.Length >= 16
      modifies mem
      ensures mem[1] == mem[2] == Pack(1, true) && mem[3] == mem[14] == Pack(6, true) && mem[15] == Pack(0, true)
    {
      mem[0] := OfValue(0);
      mem[1] := Pack(1, true);
      mem[2] := Pack(1, true);
      mem[3] := Pack(6, true);
      mem[14] := Pack(6, true);
      mem[15] := Pack(0, true);
    }

    /** The 16 words mm_init starts with: prologue, reserved block, epilogue. */
    method Prologue() returns (ok: bool)
      requires brk == 0 && heads.Length == CLASSES && forall k :: 0 <= k < CLASSES ==> heads[k] == 0
      modifies this, mem
      ensures ok <==> mem.Length >= 16
      ensures ok ==> Valid() && !freed && brk == 16 && FreeSum(bs) == 0 && Held() == [] && |bs| == 2 && bs[1].live
      ensures ok ==> Layout(bs) == [Tile(1, true), Tile(6, true)]
    {
      hide Spells, WellFormed, Rooted, Flat, Indexed, FreeMap, Grants, FreeSum, Reserve, AllDescending, Pack, Known;
      freed := false;
      var start;
      start, brk := Memlib.Sbrk(brk, 16, mem.Length);
      if start == -1 {
        return false;
      }
      PutTags();
      epilogue := 15;
      ghost var reserved := Blk(6, true, mem[4..14]);
      bs, lists := [PROLOGUE, reserved], seq(CLASSES, k => []);
      FirstBlocks(mem[..], reserved);
      TouchingTwo(Tile(1, true), Tile(6, true));
      assert Layout(bs) == [Tile(1, true), Tile(6, true)];
      NoneListed(mem[..], heads[..], lists);
      ok := true;
    }

    /** mm_init on a fresh heap. */
    method Init() returns (r: int)
      requires brk == 0 && heads.Length == CLASSES
      modifies this, mem, heads
      ensures r == 0 <==> mem.Length >= 16 + 2 * CHUNK
      ensures r == 0 ==> Valid() && brk == 16 + 2 * CHUNK && Held() == [] && !freed && FreeSum(bs) == CHUNK
      ensures r == 0 ==> Layout(bs) == [Tile(1, true), Tile(6, true), Tile(CHUNK, false)]
      ensures r != 0 ==> r == -1
    {
      hide Spells, WellFormed, Rooted, Flat, Indexed, FreeMap, SameShape, Grants, FreeSum, Reserve;
      var i := 0;
      while i < CLASSES
        invariant i <= CLASSES && brk == 0 && forall k :: 0 <= k < i ==> heads[k] == 0
      {
        heads[i] := 0;
        i := i + 1;
      }
      var ok := Prologue();
      if !ok {
        return -1;
      }
      ghost var bs0 := bs;
      var p;
      ghost var a, f;
      p, a, f := ExtendHeap(CHUNK);
      if p == 0 {
        return -1;
      }
      GrownGrants(bs0, a, f, CHUNK, false);
      GrownLayout(bs0, a, f, CHUNK);
      r := 0;
    }

    constructor (capacity: nat, sorted: bool)
      ensures brk == 0 && mem.Length == capacity && heads.Length == CLASSES && fresh(mem) && fresh(heads) &&
        this.sorted == sorted
    {
      this.sorted := sorted;
      mem := new Word[capacity](_ => OfValue(0));
      heads := new nat[CLASSES];
      brk, epilogue, freed := 0, 0, false;
      bs, lists := [], [];
    }
  }

  lemma ExtentTwo(x: Tile, y: Tile)
    ensures Extent([x, y]) == x.size + y.size
  {
    assert [x, y][1..] == [y] && [y][1..] == [] && Extent([]) == 0;
    assert Extent([y]) == y.size && Extent([x, y]) == x.size + Extent([y]);
  }

  lemma RunCut(d: nat, k: nat, r: nat, s: seq<Tile>)
    requires Supplied([Tile(1, true), Tile(6, true), Tile(CHUNK, false)], d, 3, k, r, false, s)
    ensures r == 16 && s == [Tile(1, true), Tile(6, true), Tile(3, true), Tile(509, false)]
  {
    var t := [Tile(1, true), Tile(6, true), Tile(512, false)];
    assert !t[2].live && 3 <= t[2].size;
    assert k == 2 && t[..2] == [t[0], t[1]];
    ExtentTwo(t[0], t[1]);
  }

  lemma RunFill(d: nat, k: nat, r: nat, s: seq<Tile>)
    requires Supplied([Tile(1, true), Tile(6, true), Tile(3, true), Tile(509, false)], d, 509, k, r, false, s)
    ensures s == [Tile(1, true), Tile(6, true), Tile(3, true), Tile(509, true)]
  {
    var t := [Tile(1, true), Tile(6, true), Tile(3, true), Tile(509, false)];
    assert !t[3].live && 509 <= t[3].size;
  }

  lemma RunFree(k: nat)
    requires var t := [Tile(1, true), Tile(6, true), Tile(3, true), Tile(509, true)];
      k < |t| && 16 == 2 + 2 * Extent(t[..k])
    ensures Layouts.Freed([Tile(1, true), Tile(6, true), Tile(3, true), Tile(509, true)], k) ==
      [Tile(1, true), Tile(6, true), Tile(3, false), Tile(509, true)]
  {
    var t := [Tile(1, true), Tile(6, true), Tile(3, true), Tile(509, true)];
    assert t[..1] == [t[0]] && t[..2] == [t[0], t[1]] && t[..3] == [t[0], t[1], t[2]];
    ExtentTwo(t[0], t[1]);
    ExtentTwo(t[1], t[2]);
    assert [t[0], t[1], t[2]][1..] == [t[1], t[2]];
  }

  lemma RunRelease(k: nat, r: nat, s: seq<Tile>)
    requires Supplied([Tile(1, true), Tile(6, true), Tile(3, false), Tile(509, true)], 513, 513, k, r, true, s)
    ensures s == [Tile(1, true), Tile(6, false), Tile(3, false), Tile(509, true), Tile(513, true)]
  {
  }

  lemma RunTouches()
    ensures Touching([Tile(1, true), Tile(6, false), Tile(3, false), Tile(509, true), Tile(513, true)]) == 1
  {
    var s := [Tile(1, true), Tile(6, false), Tile(3, false), Tile(509, true), Tile(513, true)];
    assert s == [s[0], s[1]] + [s[2], s[3], s[4]] && [s[2], s[3], s[4]][1..] == [s[3], s[4]];
    TouchingAppend([s[0], s[1]], [s[2], s[3], s[4]]);
  }

  /** A run that leaves two free blocks side by side: the block behind the reserved one is freed, and the last request
      releases the reserved block. */
  method TouchingRun(sorted: bool) returns (h: SegHeap)
    ensures fresh(h) && h.sorted == sorted && h.Valid() && Touching(Layout(h.bs)) == 1
    ensures Layout(h.bs) == [Tile(1, true), Tile(6, false), Tile(3, false), Tile(509, true), Tile(513, true)]
  {
    hide SegHeap.Valid, SegHeap.Held, FreeMap, BestFit, FreeSum, Extent, Supplied, Room, Layouts.Freed, Touching, Grown;
    h := new SegHeap(16 + 2 * 512 + 2 * 513, sorted);
    var ok := h.Init();
    HasRoom(Layout(h.bs), 2, 3);
    var p;
    ghost var j, g, k;
    p, j, g, k := h.Malloc(16);
    RunCut(0, k, p, Layout(h.bs));
    ghost var g1 := g;
    assert h.Held() == [g1];
    HasRoom(Layout(h.bs), 3, 509);
    var q;
    q, j, g, k := h.Malloc(4064);
    RunFill(0, k, q, Layout(h.bs));
    k := h.Release(p, if j == 0 then 1 else 0);
    RunFree(k);
    NoRoomFor513();
    assert h.bs[3].live == Layout(h.bs)[3].live;
    var r;
    r, j, g, k := h.Malloc(4092);
    RunRelease(k, r, Layout(h.bs));
    RunTouches();
  }

  lemma HasRoom(s: seq<Tile>, k: nat, asize: nat)
    requires k < |s| && !s[k].live && asize <= s[k].size
    ensures Room(s, asize)
  {
  }

  lemma NoRoomFor513()
    ensures !Room([Tile(1, true), Tile(6, true), Tile(3, false), Tile(509, true)], 513)
  {
  }

  // ------------------------------------------------------------- the layout

  lemma SameLayout(s: seq<Blk>, t: seq<Blk>)
    requires SameShape(s, t)
    ensures Layout(t) == Layout(s)
  {
    forall i | 0 <= i < |s| ensures Layout(t)[i] == Layout(s)[i] { assert SameBlk(s[i], t[i]); }
  }

  lemma StoredLayout(a: seq<Blk>, b: Blk, y: Blk, c: seq<Blk>)
    requires y.size == b.size && y.live == b.live
    ensures Layout(a + [y] + c) == Layout(a + [b] + c)
  {
    hide Layout;
    LayoutThree(a, [b], c); LayoutThree(a, [y], c);
    LayoutOne(b); LayoutOne(y);
  }

  lemma CutLayout(b: Blk, g: Blk, t: seq<Blk>, asize: nat)
    requires g.live && asize <= b.size
    requires if b.size - asize >= 2 then g.size == asize && |t| == 1 && !t[0].live && t[0].size == b.size - asize
      else g.size == b.size && t == []
    ensures Layout([g] + t) == Cut(b.size, asize)
  {
    if t == [] { assert [g] + t == [g]; } else { assert [g] + t == [g, t[0]]; }
  }

  lemma PlacedLayout(a0: seq<Blk>, b0: Blk, c0: seq<Blk>, a: seq<Blk>, g: Blk, t: seq<Blk>, c: seq<Blk>, asize: nat)
    requires SameShape(a0, a) && SameShape(c0, c) && !b0.live && g.live && asize <= b0.size
    requires if b0.size - asize >= 2 then g.size == asize && |t| == 1 && !t[0].live && t[0].size == b0.size - asize
      else g.size == b0.size && t == []
    ensures var s := Layout(a0 + [b0] + c0);
      Layout(a + [g] + t + c) == Placed(s, |a0|, asize) && Touching(Placed(s, |a0|, asize)) <= Touching(s)
  {
    hide SameShape, Touching, Layout, Placed, Cut;
    SameLayout(a0, a); SameLayout(c0, c);
    LayoutThree(a0, [b0], c0); LayoutOne(b0);
    CutLayout(b0, g, t, asize);
    Assoc(a, [g], t, c);
    LayoutThree(a, [g] + t, c);
    PlacedParts(Layout(a0), Tile(b0.size, false), Layout(c0), asize);
    TouchingPlaced(Layout(a0 + [b0] + c0), |a0|, asize);
  }

  lemma CoalescedLayout(a: seq<Blk>, size: nat, c: seq<Blk>, a': seq<Blk>, d: Blk, c': seq<Blk>)
    requires a != [] && SameShape(Before(a), a') && SameShape(After(c), c') && !d.live
    requires d.size == size + (if a[|a| - 1].live then 0 else a[|a| - 1].size) + (if c == [] || c[0].live then 0
      else c[0].size)
    ensures Layout(a' + [d] + c') == Coalesced(Layout(a), size, Layout(c))
  {
    hide SameShape, Layout;
    SameLayout(Before(a), a'); SameLayout(After(c), c');
    LayoutThree(a', [d], c'); LayoutOne(d);
    TileAt(a, |a| - 1);
    if c != [] { TileAt(c, 0); }
  }

  lemma GrownLayout(bs: seq<Blk>, a: seq<Blk>, f: Blk, x: nat)
    requires WellFormed(bs) && WellFormed(a + [f]) && SameShape(Before(bs), a) && !f.live
    requires f.size == x + if bs[|bs| - 1].live then 0 else bs[|bs| - 1].size
    ensures Layout(a + [f]) == Grown(Layout(bs), x) && Touching(Layout(a + [f])) == Touching(Layout(bs))
    ensures |Layout(a + [f])| == |a| + 1 && Layout(a + [f])[|a|] == Tile(f.size, false)
    ensures At(a) == 2 + 2 * Extent(Layout(a + [f])[..|a|])
  {
    hide SameShape, Touching, Flat;
    assert a + [f] + [] == a + [f] && Layout([]) == [];
    SameNone();
    CoalescedLayout(bs, x, [], a, f, []);
    TouchingGrown(Layout(bs), x);
    Parts(a, [f], []);
    Extents(a);
    assert Layout(a + [f])[..|a|] == Layout(a);
  }

  lemma TouchingTwo(x: Tile, y: Tile)
    ensures Touching([x, y]) == Pair(x, y)
  {
  }

  lemma SameNone()
    ensures SameShape([], [])
  {
  }

  lemma FreedLayout(a: seq<Blk>, b: Blk, b1: Blk, c: seq<Blk>, a': seq<Blk>, d: Blk, c': seq<Blk>)
    requires a != [] && AllOk(a) && b.live && b1.size == b.size && !d.live
    requires SameShape(Before(a), a') && SameShape(After(c), c')
    requires d.size == b1.size + (if a[|a| - 1].live then 0 else a[|a| - 1].size) + (if c == [] || c[0].live then 0
      else c[0].size)
    ensures var s := Layout(a + [b] + c);
      Layout(a' + [d] + c') == Layouts.Freed(s, |a|) && Touching(Layout(a' + [d] + c')) == Touching(s) &&
      At(a) == 2 + 2 * Extent(s[..|a|])
  {
    hide SameShape, Touching, Flat, Extent;
    var s := Layout(a + [b] + c);
    CoalescedLayout(a, b.size, c, a', d, c');
    assert s[..|a|] == Layout(a) && s[|a| + 1..] == Layout(c);
    TouchingFreed(s, |a|);
    Extents(a);
  }

  lemma ReleasedLayout(bs: seq<Blk>, d: Blk, a: seq<Blk>, d': Blk, c: seq<Blk>)
    requires WellFormed(bs) && |bs| >= 2 && bs[1].live && !d.live && d.size == bs[1].size && SameBlk(d, d')
    requires SameShape(bs[..1], a) && SameShape(bs[2..], c) && Touching(Layout(bs)) == 0
    ensures Layout(a + [d'] + c) == Unreserved(Layout(bs))
    ensures Touching(Layout(a + [d'] + c)) == if |bs| > 2 && !bs[2].live then 1 else 0
  {
    hide SameShape, Touching;
    SameLayout(bs[..1], a); SameLayout(bs[2..], c);
    var s := Layout(bs);
    LayoutThree(a, [d'], c);
    assert s[1 := Tile(s[1].size, false)] == s[..1] + [Tile(s[1].size, false)] + s[2..];
    TouchingUnmerged(s, 1);
  }

  /** Every free block is in the map. */
  lemma FreeAt(bs: seq<Blk>, i: nat)
    requires WellFormed(bs) && i < |bs| && !bs[i].live
    ensures var F := FreeMap(bs, 2); At(bs[..i]) in F && F[At(bs[..i])] == bs[i].size
  {
    hide Flat, FreeMap;
    assert bs == bs[..i] + [bs[i]] + bs[i + 1..];
    Parts(bs[..i], [bs[i]], bs[i + 1..]);
    FreeMapParts(bs[..i], [bs[i]], bs[i + 1..]);
    FreeMapOne(bs[i], At(bs[..i]));
  }

  lemma NoRoom(bs: seq<Blk>, asize: nat)
    requires WellFormed(bs) && BestFit(FreeMap(bs, 2), asize, 0)
    ensures !Room(Layout(bs), asize)
  {
    hide FreeMap, WellFormed;
    forall i | 0 <= i < |bs| && !bs[i].live ensures bs[i].size < asize { FreeAt(bs, i); }
  }

  lemma BestAt(bs: seq<Blk>, asize: nat, k: nat)
    requires WellFormed(bs) && k < |bs| && !bs[k].live && asize <= bs[k].size && At(bs[..k]) != 0
    requires BestFit(FreeMap(bs, 2), asize, At(bs[..k]))
    ensures Room(Layout(bs), asize) && Best(Layout(bs), k, asize) && At(bs[..k]) == 2 + 2 * Extent(Layout(bs)[..k])
  {
    hide FreeMap, WellFormed, Flat, Extent, Layout, At;
    FreeAt(bs, k);
    TileAt(bs, k);
    forall i | 0 <= i < |bs| && !Layout(bs)[i].live && asize <= Layout(bs)[i].size
      ensures Layout(bs)[k].size <= Layout(bs)[i].size
    {
      TileAt(bs, i);
      FreeAt(bs, i);
    }
    AllOkOf(bs);
    FrontOk(bs, k);
    FrontAt(bs[..k]);
  }

  lemma FrontAt(a: seq<Blk>)
    requires AllOk(a)
    ensures At(a) == 2 + 2 * Extent(Layout(a))
  {
    Extents(a);
  }

  lemma FrontOk(bs: seq<Blk>, k: nat)
    requires AllOk(bs) && k <= |bs|
    ensures AllOk(bs[..k])
  {
  }

  /** The two sizes that mm_malloc rounds up. */
  function Served(size: nat): nat { if size == 112 then 128 else if size == 448 then 512 else size }

  /** The block that serves a request: the least with room for the size, header and footer, except for the two sizes
      rounded up, which get 136 and 520 bytes. */
  lemma ServedBlock(size: nat)
    ensures var n := 8 * AdjustedSize(Served(size));
      n % 8 == 0 && size + 8 <= n && (n < size + 16 <==> size != 112 && size != 448) &&
        (size == 112 ==> n == 136) && (size == 448 ==> n == 520)
  {
  }

  ghost predicate Reserve(freed: bool, bs: seq<Blk>) { !freed ==> |bs| >= 2 && bs[1].live && bs[1].size == 6 }

  ghost function Known(G: seq<Grant>, freed: bool): seq<Grant> {
    var n := if freed then 1 else 2;
    if n <= |G| then G[n..] else []
  }

  /** The blocks left after the one before the end has been merged, if it is free. */
  ghost function Before(a: seq<Blk>): seq<Blk>
    requires a != []
  {
    if a[|a| - 1].live then a else a[..|a| - 1]
  }

  ghost function After(c: seq<Blk>): seq<Blk> { if c == [] || c[0].live then c else c[1..] }

  lemma SizeAt(bs: seq<Blk>, i: nat)
    requires WellFormed(bs) && i < |bs|
    ensures i == 0 ==> bs[i] == PROLOGUE
    ensures i >= 1 ==> bs[i].size >= 2
  {
  }

  lemma AtNext(a: seq<Blk>, x: seq<Blk>)
    ensures At(a + x) == At(a) + |Flat(x)|
  {
    FlatAppend(a, x);
  }

  lemma ShapeLen(s: seq<Blk>, t: seq<Blk>)
    requires SameShape(s, t)
    ensures |s| == |t|
  {
  }

  lemma ShapeHead(c: seq<Blk>, c': seq<Blk>)
    requires SameShape(c, c') && c != []
    ensures c' != [] && SameBlk(c[0], c'[0]) && SameShape(c[1..], c'[1..])
  {
    forall i | 0 <= i < |c| - 1 ensures SameBlk(c[1..][i], c'[1..][i]) { assert SameBlk(c[i + 1], c'[i + 1]); }
  }

  lemma ShapeTwo(b: Blk, n: Blk, x: seq<Blk>)
    requires SameShape([b] + [n], x)
    ensures |x| == 2 && x == [x[0], x[1]] && SameBlk(b, x[0]) && SameBlk(n, x[1])
  {
    var s := [b] + [n];
    assert SameBlk(s[0], x[0]) && SameBlk(s[1], x[1]);
  }

  lemma ShapeThree(l: Blk, b: Blk, n: Blk, x: seq<Blk>)
    requires SameShape([l, b] + [n], x)
    ensures |x| == 3 && x == [x[0], x[1], x[2]] && SameBlk(l, x[0]) && SameBlk(b, x[1]) && SameBlk(n, x[2])
  {
    var s := [l, b] + [n];
    assert SameBlk(s[0], x[0]) && SameBlk(s[1], x[1]) && SameBlk(s[2], x[2]);
  }

  lemma NoMap(p: nat)
    ensures FreeMap([], p) == map[]
  {
  }

  lemma ShapeSelf(s: seq<Blk>)
    ensures SameShape(s, s)
  {
  }

  lemma ShapeTrans(s: seq<Blk>, t: seq<Blk>, u: seq<Blk>)
    requires SameShape(s, t) && SameShape(t, u)
    ensures SameShape(s, u)
  {
    forall i | 0 <= i < |s| ensures SameBlk(s[i], u[i]) { assert SameBlk(s[i], t[i]) && SameBlk(t[i], u[i]); }
  }

  lemma ShapeSnoc(a: seq<Blk>, g: Blk, t: seq<Blk>) returns (a': seq<Blk>)
    requires SameShape(a + [g], t) && g.live
    ensures t == a' + [g] && SameShape(a, a')
  {
    var s := a + [g];
    a' := t[..|a|];
    assert SameBlk(s[|a|], t[|a|]);
    forall i | 0 <= i < |a| ensures SameBlk(a[i], a'[i]) { assert SameBlk(s[i], t[i]); }
  }

  lemma SameAt(bs: seq<Blk>, a: seq<Blk>, a': seq<Blk>)
    requires SameShape(a, a') && a' <= bs && Rooted(bs)
    ensures At(a') == At(a)
  {
    forall i | 0 <= i < |a'| ensures Ok(a'[i]) { assert Ok(bs[i]); }
    forall i | 0 <= i < |a| ensures Ok(a[i]) && SameBlk(a'[i], a'[i]) { assert SameBlk(a[i], a'[i]) && Ok(a'[i]); }
    ShapeFacts(a, a', 2);
  }

  lemma RootedMore(bs: seq<Blk>, b: Blk)
    requires WellFormed(bs) && AllOk(bs + [b])
    ensures Rooted(bs + [b])
  {
  }

  lemma EndOf(m: seq<Word>, E: nat, bs: seq<Blk>)
    requires Spells(m, E, bs)
    ensures 2 <= E <= |m|
  {
  }

  /** Two live blocks come first while the reserved block is kept back. */
  lemma BeforeFree(freed: bool, bs: seq<Blk>, k: nat)
    requires WellFormed(bs) && Reserve(freed, bs) && 1 <= k <= |bs| && (k < |bs| ==> !bs[k].live)
    ensures freed || k >= 2 || k == |bs|
    ensures freed || k >= 2 ==> |Grants(bs[..k], 2)| >= if freed then 1 else 2
  {
    hide Flat;
    var a := bs[..k];
    GrantsStep(a, 2);
    if k >= 2 {
      GrantsStep(a[1..], 4);
    }
  }

  lemma StillReserved(freed: bool, bs: seq<Blk>, bs': seq<Blk>, a: seq<Blk>, a': seq<Blk>)
    requires Reserve(freed, bs) && a <= bs && a' <= bs' && SameShape(a, a') && (freed || |a| >= 2)
    ensures Reserve(freed, bs')
  {
    if !freed { assert SameBlk(a[1], a'[1]); }
  }

  lemma ReserveKept(freed: bool, bs: seq<Blk>, bs': seq<Blk>, k: nat)
    requires Reserve(freed, bs) && k <= |bs| == |bs'| && bs'[..k] == bs[..k] && (freed || k >= 2)
    ensures Reserve(freed, bs')
  {
    if !freed { assert bs'[..k][1] == bs[..k][1]; }
  }

  lemma KnownInsert(X: seq<Grant>, g: Grant, Y: seq<Grant>, freed: bool) returns (j: nat)
    requires |X| >= if freed then 1 else 2
    ensures var K := Known(X + Y, freed); j <= |K| && Known(X + [g] + Y, freed) == K[..j] + [g] + K[j..]
  {
    j := |X| - if freed then 1 else 2;
    var K := Known(X + Y, freed);
    assert K[..j] == X[|X| - j..] && K[j..] == Y;
    assert Known(X + [g] + Y, freed) == X[|X| - j..] + [g] + Y;
  }

  lemma JoinShapes(a: seq<Blk>, x: seq<Blk>, c: seq<Blk>, a': seq<Blk>, x': seq<Blk>, c': seq<Blk>)
    requires SameShape(a, a') && SameShape(x, x') && SameShape(c, c')
    ensures SameShape(a + x + c, a' + x' + c')
  {
    var s, t := a + x + c, a' + x' + c';
    forall i | 0 <= i < |s| ensures SameBlk(s[i], t[i]) {
      if i < |a| { assert SameBlk(a[i], a'[i]); }
      else if i < |a| + |x| { assert SameBlk(x[i - |a|], x'[i - |a|]); }
      else { assert SameBlk(c[i - |a| - |x|], c'[i - |a| - |x|]); }
    }
  }

  /** Free blocks around `y` that hold something else. */
  lemma ShapeMid(a0: seq<Blk>, y: seq<Blk>, c0: seq<Blk>, a: seq<Blk>, c: seq<Blk>)
    requires WellFormed(a + y + c) && SameShape(a0, a) && SameShape(c0, c)
    ensures Grants(a + y + c, 2) == Grants(a0 + y + c0, 2) && FreeSum(a + y + c) == FreeSum(a0 + y + c0)
  {
    hide Flat, Grants, FreeSum, SameShape, AllOk;
    ShapeSelf(y);
    JoinShapes(a0, y, c0, a, y, c);
    AllOkOf(a + y + c);
    ShapeBack(a0 + y + c0, a + y + c);
    ShapeFacts(a0 + y + c0, a + y + c, 2);
  }

  /** A live block `x`, and what is left after it. */
  lemma PlacedPart(x: Blk, t: seq<Blk>, p: nat)
    requires AllOk([x] + t) && x.live && |t| <= 1 && AllFree(t)
    ensures Grants([x] + t, p) == [Grant(p, x.size, x.body)] &&
      |Flat([x] + t)| == 2 * (x.size + if t == [] then 0 else t[0].size)
    ensures FreeSum([x] + t) == if t == [] then 0 else t[0].size
  {
    hide Flat, Grants, FreeSum;
    Pieces([x], t);
    assert Ok([x][0]);
    FlatAppend([x], t); FlatOne(x);
    GrantsAppend([x], t, p); GrantsOne(x, p); FreeRunGrants(t, p + |Flat([x])|);
    if t == [] { FlatNone(); } else { assert t == [t[0]]; FlatOne(t[0]); }
  }

  lemma PlacedGrants(a: seq<Blk>, b: Blk, c: seq<Blk>, x: Blk, t: seq<Blk>)
    requires AllOk(a) && Ok(b) && AllOk([x] + t) && !b.live && x.live && |t| <= 1 && AllFree(t)
    requires x.size + (if t == [] then 0 else t[0].size) == b.size
    ensures var (X, Y) := (Grants(a, 2), Grants(c, At(a) + 2 * b.size));
      Grants(a + [b] + c, 2) == X + Y && Grants(a + ([x] + t) + c, 2) == X + [Grant(At(a), x.size, x.body)] + Y
    ensures FreeSum(a + ([x] + t) + c) + x.size == FreeSum(a + [b] + c)
  {
    hide Flat, Grants, FreeSum, AllFree;
    PlacedPart(x, t, At(a));
    FlatOne(b);
    GrantsPatch(a, [b], [x] + t, c, 2);
    GrantsOne(b, At(a));
    NoneBetween(Grants(a, 2), Grants(c, At(a) + 2 * b.size));
  }

  lemma NoneBetween<T>(x: seq<T>, y: seq<T>)
    ensures x + [] + y == x + y
  {
  }

  /** What a program sees of place. */
  lemma GrantedShape(a0: seq<Blk>, b0: Blk, c0: seq<Blk>, a: seq<Blk>, x: Blk, t: seq<Blk>, c: seq<Blk>)
    requires WellFormed(a0 + [b0] + c0) && WellFormed(a + [x] + t + c) && SameShape(a0, a) && SameShape(c0, c) &&
      !b0.live && x.live
    requires x.size + (if t == [] then 0 else t[0].size) == b0.size && |t| <= 1 && AllFree(t)
    ensures var (X, Y) := (Grants(a0, 2), Grants(c0, At(a0) + 2 * b0.size));
      Grants(a0 + [b0] + c0, 2) == X + Y && Grants(a + [x] + t + c, 2) == X + [Grant(At(a0), x.size, x.body)] + Y
    ensures FreeSum(a + [x] + t + c) + x.size == FreeSum(a0 + [b0] + c0)
  {
    hide WellFormed, Flat, Grants, FreeSum, SameShape, AllOk, AllFree, At;
    Assoc(a, [x], t, c);
    Parts(a0, [b0], c0);
    InList([b0], 0);
    Parts(a, [x] + t, c);
    ShapeMid(a0, [x] + t, c0, a, c);
    PlacedGrants(a0, b0, c0, x, t);
  }

  lemma Assoc<T>(a: seq<T>, x: seq<T>, t: seq<T>, c: seq<T>)
    ensures a + [] == a && a + x + t + c == a + (x + t) + c
  {
  }

  lemma ShapeBack(s: seq<Blk>, t: seq<Blk>)
    requires SameShape(s, t) && AllOk(t)
    ensures AllOk(s)
  {
    forall i | 0 <= i < |s| ensures Ok(s[i]) { assert SameBlk(s[i], t[i]) && Ok(t[i]); }
  }

  /** What a program sees of a block freed and merged with free blocks around it. */
  lemma FreedGrants(a: seq<Blk>, u: seq<Blk>, b: Blk, b1: Blk, v: seq<Blk>, c: seq<Blk>, a': seq<Blk>, d: Blk,
      c': seq<Blk>, e: Blk)
    requires WellFormed((a + u) + [b] + (v + c)) && AllFree(u) && AllFree(v) && b.live && !b1.live && !e.live &&
      Ok(e) && Ok(b1) && b1.size == b.size
    requires |Flat([e])| == |Flat(u + [b1] + v)| && SameShape(a, a') && SameBlk(e, d) && SameShape(c, c')
    ensures Grants(a' + [d] + c', 2) == Grants(a + u, 2) + Grants(v + c, At(a + u) + 2 * b.size)
    ensures FreeSum(a' + [d] + c') == FreeSum((a + u) + [b] + (v + c)) + b.size
  {
    hide WellFormed, Flat, Grants, FreeSum, SameShape;
    ReleasedGrants(a, u, b, b1, v, c, e);
    Pieces(a, u); Pieces(v, c);
    ShapeUnit(e, d);
    JoinShapes(a, [e], c, a', [d], c');
    Joins(a, e);
    Joined(a + [e], c);
    ShapeFacts(a + [e] + c, a' + [d] + c', 2);
  }

  lemma LiveGrants(a: seq<Blk>, b: Blk, c: seq<Blk>)
    requires AllOk(a + [b] + c) && b.live
    ensures Grants(a + [b] + c, 2) == Grants(a, 2) + [Grant(At(a), b.size, b.body)] + Grants(c, At(a) + 2 * b.size)
  {
    hide Flat, Grants;
    Pieces(a + [b], c); Pieces(a, [b]);
    GrantsAppend(a + [b], c, 2); GrantsAppend(a, [b], 2); GrantsOne(b, At(a));
    FlatAppend(a, [b]); FlatOne(b);
    assert Ok([b][0]);
  }

  lemma ShapeUnit(e: Blk, d: Blk)
    requires SameBlk(e, d)
    ensures SameShape([e], [d])
  {
  }

  lemma AtFirst(bs: seq<Blk>)
    requires WellFormed(bs)
    ensures At(bs[..1]) == 4 && bs[..1] != []
  {
    assert bs[..1] == [PROLOGUE];
    FlatOne(PROLOGUE);
  }

  /** The reserved block is the second grant. */
  lemma KnownReserved(bs: seq<Blk>)
    requires WellFormed(bs) && Reserve(false, bs)
    ensures var (X, Y) := (Grants(bs[..1], 2), Grants(bs[2..], 4 + 2 * bs[1].size));
      Known(Grants(bs, 2), false) == Known(X + Y, true)
  {
    hide Flat, Grants, WellFormed;
    var a, b := bs[0], bs[1];
    FirstBlock(bs);
    assert bs[..1] == [a] && bs[1..][1..] == bs[2..] && bs[1..][0] == b;
    GrantsStep(bs, 2); GrantsStep(bs[1..], 2 + 2 * a.size); GrantsOne(a, 2);
    KnownBoth(Grant(2, a.size, a.body), Grant(2 + 2 * a.size, b.size, b.body),
      Grants(bs[2..], 2 + 2 * a.size + 2 * b.size));
  }

  lemma FirstBlock(bs: seq<Blk>)
    requires WellFormed(bs)
    ensures bs[0].live && bs[0].size == 1
  {
  }

  lemma KnownBoth(g: Grant, h: Grant, Z: seq<Grant>)
    ensures Known([g] + ([h] + Z), false) == Known([g] + Z, true)
  {
  }

  lemma {:induction false} FreeIn(bs: seq<Blk>, p: nat, q: nat) returns (k: nat)
    requires AllOk(bs) && q in FreeMap(bs, p)
    ensures k < |bs| && !bs[k].live && q == p + |Flat(bs[..k])| && FreeMap(bs, p)[q] == bs[k].size
  {
    var b, t, p2 := bs[0], bs[1..], p + 2 * bs[0].size;
    assert Ok(b);
    if q in FreeMap(t, p2) {
      var i := FreeIn(t, p2, q);
      k := i + 1;
      assert bs[..k] == [b] + t[..i];
      FlatAppend([b], t[..i]); FlatOne(b);
    } else {
      k := 0;
      assert bs[..0] == [];
    }
  }

  lemma FitAt(bs: seq<Blk>, asize: nat, r: nat) returns (k: nat)
    requires WellFormed(bs) && BestFit(FreeMap(bs, 2), asize, r) && r != 0
    ensures 1 <= k < |bs| && r == At(bs[..k]) && !bs[k].live && asize <= bs[k].size
  {
    hide Flat;
    k := FreeIn(bs, 2, r);
  }

  /** The last block, if free, is among the free blocks. */
  lemma LastFree(a: seq<Blk>, l: Blk)
    requires WellFormed(a + [l]) && !l.live
    ensures var F := FreeMap(a + [l], 2); At(a) in F && F[At(a)] == l.size
  {
    hide Flat, FreeMap;
    assert (a + [l])[|a|] == l;
    Pieces(a, [l]);
    FreeMapAppend(a, [l], 2);
    FreeMapOne(l, At(a));
  }

  /** The last block of a heap, if it is free, and what comes before it. */
  lemma FreeEnd(bs: seq<Blk>) returns (u: seq<Blk>)
    requires WellFormed(bs)
    ensures bs == Before(bs) + u && Before(bs) != [] && AllFree(u) && AllOk(Before(bs)) && AllOk(bs)
    ensures |Flat(u)| == 2 * if bs[|bs| - 1].live then 0 else bs[|bs| - 1].size
  {
    hide Flat;
    var b := Before(bs);
    u := bs[|b|..];
    Pieces(b, u);
    if u == [] { FlatNone(); } else { assert u == [u[0]]; FlatOne(u[0]); assert Ok(u[0]); }
  }

  /** What a program sees of extend_heap: nothing. */
  lemma GrownGrants(bs: seq<Blk>, a: seq<Blk>, f: Blk, x: nat, freed: bool)
    requires WellFormed(bs) && WellFormed(a + [f]) && SameShape(Before(bs), a) && !f.live && Reserve(freed, bs)
    requires f.size == x + if bs[|bs| - 1].live then 0 else bs[|bs| - 1].size
    ensures Grants(a + [f], 2) == Grants(bs, 2) && FreeSum(a + [f]) == FreeSum(bs) + x && Reserve(freed, a + [f])
  {
    hide Flat, Grants, FreeSum, SameShape, WellFormed, AllOk, AllFree, Before, Reserve;
    var u := FreeEnd(bs);
    var b := Before(bs);
    Extended(bs, b, u, f, x);
    assert b + [f] + [] == b + [f] && a + [f] + [] == a + [f];
    ShapeSelf([]);
    ShapeMid(b, [f], [], a, []);
    KeptBack(freed, bs);
    StillReserved(freed, bs, a + [f], b, a);
  }

  lemma KeptBack(freed: bool, bs: seq<Blk>)
    requires WellFormed(bs) && Reserve(freed, bs)
    ensures (freed || |Before(bs)| >= 2) && Before(bs) <= bs
  {
  }

  /** The block behind a known grant. */
  lemma LocatedBlock(bs: seq<Blk>, k: nat, ptr: nat, freed: bool, j: nat)
    requires WellFormed(bs) && k < |bs| && |Grants(bs[..k], 2)| == j >= (if freed then 1 else 2) && ptr == At(bs[..k])
    ensures k >= (if freed then 1 else 2) && bs[k].size >= 2 && ptr == At(bs[..k])
  {
    hide Flat, Grants;
    FewGrants(bs[..k], 2);
  }

  lemma {:induction false} FewGrants(a: seq<Blk>, p: nat)
    ensures |Grants(a, p)| <= |a|
  {
    if a != [] { FewGrants(a[1..], p + 2 * a[0].size); }
  }

  lemma KnownDrop(X: seq<Grant>, g: Grant, Y: seq<Grant>, freed: bool)
    requires |X| >= if freed then 1 else 2
    ensures var (K, j) := (Known(X + [g] + Y, freed), |X| - if freed then 1 else 2);
      j < |K| && K[j] == g && Known(X + Y, freed) == K[..j] + K[j + 1..]
  {
    var n := if freed then 1 else 2;
    var K := Known(X + [g] + Y, freed);
    assert K == X[n..] + [g] + Y;
    assert Known(X + Y, freed) == X[n..] + Y;
  }

  /** The block coalesce makes of a freed block, as a program sees it. */
  lemma ReleasedBlock(bs: seq<Blk>, a: seq<Blk>, b: Blk, b1: Blk, c: seq<Blk>, a': seq<Blk>, d: Blk, c': seq<Blk>)
    requires WellFormed(bs) && bs == a + [b] + c && a != [] && b.live && !b1.live && Ok(b1) && b1.size == b.size &&
      !d.live && WellFormed(a' + [d] + c')
    requires SameShape(Before(a), a') && SameShape(After(c), c')
    requires d.size == b1.size + (if a[|a| - 1].live then 0 else a[|a| - 1].size) + (if c == [] || c[0].live then 0
      else c[0].size)
    ensures Grants(a' + [d] + c', 2) == Grants(a, 2) + Grants(c, At(a) + 2 * b.size)
    ensures FreeSum(a' + [d] + c') == FreeSum(bs) + b.size
  {
    hide WellFormed, Flat, Grants, FreeSum, SameShape, AllOk, AllFree, At, Before, After, Ok;
    var a0, c0 := Before(a), After(c);
    var u, v := Margins(a, c);
    assert (a0 + u) + [b] + (v + c0) == bs;
    Parts(a, [b], c);
    Pieces(a0, u); Pieces(v, c0);
    assert Ok(d) by { Parts(a', [d], c'); InList([d], 0); }
    MergedSize(u, b1, v, d);
    SelfBlk(d);
    FreedGrants(a0, u, b, b1, v, c0, a', d, c', d);
  }

  lemma SelfBlk(d: Blk)
    ensures SameBlk(d, d)
  {
  }

  /** What coalesce merges with is free. */
  lemma Margins(a: seq<Blk>, c: seq<Blk>) returns (u: seq<Blk>, v: seq<Blk>)
    requires a != []
    ensures a == Before(a) + u && c == v + After(c) && AllFree(u) && AllFree(v) && |u| <= 1 && |v| <= 1
    ensures (if u == [] then 0 else u[0].size) == if a[|a| - 1].live then 0 else a[|a| - 1].size
    ensures (if v == [] then 0 else v[0].size) == if c == [] || c[0].live then 0 else c[0].size
  {
    u, v := a[|Before(a)|..], c[..|c| - |After(c)|];
  }

  lemma MergedSize(u: seq<Blk>, b: Blk, v: seq<Blk>, d: Blk)
    requires AllOk(u) && AllOk(v) && Ok(b) && Ok(d) && |u| <= 1 && |v| <= 1
    requires d.size == b.size + (if u == [] then 0 else u[0].size) + if v == [] then 0 else v[0].size
    ensures |Flat([d])| == |Flat(u + [b] + v)|
  {
    hide Flat;
    OneOrNone(u); OneOrNone(v);
    FlatAppend(u + [b], v); FlatAppend(u, [b]); FlatOne(b); FlatOne(d);
  }

  lemma OneOrNone(u: seq<Blk>)
    requires |u| <= 1 && AllOk(u)
    ensures |Flat(u)| == 2 * if u == [] then 0 else u[0].size
  {
    if u != [] { assert u == [u[0]]; FlatOne(u[0]); assert Ok(u[0]); }
  }

  lemma StillKept(freed: bool, bs: seq<Blk>, bs': seq<Blk>, k: nat, a': seq<Blk>)
    requires WellFormed(bs) && Reserve(freed, bs) && k < |bs| && k >= (if freed then 1 else 2) &&
      SameShape(Before(bs[..k]), a') && a' <= bs'
    ensures Reserve(freed, bs')
  {
    StillReserved(freed, bs, bs', Before(bs[..k]), a');
  }

  /** The heap that mm_init starts from. */
  lemma FirstBlocks(m: seq<Word>, b: Blk)
    requires |m| >= 16 && b == Blk(6, true, m[4..14])
    requires m[1] == m[2] == Pack(1, true) && m[3] == m[14] == Pack(6, true) && m[15] == EPILOGUE
    ensures var bs := [PROLOGUE, b];
      Spells(m, 16, bs) && WellFormed(bs) && Rooted(bs) && FreeMap(bs, 2) == map[] && FreeSum(bs) == 0 &&
        Known(Grants(bs, 2), false) == [] && Reserve(false, bs)
  {
    var bs := [PROLOGUE, b];
    FlatPair(PROLOGUE, b);
    assert bs[1..] == [b];
    var s := Flat(bs);
    assert forall i :: 0 <= i < 14 ==> m[1..15][i] == s[i];
    assert m[1..15] == s;
    FreeMapOne(b, 4); GrantsOne(b, 4);
    GrantsStep(bs, 2);
  }

  lemma NoneListed(m: seq<Word>, hs: seq<nat>, ls: seq<seq<nat>>)
    requires |hs| == |ls| == CLASSES && (forall k :: 0 <= k < CLASSES ==> hs[k] == 0) &&
      forall k :: 0 <= k < CLASSES ==> ls[k] == []
    ensures Indexed(m, hs, ls, map[]) && AllDescending(map[], ls)
  {
  }

  lemma ShapeJoin(a: seq<Blk>, c: seq<Blk>, a': seq<Blk>, c': seq<Blk>)
    requires SameShape(a, a') && SameShape(c, c') && WellFormed(a + c) && a != []
    ensures WellFormed(a' + c') && a' != []
  {
    var s, t := a + c, a' + c';
    forall i | 0 <= i < |s| ensures SameBlk(s[i], t[i]) {
      if i < |a| { assert SameBlk(a[i], a'[i]); } else { assert SameBlk(c[i - |a|], c'[i - |a|]); }
    }
    ShapeWellFormed(s, t);
  }

  lemma Outside(F: map<nat, nat>, F': map<nat, nat>, p: nat, m: seq<Word>)
    requires p in F' && Headed(m, F') && p !in F && F' == F[p := F'[p]]
    ensures Headed(m, F)
  {
    forall q | q in F ensures 1 <= q <= |m| && m[q - 1].hi == F[q] { assert F'[q] == F[q]; }
  }

  lemma SpreadHead(m: seq<Word>, F: map<nat, nat>, p: nat)
    requires Spread(m, F) && Headed(m, F) && p in F
    ensures 1 <= p <= |m| && m[p - 1].hi == F[p]
  {
  }

  lemma ShapeOne(b: Blk, x: seq<Blk>)
    requires SameShape([b], x)
    ensures x == [x[0]] && SameBlk(b, x[0])
  {
    assert SameBlk([b][0], x[0]);
  }

  lemma SameMap(s: seq<Blk>, t: seq<Blk>)
    requires SameShape(s, t) && Rooted(s)
    ensures FreeMap(s, 2) == FreeMap(t, 2)
  {
    ShapeFacts(s, t, 2);
  }

  lemma SameRest(a: seq<Blk>, x: seq<Blk>, c: seq<Blk>, a': seq<Blk>, x': seq<Blk>, c': seq<Blk>)
    requires SameShape(a, a') && SameShape(x, x') && SameShape(c, c') && Rooted(a + x + c)
    ensures Rest(a, x, c) == Rest(a', x', c')
  {
    hide Flat, FreeMap, Rooted;
    RootedParts(a, x, c);
    ShapeFacts(a, a', 2); ShapeFacts(x, x', At(a)); ShapeFacts(c, c', At(a) + |Flat(x)|);
  }

  /** Free blocks outside a stretch keep their links clear of it. */
  lemma RestRange(m: seq<Word>, E: nat, a: seq<Blk>, x: seq<Blk>, c: seq<Blk>)
    requires Spells(m, E, a + x + c) && Rooted(a + x + c)
    ensures forall q {:trigger Rest(a, x, c)[q]} ::
      q in Rest(a, x, c) ==> q + 1 < At(a) - 1 || At(a) - 1 + |Flat(x)| <= q
  {
    hide Flat, FreeMap;
    RestIs(a, x, c);
    var F, e := FreeMap(a + x + c, 2), At(a) + |Flat(x)|;
    HeapSpread(m, E, a + x + c, F);
    forall q | q in Rest(a, x, c) ensures q + 1 < At(a) - 1 || At(a) - 1 + |Flat(x)| <= q {
      assert q in F && F[q] >= 2;
      if q in FreeMap(c, e) { FreeMapRange(c, e, q); } else { FreeMapRange(a, 2, q); assert F[q] == FreeMap(a, 2)[q]; }
    }
  }

  lemma IndexedFrame(m: seq<Word>, m': seq<Word>, hs: seq<nat>, ls: seq<seq<nat>>, F: map<nat, nat>, lo: nat, hi: nat)
    requires Indexed(m, hs, ls, F) && |m'| == |m|
    requires forall i :: 0 <= i < |m| && (i < lo || hi <= i) ==> m'[i] == m[i]
    requires forall q {:trigger F[q]} :: q in F ==> q + 1 < lo || hi <= q
    ensures Indexed(m', hs, ls, F)
  {
    hide Spread, SegIndex, Chain;
    SameSpread(m, m', F);
    forall i | 0 <= i < CLASSES ensures Chain(m', hs[i], ls[i]) {
      Members(m, hs, ls, F, i);
      forall k | 0 <= k < |ls[i]| && ls[i][k] + 1 < |m| ensures m'[ls[i][k]] == m[ls[i][k]] &&
        m'[ls[i][k] + 1] == m[ls[i][k] + 1] {
        assert F[ls[i][k]] == F[ls[i][k]];
      }
      ChainFrame(m, m', hs[i], ls[i]);
    }
  }
}
