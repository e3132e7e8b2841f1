/**
 The layout of a heap of tagged blocks: the sizes of its blocks and which of them are live,
 without what they hold.
 */
module Layouts {
  import opened ImplicitLists

  /** A block without its contents. */
  datatype Tile = Tile(size: nat, live: bool)

  ghost function Layout(bs: seq<Blk>): (s: seq<Tile>)
    ensures |s| == |bs|
  {
    seq(|bs|, i requires 0 <= i < |bs| => Tile(bs[i].size, bs[i].live))
  }

  function Extent(s: seq<Tile>): nat { if s == [] then 0 else s[0].size + Extent(s[1..]) }

  lemma {:induction false} Extents(bs: seq<Blk>)
    requires AllOk(bs)
    ensures |Flat(bs)| == 2 * Extent(Layout(bs))
  {
    if bs != [] {
      assert Ok(bs[0]) && Layout(bs)[1..] == Layout(bs[1..]);
      Extents(bs[1..]);
    }
  }

  lemma LayoutAppend(a: seq<Blk>, b: seq<Blk>)
    ensures Layout(a + b) == Layout(a) + Layout(b)
  {
  }

  lemma LayoutThree(a: seq<Blk>, x: seq<Blk>, c: seq<Blk>)
    ensures Layout(a + x + c) == Layout(a) + Layout(x) + Layout(c)
  {
    hide Layout;
    LayoutAppend(a + x, c);
    LayoutAppend(a, x);
  }

  lemma LayoutOne(b: Blk)
    ensures Layout([b]) == [Tile(b.size, b.live)]
  {
  }

  lemma TileAt(bs: seq<Blk>, i: nat)
    requires i < |bs|
    ensures Layout(bs)[i] == Tile(bs[i].size, bs[i].live) && Layout(bs)[..i] == Layout(bs[..i]) &&
      Layout(bs)[i + 1..] == Layout(bs[i + 1..])
  {
  }

  // ------------------------------------------------------------- free neighbours

  /** How many pairs of neighbouring blocks are both free. */
  function Touching(s: seq<Tile>): nat {
    if |s| < 2 then 0 else Pair(s[0], s[1]) + Touching(s[1..])
  }

  function Pair(x: Tile, y: Tile): nat { if x.live || y.live then 0 else 1 }

  lemma TouchingOne(x: Tile)
    ensures Touching([x]) == Touching([]) == 0
  {
  }

  lemma {:induction false} TouchingAppend(a: seq<Tile>, b: seq<Tile>)
    ensures Touching(a + b) == Touching(a) + Touching(b) + if a == [] || b == [] then 0 else Pair(a[|a| - 1], b[0])
  {
    if a == [] {
      assert a + b == b;
    } else if b == [] {
      assert a + b == a;
    } else {
      assert (a + b)[0] == a[0] && (a + b)[1] == (if |a| == 1 then b[0] else a[1]) && (a + b)[1..] == a[1..] + b;
      TouchingAppend(a[1..], b);
    }
  }

  /** A block between two others. */
  lemma TouchingMid(a: seq<Tile>, x: Tile, c: seq<Tile>)
    ensures Touching(a + [x] + c) == Touching(a) + Touching(c) + (if a == [] then 0 else Pair(a[|a| - 1], x)) +
      if c == [] then 0 else Pair(x, c[0])
  {
    TouchingAppend(a + [x], c);
    TouchingAppend(a, [x]);
    TouchingOne(x);
  }

  // ------------------------------------------------------------- what the operations do to a layout

  /** place: block `k` goes to the program, and what is left of it, if it is a block, stays free. */
  function Placed(s: seq<Tile>, k: nat, asize: nat): seq<Tile>
    requires k < |s|
  {
    s[..k] + Cut(s[k].size, asize) + s[k + 1..]
  }

  function Cut(size: nat, asize: nat): seq<Tile> {
    if size - asize >= 2 then [Tile(asize, true), Tile(size - asize, false)] else [Tile(size, true)]
  }

  lemma PlacedParts(a: seq<Tile>, x: Tile, c: seq<Tile>, asize: nat)
    ensures Placed(a + [x] + c, |a|, asize) == a + Cut(x.size, asize) + c
  {
    hide Cut;
    var s := a + [x] + c;
    assert s[..|a|] == a && s[|a| + 1..] == c && s[|a|] == x;
  }

  lemma TouchingPlaced(s: seq<Tile>, k: nat, asize: nat)
    requires k < |s| && !s[k].live
    ensures Touching(Placed(s, k, asize)) <= Touching(s)
  {
    hide Touching;
    var a, b, c := s[..k], s[k], s[k + 1..];
    assert s == a + [b] + c;
    TouchingMid(a, b, c);
    if b.size - asize >= 2 {
      var g, r := Tile(asize, true), Tile(b.size - asize, false);
      assert Placed(s, k, asize) == (a + [g]) + [r] + c;
      TouchingMid(a + [g], r, c);
      TouchingMid(a, g, []);
      assert a + [g] + [] == a + [g];
      TouchingOne(g);
    } else {
      TouchingMid(a, Tile(b.size, true), c);
    }
  }

  /** coalesce: a free block of `size` between `a` and `c` takes in the free block on either side. */
  function Coalesced(a: seq<Tile>, size: nat, c: seq<Tile>): seq<Tile> {
    var (l, n) := (a != [] && !a[|a| - 1].live, c != [] && !c[0].live);
    (if l then a[..|a| - 1] else a) +
    [Tile(size + (if l then a[|a| - 1].size else 0) + if n then c[0].size else 0, false)] +
    if n then c[1..] else c
  }

  /** Merging makes no new pair and loses none that was there. */
  lemma TouchingCoalesced(a: seq<Tile>, size: nat, c: seq<Tile>)
    ensures Touching(Coalesced(a, size, c)) == Touching(a) + Touching(c)
  {
    hide Touching;
    var (l, n) := (a != [] && !a[|a| - 1].live, c != [] && !c[0].live);
    var (a1, c1) := (if l then a[..|a| - 1] else a, if n then c[1..] else c);
    TouchingMid(a1, Tile(size + (if l then a[|a| - 1].size else 0) + if n then c[0].size else 0, false), c1);
    if l { assert a == a1 + [a[|a| - 1]] + []; TouchingMid(a1, a[|a| - 1], []); }
    if n { assert c == [] + [c[0]] + c1; TouchingMid([], c[0], c1); }
    TouchingNone();
  }

  lemma TouchingNone()
    ensures Touching([]) == 0
  {
  }

  /** mm_free of block `k`. */
  function Freed(s: seq<Tile>, k: nat): seq<Tile>
    requires k < |s|
  {
    Coalesced(s[..k], s[k].size, s[k + 1..])
  }

  lemma TouchingFreed(s: seq<Tile>, k: nat)
    requires k < |s| && s[k].live
    ensures Touching(Freed(s, k)) == Touching(s)
  {
    hide Touching;
    assert s == s[..k] + [s[k]] + s[k + 1..];
    TouchingMid(s[..k], s[k], s[k + 1..]);
    TouchingCoalesced(s[..k], s[k].size, s[k + 1..]);
  }

  /** extend_heap by `d`. */
  function Grown(s: seq<Tile>, d: nat): seq<Tile> { Coalesced(s, d, []) }

  lemma TouchingGrown(s: seq<Tile>, d: nat)
    ensures Touching(Grown(s, d)) == Touching(s)
  {
    TouchingCoalesced(s, d, []);
  }

  /** Freeing block `k` without merging it makes one pair for every free neighbour. */
  lemma TouchingUnmerged(s: seq<Tile>, k: nat)
    requires k < |s| && s[k].live
    ensures Touching(s[k := Tile(s[k].size, false)]) == Touching(s) + (if k > 0 && !s[k - 1].live then 1 else 0) +
      if k + 1 < |s| && !s[k + 1].live then 1 else 0
  {
    hide Touching;
    var (a, c) := (s[..k], s[k + 1..]);
    assert s == a + [s[k]] + c && s[k := Tile(s[k].size, false)] == a + [Tile(s[k].size, false)] + c;
    TouchingMid(a, s[k], c);
    TouchingMid(a, Tile(s[k].size, false), c);
  }

  // ------------------------------------------------------------- fits

  /** Some free block can hold `asize` double words. */
  ghost predicate Room(s: seq<Tile>, asize: nat) { exists k :: 0 <= k < |s| && !s[k].live && asize <= s[k].size }

  /** Block `k` is the smallest free block that can. */
  ghost predicate Best(s: seq<Tile>, k: nat, asize: nat) {
    k < |s| && !s[k].live && asize <= s[k].size &&
      forall i :: 0 <= i < |s| && !s[i].live && asize <= s[i].size ==> s[k].size <= s[i].size
  }

  /** The second block is freed and not merged. */
  function Unreserved(s: seq<Tile>): seq<Tile> { if |s| < 2 then s else s[1 := Tile(s[1].size, false)] }

  /** What mm_malloc makes of the layout `s`: block `k`, the best fit or the end of the heap extended by `d`, is placed
      at address `r`; the second block may be `released` as well. */
  ghost predicate Supplied(s: seq<Tile>, d: nat, asize: nat, k: nat, r: nat, released: bool, s': seq<Tile>) {
    var t := if Room(s, asize) then s else Grown(s, d);
    k < |t| && (if Room(s, asize) then Best(s, k, asize) else k == |t| - 1) && r == 2 + 2 * Extent(t[..k]) &&
      s' == if released then Unreserved(Placed(t, k, asize)) else Placed(t, k, asize)
  }
}
