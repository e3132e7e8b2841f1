/**
 The twenty segregated free lists of mm_seg_bestfit.c, and the sorted ones of mm_seg_descend.c.

 A list is doubly linked and ends in null at both ends.  A free block keeps its predecessor
 in its first word and its successor in its second; the head of list i is `heads[i]`.
 `F` maps each free block to its size in double words.
 */
module SegLists {
  import opened Words

  const CLASSES: nat := 20

  /** get_seg_index, of a size in bytes. */
  function SegIndex(size: nat): (i: nat)
    ensures i < CLASSES
  {
    if size <= 16 then 0
    else if size <= 32 then 1
    else if size <= 48 then 2
    else if size <= 64 then 3
    else if size <= 80 then 4
    else if size <= 96 then 5
    else if size <= 128 then 6
    else if size <= 192 then 7
    else if size <= 256 then 8
    else if size <= 384 then 9
    else if size <= 512 then 10
    else if size <= 1024 then 11
    else if size <= 2048 then 12
    else if size <= 4096 then 13
    else if size <= 8192 then 14
    else if size <= 16384 then 15
    else if size <= 32768 then 16
    else if size <= 65536 then 17
    else if size <= 131072 then 18
    else 19
  }

  lemma SegMonotone(a: nat, b: nat)
    requires a <= b
    ensures SegIndex(a) <= SegIndex(b)
  {
  }

  /** The greatest size of each class but the last. */
  const LIMITS: seq<nat> := [16, 32, 48, 64, 80, 96, 128, 192, 256, 384, 512, 1024, 2048, 4096, 8192, 16384, 32768,
    65536, 131072]

  lemma ClassLimits(size: nat, i: nat)
    requires i < CLASSES - 1
    ensures SegIndex(size) <= i <==> size <= LIMITS[i]
  {
    assert i <= 8 || i >= 9;
  }

  /** A pointer stored in a word; null is 0. */
  function Addr(p: nat): (w: Word)
    ensures Target(w) == p
  {
    OfValue(4 * p)
  }

  function Target(w: Word): nat { Value(w) / 4 }

  /** Free blocks lie apart and are big enough for two links. */
  ghost predicate Spread(m: seq<Word>, F: map<nat, nat>) {
    (forall p {:trigger F[p]} :: p in F ==> 4 <= p && 2 <= F[p] && p + 2 * F[p] <= |m|) &&
    (forall p, q {:trigger F[p], F[q]} :: p in F && q in F && p < q ==> p + 2 * F[p] <= q)
  }

  function Stop(l: seq<nat>, k: int): nat { if 0 <= k < |l| then l[k] else 0 }

  /** Block l[k] names its neighbours in the list. */
  ghost predicate Entry(m: seq<Word>, l: seq<nat>, k: nat) {
    k < |l| && 4 <= l[k] && l[k] + 1 < |m| && Target(m[l[k]]) == Stop(l, k - 1) && Target(m[l[k] + 1]) == Stop(l, k + 1)
  }

  ghost predicate Chain(m: seq<Word>, head: nat, l: seq<nat>) {
    head == Stop(l, 0) && forall k {:trigger Entry(m, l, k)} :: 0 <= k < |l| ==> Entry(m, l, k)
  }

  ghost predicate NoDup(l: seq<nat>) { forall j, k :: 0 <= j < k < |l| ==> l[j] != l[k] }

  /** List `l` holds exactly the free blocks of class `i`, each once. */
  ghost predicate Lists(F: map<nat, nat>, l: seq<nat>, i: nat) {
    NoDup(l) && forall p: nat :: p in l <==> p in F && SegIndex(8 * F[p]) == i
  }

  /** The free lists are right: list i is a proper doubly linked list of the free blocks of class i. */
  ghost predicate Indexed(m: seq<Word>, hs: seq<nat>, ls: seq<seq<nat>>, F: map<nat, nat>) {
    |hs| == CLASSES && |ls| == CLASSES && Spread(m, F) &&
    (forall i {:trigger ls[i]} :: 0 <= i < CLASSES ==> Chain(m, hs[i], ls[i]) && Lists(F, ls[i], i))
  }

  /** Different free blocks share no word. */
  lemma Clear(m: seq<Word>, F: map<nat, nat>, p: nat, q: nat)
    requires Spread(m, F) && p in F && q in F && p != q
    ensures p + 4 <= q || q + 4 <= p
  {
    assert F[p] >= 2 && F[q] >= 2;
  }

  ghost predicate LinkWord(F: map<nat, nat>, i: int) { i in F || i - 1 in F }

  ghost predicate OnlyLinks(m: seq<Word>, m': seq<Word>, F: map<nat, nat>) {
    |m'| == |m| && forall i {:trigger m'[i]} :: 0 <= i < |m| ==> m'[i] == m[i] || LinkWord(F, i)
  }

  /** A list none of whose words change. */
  lemma ChainFrame(m: seq<Word>, m': seq<Word>, head: nat, l: seq<nat>)
    requires Chain(m, head, l) && |m'| == |m|
    requires forall k {:trigger l[k]} ::
      0 <= k < |l| && l[k] + 1 < |m| ==> m'[l[k]] == m[l[k]] && m'[l[k] + 1] == m[l[k] + 1]
    ensures Chain(m', head, l)
  {
    hide Target;
    forall k | 0 <= k < |l| ensures Entry(m', l, k) { assert Entry(m, l, k); }
  }

  // ------------------------------------------------------------- inserting at a place

  /** Memory after `p` has been linked between `prev` and `cur`, either of which may be null. */
  function SplicedMem(m: seq<Word>, p: nat, prev: nat, cur: nat): seq<Word>
    requires p + 1 < |m| && prev + 1 < |m| && cur < |m|
  {
    var m1 := m[p := Addr(prev)][p + 1 := Addr(cur)];
    var m2 := if prev == 0 then m1 else m1[prev + 1 := Addr(p)];
    if cur == 0 then m2 else m2[cur := Addr(p)]
  }

  function Inserted(l: seq<nat>, k: nat, p: nat): seq<nat> requires k <= |l| { l[..k] + [p] + l[k..] }

  /** What the words of list block l[i] hold after the splice. */
  lemma SplicedWords(m: seq<Word>, F: map<nat, nat>, l: seq<nat>, k: nat, p: nat, i: nat)
    requires Spread(m, F) && p in F && k <= |l| && i < |l| &&
      (forall n {:trigger l[n]} :: 0 <= n < |l| ==> l[n] in F && l[n] != p) && NoDup(l)
    ensures p + 1 < |m| && Stop(l, k - 1) + 1 < |m| && Stop(l, k) < |m| && 4 <= l[i] && l[i] + 1 < |m|
    ensures var m' := SplicedMem(m, p, Stop(l, k - 1), Stop(l, k));
      |m'| == |m| && m'[l[i]] == (if i == k then Addr(p) else m[l[i]]) &&
        m'[l[i] + 1] == if i == k - 1 then Addr(p) else m[l[i] + 1]
  {
    hide Addr, Spread;
    InBounds(m, F, p); InBounds(m, F, l[i]);
    Clear(m, F, p, l[i]);
    if k >= 1 {
      InBounds(m, F, l[k - 1]);
      if i != k - 1 { Clear(m, F, l[i], l[k - 1]); }
    }
    if k < |l| {
      InBounds(m, F, l[k]);
      if i != k { Clear(m, F, l[i], l[k]); }
    }
  }

  /** What the words of the new block hold. */
  lemma SplicedNew(m: seq<Word>, F: map<nat, nat>, l: seq<nat>, k: nat, p: nat)
    requires Spread(m, F) && p in F && k <= |l| && (forall n {:trigger l[n]} :: 0 <= n < |l| ==> l[n] in F && l[n] != p)
    ensures p + 1 < |m| && Stop(l, k - 1) + 1 < |m| && Stop(l, k) < |m| && 4 <= p
    ensures var m' := SplicedMem(m, p, Stop(l, k - 1), Stop(l, k));
      |m'| == |m| && m'[p] == Addr(Stop(l, k - 1)) && m'[p + 1] == Addr(Stop(l, k))
  {
    hide Addr, Spread;
    InBounds(m, F, p);
    if k >= 1 { InBounds(m, F, l[k - 1]); Clear(m, F, p, l[k - 1]); }
    if k < |l| { InBounds(m, F, l[k]); Clear(m, F, p, l[k]); }
  }

  lemma SplicedEntry(m: seq<Word>, F: map<nat, nat>, l: seq<nat>, k: nat, p: nat, j: nat)
    requires Spread(m, F) && p in F && k <= |l| && j <= |l| &&
      (forall i {:trigger l[i]} :: 0 <= i < |l| ==> l[i] in F && l[i] != p) && NoDup(l)
    requires forall i {:trigger Entry(m, l, i)} :: 0 <= i < |l| ==> Entry(m, l, i)
    ensures p + 1 < |m| && Stop(l, k - 1) + 1 < |m| && Stop(l, k) < |m|
    ensures Entry(SplicedMem(m, p, Stop(l, k - 1), Stop(l, k)), Inserted(l, k, p), j)
  {
    hide Target, Addr, Spread, SplicedMem, NoDup;
    SplicedNew(m, F, l, k, p);
    if j != k {
      var i := if j < k then j else j - 1;
      assert Inserted(l, k, p)[j] == l[i] && Entry(m, l, i);
      SplicedWords(m, F, l, k, p, i);
    }
  }

  lemma InBounds(m: seq<Word>, F: map<nat, nat>, p: nat)
    requires Spread(m, F) && p in F
    ensures 4 <= p && p + 3 < |m| && F[p] >= 2
  {
  }

  /** All entries of a chain, and what is known of its blocks. */
  lemma Members(m: seq<Word>, hs: seq<nat>, ls: seq<seq<nat>>, F: map<nat, nat>, i: nat)
    requires Indexed(m, hs, ls, F) && i < CLASSES
    ensures forall k {:trigger ls[i][k]} :: 0 <= k < |ls[i]| ==> ls[i][k] in F && SegIndex(8 * F[ls[i][k]]) == i
    ensures Chain(m, hs[i], ls[i]) && NoDup(ls[i])
  {
    hide SegIndex;
    var l := ls[i];
    forall k | 0 <= k < |l| ensures l[k] in F && SegIndex(8 * F[l[k]]) == i { assert l[k] in l; }
  }

  lemma Spliced(m: seq<Word>, hs: seq<nat>, ls: seq<seq<nat>>, F: map<nat, nat>, p: nat, d: nat, k: nat)
    requires Indexed(m, hs, ls, F) && p !in F && Spread(m, F[p := d]) && k <= |ls[SegIndex(8 * d)]|
    ensures var (l, i) := (ls[SegIndex(8 * d)], SegIndex(8 * d));
      p + 1 < |m| && Stop(l, k - 1) + 1 < |m| && Stop(l, k) < |m| &&
      var m' := SplicedMem(m, p, Stop(l, k - 1), Stop(l, k));
      Indexed(m', if k == 0 then hs[i := p] else hs, ls[i := Inserted(l, k, p)], F[p := d]) &&
        OnlyLinks(m, m', F[p := d])
  {
    hide Target, Addr, SegIndex, Spread, Chain, NoDup;
    var i := SegIndex(8 * d);
    var l, F' := ls[i], F[p := d];
    Members(m, hs, ls, F, i);
    SplicedChain(m, hs[i], l, F', k, p);
    var m' := SplicedMem(m, p, Stop(l, k - 1), Stop(l, k));
    var hs', ls' := if k == 0 then hs[i := p] else hs, ls[i := Inserted(l, k, p)];
    SplicedOnly(m, F', l, k, p);
    SameSpread(m, m', F');
    InsertedList(F, l, i, k, p, d);
    forall j | 0 <= j < CLASSES ensures Chain(m', hs'[j], ls'[j]) && Lists(F', ls'[j], j) {
      if j != i {
        Members(m, hs, ls, F, j);
        OtherChain(m, m', hs[j], ls[j], F', l, k, p);
        OtherLists(F, ls[j], j, p, d);
      }
    }
  }

  lemma SplicedChain(m: seq<Word>, head: nat, l: seq<nat>, F: map<nat, nat>, k: nat, p: nat)
    requires Chain(m, head, l) && NoDup(l) && Spread(m, F) && p in F && k <= |l| &&
      forall i {:trigger l[i]} :: 0 <= i < |l| ==> l[i] in F && l[i] != p
    ensures p + 1 < |m| && Stop(l, k - 1) + 1 < |m| && Stop(l, k) < |m|
    ensures Chain(SplicedMem(m, p, Stop(l, k - 1), Stop(l, k)), if k == 0 then p else head, Inserted(l, k, p))
  {
    hide Target, Spread, NoDup;
    SplicedEntry(m, F, l, k, p, k);
    var m', l' := SplicedMem(m, p, Stop(l, k - 1), Stop(l, k)), Inserted(l, k, p);
    forall j | 0 <= j < |l'| ensures Entry(m', l', j) { SplicedEntry(m, F, l, k, p, j); }
  }

  lemma SplicedOnly(m: seq<Word>, F: map<nat, nat>, l: seq<nat>, k: nat, p: nat)
    requires p in F && k <= |l| && (forall i {:trigger l[i]} :: 0 <= i < |l| ==> l[i] in F)
    requires p + 1 < |m| && Stop(l, k - 1) + 1 < |m| && Stop(l, k) < |m|
    ensures OnlyLinks(m, SplicedMem(m, p, Stop(l, k - 1), Stop(l, k)), F)
  {
  }

  lemma SameSpread(m: seq<Word>, m': seq<Word>, F: map<nat, nat>)
    requires Spread(m, F) && |m'| == |m|
    ensures Spread(m', F)
  {
  }

  lemma InsertedList(F: map<nat, nat>, l: seq<nat>, i: nat, k: nat, p: nat, d: nat)
    requires Lists(F, l, i) && k <= |l| && p !in F && SegIndex(8 * d) == i
    ensures Lists(F[p := d], Inserted(l, k, p), i)
  {
    hide SegIndex;
    var l' := Inserted(l, k, p);
    assert p !in l;
    forall q: nat ensures q in l' <==> q in l || q == p {
      assert l == l[..k] + l[k..];
    }
    forall a, b | 0 <= a < b < |l'| ensures l'[a] != l'[b] {
      assert a < k ==> l'[a] == l[a];
      assert a > k ==> l'[a] == l[a - 1];
      assert b < k ==> l'[b] == l[b];
      assert b > k ==> l'[b] == l[b - 1];
    }
  }

  lemma OtherLists(F: map<nat, nat>, l: seq<nat>, j: nat, p: nat, d: nat)
    requires Lists(F, l, j) && p !in F && SegIndex(8 * d) != j
    ensures Lists(F[p := d], l, j)
  {
    hide SegIndex;
  }

  lemma OtherChain(m: seq<Word>, m': seq<Word>, head: nat, l2: seq<nat>, F: map<nat, nat>, l: seq<nat>, k: nat, p: nat)
    requires Chain(m, head, l2) && Spread(m, F) && p in F && k <= |l|
    requires forall i {:trigger l[i]} :: 0 <= i < |l| ==> l[i] in F
    requires forall i {:trigger l2[i]} :: 0 <= i < |l2| ==> l2[i] in F && l2[i] != p && l2[i] !in l
    requires p + 1 < |m| && Stop(l, k - 1) + 1 < |m| && Stop(l, k) < |m| &&
      m' == SplicedMem(m, p, Stop(l, k - 1), Stop(l, k))
    ensures Chain(m', head, l2)
  {
    hide Target, Addr, Spread, Chain;
    forall j | 0 <= j < |l2| && l2[j] + 1 < |m| ensures m'[l2[j]] == m[l2[j]] && m'[l2[j] + 1] == m[l2[j] + 1] {
      InBounds(m, F, l2[j]);
      Clear(m, F, p, l2[j]);
      if k >= 1 { assert l[k - 1] in l; Clear(m, F, l[k - 1], l2[j]); }
      if k < |l| { assert l[k] in l; Clear(m, F, l[k], l2[j]); }
    }
    ChainFrame(m, m', head, l2);
  }

  // ------------------------------------------------------------- removing

  function RemovedMem(m: seq<Word>, prev: nat, next: nat): seq<Word>
    requires prev + 1 < |m| && next < |m|
  {
    var m1 := if prev == 0 then m else m[prev + 1 := Addr(next)];
    if next == 0 then m1 else m1[next := Addr(prev)]
  }

  function Removed(l: seq<nat>, k: nat): seq<nat> requires k < |l| { l[..k] + l[k + 1..] }

  lemma RemovedEntry(m: seq<Word>, F: map<nat, nat>, l: seq<nat>, k: nat, j: nat)
    requires Spread(m, F) && k < |l| && j + 1 < |l| && (forall i {:trigger l[i]} :: 0 <= i < |l| ==> l[i] in F) &&
      NoDup(l)
    requires forall i {:trigger Entry(m, l, i)} :: 0 <= i < |l| ==> Entry(m, l, i)
    ensures Stop(l, k - 1) + 1 < |m| && Stop(l, k + 1) < |m|
    ensures Entry(RemovedMem(m, Stop(l, k - 1), Stop(l, k + 1)), Removed(l, k), j)
  {
    hide Target, Addr, Spread;
    if k >= 1 { InBounds(m, F, l[k - 1]); }
    if k + 1 < |l| { InBounds(m, F, l[k + 1]); }
    if 1 <= k && k + 1 < |l| { Clear(m, F, l[k - 1], l[k + 1]); }
    var i := if j < k then j else j + 1;
    assert Removed(l, k)[j] == l[i] && Entry(m, l, i);
    if k >= 1 && i != k - 1 { Clear(m, F, l[i], l[k - 1]); }
    if k + 1 < |l| && i != k + 1 { Clear(m, F, l[i], l[k + 1]); }
  }

  lemma Dropped(m: seq<Word>, hs: seq<nat>, ls: seq<seq<nat>>, F: map<nat, nat>, i: nat, k: nat)
    requires Indexed(m, hs, ls, F) && i < CLASSES && k < |ls[i]|
    ensures var l := ls[i];
      Stop(l, k - 1) + 1 < |m| && Stop(l, k + 1) < |m| &&
      var m' := RemovedMem(m, Stop(l, k - 1), Stop(l, k + 1));
      Indexed(m', if k == 0 then hs[i := Stop(l, 1)] else hs, ls[i := Removed(l, k)], F - {l[k]}) && OnlyLinks(m, m', F)
  {
    hide Target, Addr, SegIndex, Spread, Chain, NoDup;
    var l, p := ls[i], ls[i][k];
    Members(m, hs, ls, F, i);
    DroppedChain(m, hs[i], l, F, k);
    var m' := RemovedMem(m, Stop(l, k - 1), Stop(l, k + 1));
    var hs', ls', F' := if k == 0 then hs[i := Stop(l, 1)] else hs, ls[i := Removed(l, k)], F - {p};
    DroppedOnly(m, F, l, k);
    LessSpread(m, m', F, p);
    RemovedList(F, l, i, k);
    forall j | 0 <= j < CLASSES ensures Chain(m', hs'[j], ls'[j]) && Lists(F', ls'[j], j) {
      if j != i {
        Members(m, hs, ls, F, j);
        StillChain(m, m', hs[j], ls[j], F, l, k);
        StillLists(F, ls[j], j, p);
      }
    }
  }

  lemma DroppedChain(m: seq<Word>, head: nat, l: seq<nat>, F: map<nat, nat>, k: nat)
    requires Chain(m, head, l) && NoDup(l) && Spread(m, F) && k < |l| &&
      forall i {:trigger l[i]} :: 0 <= i < |l| ==> l[i] in F
    ensures Stop(l, k - 1) + 1 < |m| && Stop(l, k + 1) < |m|
    ensures Chain(RemovedMem(m, Stop(l, k - 1), Stop(l, k + 1)), if k == 0 then Stop(l, 1) else head, Removed(l, k))
  {
    hide Target, Spread, NoDup;
    if k >= 1 { InBounds(m, F, l[k - 1]); }
    if k + 1 < |l| { InBounds(m, F, l[k + 1]); }
    InBounds(m, F, l[k]);
    var m', l' := RemovedMem(m, Stop(l, k - 1), Stop(l, k + 1)), Removed(l, k);
    forall j | 0 <= j < |l'| ensures Entry(m', l', j) { RemovedEntry(m, F, l, k, j); }
    assert Stop(l', 0) == if k == 0 then Stop(l, 1) else Stop(l, 0);
  }

  lemma DroppedOnly(m: seq<Word>, F: map<nat, nat>, l: seq<nat>, k: nat)
    requires k < |l| && (forall i {:trigger l[i]} :: 0 <= i < |l| ==> l[i] in F)
    requires Stop(l, k - 1) + 1 < |m| && Stop(l, k + 1) < |m|
    ensures OnlyLinks(m, RemovedMem(m, Stop(l, k - 1), Stop(l, k + 1)), F)
  {
  }

  lemma LessSpread(m: seq<Word>, m': seq<Word>, F: map<nat, nat>, p: nat)
    requires Spread(m, F) && |m'| == |m|
    ensures Spread(m', F - {p})
  {
  }

  lemma RemovedList(F: map<nat, nat>, l: seq<nat>, i: nat, k: nat)
    requires Lists(F, l, i) && k < |l|
    ensures Lists(F - {l[k]}, Removed(l, k), i)
  {
    hide SegIndex;
    var l' := Removed(l, k);
    forall q: nat ensures q in l' <==> q in l && q != l[k] {
      if q in l && q != l[k] {
        var j :| 0 <= j < |l| && l[j] == q;
        assert l'[if j < k then j else j - 1] == q;
      }
      if q in l' {
        var j :| 0 <= j < |l'| && l'[j] == q;
        assert q == l[if j < k then j else j + 1];
      }
    }
    forall a, b | 0 <= a < b < |l'| ensures l'[a] != l'[b] {
      assert l'[a] == l[if a < k then a else a + 1] && l'[b] == l[if b < k then b else b + 1];
    }
  }

  lemma StillLists(F: map<nat, nat>, l: seq<nat>, j: nat, p: nat)
    requires Lists(F, l, j) && p in F && SegIndex(8 * F[p]) != j
    ensures Lists(F - {p}, l, j)
  {
    hide SegIndex;
  }

  lemma StillChain(m: seq<Word>, m': seq<Word>, head: nat, l2: seq<nat>, F: map<nat, nat>, l: seq<nat>, k: nat)
    requires Chain(m, head, l2) && Spread(m, F) && k < |l|
    requires forall i {:trigger l[i]} :: 0 <= i < |l| ==> l[i] in F
    requires forall i {:trigger l2[i]} :: 0 <= i < |l2| ==> l2[i] in F && l2[i] !in l
    requires Stop(l, k - 1) + 1 < |m| && Stop(l, k + 1) < |m| && m' == RemovedMem(m, Stop(l, k - 1), Stop(l, k + 1))
    ensures Chain(m', head, l2)
  {
    hide Target, Addr, Spread, Chain;
    forall j | 0 <= j < |l2| && l2[j] + 1 < |m| ensures m'[l2[j]] == m[l2[j]] && m'[l2[j] + 1] == m[l2[j] + 1] {
      InBounds(m, F, l2[j]);
      if k >= 1 { assert l[k - 1] in l; Clear(m, F, l[k - 1], l2[j]); }
      if k + 1 < |l| { assert l[k + 1] in l; Clear(m, F, l[k + 1], l2[j]); }
    }
    ChainFrame(m, m', head, l2);
  }

  // ------------------------------------------------------------- the list operations

  /** Headers of free blocks hold their sizes. */
  ghost predicate Headed(m: seq<Word>, F: map<nat, nat>) {
    forall p {:trigger F[p]} :: p in F ==> 1 <= p <= |m| && m[p - 1].hi == F[p]
  }

  /** What a step along list i sees. */
  lemma StepAt(m: seq<Word>, hs: seq<nat>, ls: seq<seq<nat>>, F: map<nat, nat>, i: nat, k: nat)
    requires Indexed(m, hs, ls, F) && i < CLASSES && k <= |ls[i]|
    ensures k == 0 ==> hs[i] == Stop(ls[i], 0)
    ensures Stop(ls[i], k) == 0 <==> k == |ls[i]|
    ensures k < |ls[i]| ==> var p := ls[i][k];
      4 <= p && p + 3 < |m| && p in F && SegIndex(8 * F[p]) == i && Target(m[p + 1]) == Stop(ls[i], k + 1) &&
        Target(m[p]) == Stop(ls[i], k - 1)
  {
    hide Target, SegIndex, Spread;
    Members(m, hs, ls, F, i);
    if k < |ls[i]| {
      assert Entry(m, ls[i], k);
      InBounds(m, F, ls[i][k]);
    }
  }

  /** insert_free_block of mm_seg_bestfit.c: at the front. */
  method Insert(mem: array<Word>, heads: array<nat>, p: nat, ghost ls: seq<seq<nat>>, ghost F: map<nat, nat>,
      ghost d: nat)
    returns (ghost ls': seq<seq<nat>>)
    requires heads.Length == CLASSES && Indexed(mem[..], heads[..], ls, F) && p !in F && Spread(mem[..], F[p := d]) &&
      1 <= p <= mem.Length && mem[p - 1].hi == d
    modifies mem, heads
    ensures Indexed(mem[..], heads[..], ls', F[p := d]) && OnlyLinks(old(mem[..]), mem[..], F[p := d])
    ensures ls' == ls[SegIndex(8 * d) := [p] + ls[SegIndex(8 * d)]]
  {
    hide Target, Addr, SegIndex, Chain, Lists, Indexed, Spread, OnlyLinks;
    ghost var m, hs := mem[..], heads[..];
    InBounds(m, F[p := d], p);
    var index := SegIndex(8 * mem[p - 1].hi);
    StepAt(m, hs, ls, F, index, 0);
    Sizes(m, hs, ls, F);
    Spliced(m, hs, ls, F, p, d, 0);
    var listHead := heads[index];
    heads[index] := p;
    mem[p] := Addr(0);
    if listHead == 0 {
      mem[p + 1] := Addr(0);
    } else {
      mem[p + 1] := Addr(listHead);
      mem[listHead] := Addr(p);
    }
    assert heads[..] == hs[index := p];
    assert mem[..] == SplicedMem(m, p, 0, listHead);
    ls' := ls[index := Inserted(ls[index], 0, p)];
    assert Inserted(ls[index], 0, p) == [p] + ls[index];
  }

  /** remove_free_block */
  method Remove(mem: array<Word>, heads: array<nat>, p: nat, ghost ls: seq<seq<nat>>, ghost F: map<nat, nat>)
    returns (ghost ls': seq<seq<nat>>, ghost k: nat)
    requires heads.Length == CLASSES && Indexed(mem[..], heads[..], ls, F) && p in F && 1 <= p <= mem.Length &&
      mem[p - 1].hi == F[p]
    modifies mem, heads
    ensures Indexed(mem[..], heads[..], ls', F - {p}) && OnlyLinks(old(mem[..]), mem[..], F)
    ensures var i := SegIndex(8 * F[p]);
      |ls| == CLASSES && k < |ls[i]| && ls[i][k] == p && ls' == ls[i := Removed(ls[i], k)]
  {
    hide Target, Addr, SegIndex, Chain, Indexed, Spread, OnlyLinks;
    ghost var m, hs := mem[..], heads[..];
    var index := SegIndex(8 * mem[p - 1].hi);
    Listed(m, hs, ls, F, p);
    k :| 0 <= k < |ls[index]| && ls[index][k] == p;
    StepAt(m, hs, ls, F, index, k);
    Dropped(m, hs, ls, F, index, k);
    ghost var l := ls[index];
    if k >= 1 { StepAt(m, hs, ls, F, index, k - 1); }
    if k + 1 < |l| { StepAt(m, hs, ls, F, index, k + 1); }
    var pred := Target(mem[p]);
    var succ := Target(mem[p + 1]);
    if pred == 0 && succ == 0 {
      heads[index] := 0;
    } else if pred == 0 {
      heads[index] := succ;
      mem[succ] := Addr(0);
    } else if succ == 0 {
      mem[pred + 1] := Addr(0);
    } else {
      mem[pred + 1] := Addr(succ);
      mem[succ] := Addr(pred);
    }
    assert heads[..] == if k == 0 then hs[index := Stop(l, 1)] else hs;
    assert mem[..] == RemovedMem(m, Stop(l, k - 1), Stop(l, k + 1));
    ls' := ls[index := Removed(l, k)];
  }

  /** Every free block is in the list of its class. */
  lemma Listed(m: seq<Word>, hs: seq<nat>, ls: seq<seq<nat>>, F: map<nat, nat>, p: nat)
    requires Indexed(m, hs, ls, F) && p in F
    ensures |ls| == CLASSES && p in ls[SegIndex(8 * F[p])]
  {
    hide SegIndex;
    assert Lists(F, ls[SegIndex(8 * F[p])], SegIndex(8 * F[p]));
  }

  // ------------------------------------------------------------- best fit

  /** `r` is a smallest free block of at least `asize` double words, null when there is none. */
  ghost predicate BestFit(F: map<nat, nat>, asize: nat, r: nat) {
    if r == 0 then forall p {:trigger F[p]} :: p in F ==> F[p] < asize
    else r in F && asize <= F[r] && forall p {:trigger F[p]} :: p in F && asize <= F[p] ==> F[r] <= F[p]
  }

  /** `best` is the best among the first k blocks of list i, all earlier lists holding nothing big enough. */
  ghost predicate BestSoFar(F: map<nat, nat>, l: seq<nat>, k: nat, asize: nat, best: nat)
    requires k <= |l| && forall j {:trigger l[j]} :: 0 <= j < |l| ==> l[j] in F
  {
    (best != 0 ==> best in F && best in l && asize <= F[best]) &&
    forall j {:trigger l[j]} :: 0 <= j < k && asize <= F[l[j]] ==> best != 0 && F[best] <= F[l[j]]
  }

  /** A best block of the first class that holds a fit is a best block of all. */
  lemma ClassBest(m: seq<Word>, hs: seq<nat>, ls: seq<seq<nat>>, F: map<nat, nat>, i: nat, asize: nat, best: nat)
    requires Indexed(m, hs, ls, F) && i < CLASSES && best in ls[i] && best in F && best != 0 && asize <= F[best]
    requires forall p {:trigger F[p]} :: p in F && asize <= F[p] ==> i <= SegIndex(8 * F[p])
    requires forall p {:trigger F[p]} :: p in F && p in ls[i] && asize <= F[p] ==> F[best] <= F[p]
    ensures BestFit(F, asize, best)
  {
    hide SegIndex, Chain;
    assert Lists(F, ls[i], i);
    forall p | p in F && asize <= F[p] ensures F[best] <= F[p] {
      if F[p] < F[best] { SegMonotone(8 * F[p], 8 * F[best]); }
    }
  }

  /** Blocks big enough are in the class of the request or a later one. */
  lemma FirstClass(F: map<nat, nat>, asize: nat)
    ensures forall p {:trigger F[p]} :: p in F && asize <= F[p] ==> SegIndex(8 * asize) <= SegIndex(8 * F[p])
  {
    hide SegIndex;
    forall p | p in F && asize <= F[p] ensures SegIndex(8 * asize) <= SegIndex(8 * F[p]) {
      SegMonotone(8 * asize, 8 * F[p]);
    }
  }

  /** Scanning list i to its end (or to an exact fit). */
  method ScanList(mem: array<Word>, heads: array<nat>, asize: nat, i: nat, ghost ls: seq<seq<nat>>, ghost F: map<nat,
      nat>) returns (best: nat)
    requires heads.Length == CLASSES && Indexed(mem[..], heads[..], ls, F) && Headed(mem[..], F) && i < CLASSES
    ensures best != 0 ==> best in F && best in ls[i] && asize <= F[best]
    ensures forall p {:trigger F[p]} :: p in F && p in ls[i] && asize <= F[p] ==> best != 0 && F[best] <= F[p]
  {
    hide Target, SegIndex, Spread, Chain, Indexed;
    ghost var m, hs, k := mem[..], heads[..], 0;
    Members(m, hs, ls, F, i);
    StepAt(m, hs, ls, F, i, 0);
    Sizes(m, hs, ls, F);
    var ptr := heads[i];
    best := 0;
    while ptr != 0
      invariant k <= |ls[i]| && ptr == Stop(ls[i], k) && (ptr == 0 <==> k == |ls[i]|) &&
        BestSoFar(F, ls[i], k, asize, best)
      decreases |ls[i]| - k
    {
      StepAt(m, hs, ls, F, i, k);
      assert F[ptr] == F[ls[i][k]] && ptr in ls[i];
      if asize == mem[ptr - 1].hi {
        return ptr;
      }
      if asize < mem[ptr - 1].hi {
        if best == 0 || mem[best - 1].hi - asize > mem[ptr - 1].hi - asize {
          best := ptr;
        }
      }
      ptr := Target(mem[ptr + 1]);
      k := k + 1;
      StepAt(m, hs, ls, F, i, k);
    }
  }

  /** best_fit of mm_seg_bestfit.c: a smallest fit among all free blocks of the heap, not just of its class. */
  method FindBestFit(mem: array<Word>, heads: array<nat>, asize: nat, ghost ls: seq<seq<nat>>, ghost F: map<nat, nat>)
      returns (r: nat)
    requires heads.Length == CLASSES && Indexed(mem[..], heads[..], ls, F) && Headed(mem[..], F)
    ensures BestFit(F, asize, r)
  {
    hide SegIndex, Spread, Chain, Indexed, Headed;
    var index := SegIndex(8 * asize);
    FirstClass(F, asize);
    while index < CLASSES
      invariant index <= CLASSES
      invariant forall p {:trigger F[p]} :: p in F && asize <= F[p] ==> index <= SegIndex(8 * F[p])
    {
      r := ScanList(mem, heads, asize, index, ls, F);
      NotHere(mem[..], heads[..], ls, F, index);
      if r != 0 {
        ClassBest(mem[..], heads[..], ls, F, index, asize, r);
        return;
      }
      index := index + 1;
    }
    r := 0;
  }

  lemma NotHere(m: seq<Word>, hs: seq<nat>, ls: seq<seq<nat>>, F: map<nat, nat>, i: nat)
    requires Indexed(m, hs, ls, F) && i < CLASSES
    ensures forall p {:trigger F[p]} :: p in F && p !in ls[i] ==> SegIndex(8 * F[p]) != i
    ensures forall p :: p in ls[i] ==> p in F
  {
    hide SegIndex, Chain;
    assert Lists(F, ls[i], i);
  }

  // ------------------------------------------------------------- mm_seg_descend.c

  /** A list from big to small. */
  ghost predicate Descending(F: map<nat, nat>, l: seq<nat>) {
    forall j, k {:trigger l[j], l[k]} :: 0 <= j < k < |l| && l[j] in F && l[k] in F ==> F[l[j]] >= F[l[k]]
  }

  ghost predicate AllDescending(F: map<nat, nat>, ls: seq<seq<nat>>) {
    forall i {:trigger ls[i]} :: 0 <= i < |ls| ==> Descending(F, ls[i])
  }

  /** insert_free_block of mm_seg_descend.c: behind the last block that is not smaller. */
  method SortedInsert(mem: array<Word>, heads: array<nat>, p: nat, ghost ls: seq<seq<nat>>, ghost F: map<nat, nat>,
      ghost d: nat)
    returns (ghost ls': seq<seq<nat>>, ghost k: nat)
    requires heads.Length == CLASSES && Indexed(mem[..], heads[..], ls, F) && p !in F && Spread(mem[..], F[p := d]) &&
      1 <= p <= mem.Length && mem[p - 1].hi == d
    requires Headed(mem[..], F) && AllDescending(F, ls)
    modifies mem, heads
    ensures Indexed(mem[..], heads[..], ls', F[p := d]) && OnlyLinks(old(mem[..]), mem[..], F[p := d]) &&
      AllDescending(F[p := d], ls')
    ensures |ls| == CLASSES && k <= |ls[SegIndex(8 * d)]| &&
      ls' == ls[SegIndex(8 * d) := Inserted(ls[SegIndex(8 * d)], k, p)]
  {
    hide Target, Addr, SegIndex, Chain, Indexed, Spread, OnlyLinks, Descending;
    ghost var m, hs, F' := mem[..], heads[..], F[p := d];
    InBounds(m, F', p);
    var size := mem[p - 1].hi;
    var index := SegIndex(8 * size);
    Sizes(m, hs, ls, F);
    ghost var l := ls[index];
    Members(m, hs, ls, F, index);
    var prev, current;
    prev, current, k := SortedPlace(mem, heads, index, size, ls, F);
    Spliced(m, hs, ls, F, p, d, k);
    KeepsDescending(m, hs, ls, F, p, d, k);
    if prev == 0 {
      heads[index] := p;
    } else {
      mem[prev + 1] := Addr(p);
    }
    mem[p] := Addr(prev);
    mem[p + 1] := Addr(current);
    if current != 0 {
      mem[current] := Addr(p);
    }
    if k >= 1 { Clear(m, F', p, l[k - 1]); }
    if k < |l| { Clear(m, F', p, l[k]); }
    if 1 <= k < |l| { LessSpread(m, m, F', p); assert F' - {p} == F; Apart(m, F, l, k); }
    assert heads[..] == if k == 0 then hs[index := p] else hs;
    SplicedLate(m, mem[..], p, prev, current);
    ls' := ls[index := Inserted(l, k, p)];
  }

  /** The place of a block of `size` in the descending list `index`: behind all that are not smaller. */
  method SortedPlace(mem: array<Word>, heads: array<nat>, index: nat, size: nat, ghost ls: seq<seq<nat>>,
      ghost F: map<nat, nat>) returns (prev: nat, current: nat, ghost k: nat)
    requires heads.Length == CLASSES && Indexed(mem[..], heads[..], ls, F) && Headed(mem[..], F) && index < CLASSES
    ensures |ls| == CLASSES && forall j {:trigger ls[index][j]} :: 0 <= j < |ls[index]| ==> ls[index][j] in F
    ensures k <= |ls[index]| && current == Stop(ls[index], k) && prev == Stop(ls[index], k - 1) &&
      (current == 0 <==> k == |ls[index]|) && (prev == 0 <==> k == 0)
    ensures forall j {:trigger ls[index][j]} :: 0 <= j < k ==> F[ls[index][j]] >= size
    ensures k < |ls[index]| ==> F[ls[index][k]] < size
  {
    hide Target, SegIndex, Chain, Indexed, Spread;
    ghost var m, hs := mem[..], heads[..];
    Sizes(m, hs, ls, F);
    ghost var l := ls[index];
    Members(m, hs, ls, F, index);
    StepAt(m, hs, ls, F, index, 0);
    current, prev := heads[index], 0;
    k := 0;
    while current != 0 && mem[current - 1].hi >= size
      invariant k <= |l| && current == Stop(l, k) && prev == Stop(l, k - 1) && (current == 0 <==> k == |l|) &&
        (prev == 0 <==> k == 0)
      invariant current != 0 ==> current < mem.Length
      invariant forall j {:trigger l[j]} :: 0 <= j < k ==> F[l[j]] >= size
      decreases |l| - k
    {
      StepAt(m, hs, ls, F, index, k);
      assert F[current] == F[l[k]];
      prev := current;
      current := Target(mem[current + 1]);
      k := k + 1;
      StepAt(m, hs, ls, F, index, k);
    }
    if k < |l| { assert F[current] == F[l[k]]; }
  }

  /** The links may be written in either order. */
  lemma SplicedLate(m: seq<Word>, m': seq<Word>, p: nat, prev: nat, cur: nat)
    requires p + 1 < |m| && prev + 1 < |m| && cur < |m|
    requires (prev != 0 ==> prev + 2 <= p || p + 2 <= prev) && (cur != 0 ==> cur < p || p + 2 <= cur) &&
      (prev != 0 && cur != 0 ==> prev + 1 != cur)
    requires var m1 := (if prev == 0 then m else m[prev + 1 := Addr(p)])[p := Addr(prev)][p + 1 := Addr(cur)];
      m' == if cur == 0 then m1 else m1[cur := Addr(p)]
    ensures m' == SplicedMem(m, p, prev, cur)
  {
    hide Addr;
  }

  lemma Apart(m: seq<Word>, F: map<nat, nat>, l: seq<nat>, k: nat)
    requires 1 <= k < |l| && NoDup(l) && l[k] in F && l[k - 1] in F && Spread(m, F)
    ensures l[k - 1] + 4 <= l[k] || l[k] + 4 <= l[k - 1]
  {
    Clear(m, F, l[k - 1], l[k]);
  }

  lemma KeepsDescending(m: seq<Word>, hs: seq<nat>, ls: seq<seq<nat>>, F: map<nat, nat>, p: nat, d: nat, k: nat)
    requires Indexed(m, hs, ls, F) && AllDescending(F, ls) && p !in F
    requires var l := ls[SegIndex(8 * d)];
      k <= |l| && (forall j {:trigger l[j]} :: 0 <= j < k && l[j] in F ==> F[l[j]] >= d) &&
        (k < |l| && l[k] in F ==> F[l[k]] < d)
    ensures AllDescending(F[p := d], ls[SegIndex(8 * d) := Inserted(ls[SegIndex(8 * d)], k, p)])
  {
    hide SegIndex, Indexed, Spread;
    var i := SegIndex(8 * d);
    assert |ls| == CLASSES && |hs| == CLASSES by { Sizes(m, hs, ls, F); }
    var F', ls' := F[p := d], ls[i := Inserted(ls[i], k, p)];
    forall j | 0 <= j < |ls'| ensures Descending(F', ls'[j]) {
      Members(m, hs, ls, F, j);
      var l := ls[j];
      assert Descending(F, l);
      if j == i {
        var l' := Inserted(l, k, p);
        forall a, b | 0 <= a < b < |l'| && l'[a] in F' && l'[b] in F' ensures F'[l'[a]] >= F'[l'[b]] {
          assert a < k ==> l'[a] == l[a];
          assert a > k ==> l'[a] == l[a - 1];
          assert b < k ==> l'[b] == l[b];
          assert b > k ==> l'[b] == l[b - 1];
          if a == k && b > k + 1 { assert l[k] in F && F[l[k]] >= F[l[b - 1]]; }
        }
      }
    }
  }

  lemma Sizes(m: seq<Word>, hs: seq<nat>, ls: seq<seq<nat>>, F: map<nat, nat>)
    requires Indexed(m, hs, ls, F)
    ensures |ls| == CLASSES && |hs| == CLASSES
  {
  }

  /** Removal keeps every list sorted. */
  lemma StaysDescending(F: map<nat, nat>, ls: seq<seq<nat>>, i: nat, k: nat)
    requires AllDescending(F, ls) && i < |ls| && k < |ls[i]|
    ensures AllDescending(F - {ls[i][k]}, ls[i := Removed(ls[i], k)])
  {
    var F', ls' := F - {ls[i][k]}, ls[i := Removed(ls[i], k)];
    forall j | 0 <= j < |ls'| ensures Descending(F', ls'[j]) {
      var l := ls[j];
      assert Descending(F, l);
      forall a, b | 0 <= a < b < |ls'[j]| && ls'[j][a] in F' && ls'[j][b] in F' ensures F'[ls'[j][a]] >= F'[ls'[j][b]] {
        if j == i {
          assert ls'[j][a] == l[if a < k then a else a + 1];
          assert ls'[j][b] == l[if b < k then b else b + 1];
        }
      }
    }
  }

  /** The scan of mm_seg_descend.c, which stops at the first block that is too small. */
  method ScanSorted(mem: array<Word>, heads: array<nat>, asize: nat, i: nat, ghost ls: seq<seq<nat>>, ghost F: map<nat,
      nat>) returns (best: nat)
    requires heads.Length == CLASSES && Indexed(mem[..], heads[..], ls, F) && Headed(mem[..], F) && i < CLASSES &&
      AllDescending(F, ls)
    ensures best != 0 ==> best in F && best in ls[i] && asize <= F[best]
    ensures forall p {:trigger F[p]} :: p in F && p in ls[i] && asize <= F[p] ==> best != 0 && F[best] <= F[p]
  {
    hide Target, SegIndex, Spread, Chain, Indexed;
    ghost var m, hs, k := mem[..], heads[..], 0;
    Members(m, hs, ls, F, i);
    StepAt(m, hs, ls, F, i, 0);
    Sizes(m, hs, ls, F);
    assert Descending(F, ls[i]);
    var ptr := heads[i];
    best := 0;
    while ptr != 0
      invariant k <= |ls[i]| && ptr == Stop(ls[i], k) && (ptr == 0 <==> k == |ls[i]|) &&
        BestSoFar(F, ls[i], k, asize, best)
      decreases |ls[i]| - k
    {
      StepAt(m, hs, ls, F, i, k);
      assert F[ptr] == F[ls[i][k]] && ptr in ls[i];
      var blockSize := mem[ptr - 1].hi;
      if asize == blockSize {
        return ptr;
      }
      if blockSize >= asize {
        if best == 0 || blockSize < mem[best - 1].hi {
          best := ptr;
        }
      } else {
        break;
      }
      ptr := Target(mem[ptr + 1]);
      k := k + 1;
      StepAt(m, hs, ls, F, i, k);
    }
    forall p | p in F && p in ls[i] && asize <= F[p] ensures best != 0 && F[best] <= F[p] {
      var j :| 0 <= j < |ls[i]| && ls[i][j] == p;
      if k < |ls[i]| { assert F[ls[i][k]] < asize; }
    }
  }

  /** best_fit of mm_seg_descend.c: the early exit loses nothing. */
  method FindSortedFit(mem: array<Word>, heads: array<nat>, asize: nat, ghost ls: seq<seq<nat>>, ghost F: map<nat,
      nat>) returns (r: nat)
    requires heads.Length == CLASSES && Indexed(mem[..], heads[..], ls, F) && Headed(mem[..], F) && AllDescending(F, ls)
    ensures BestFit(F, asize, r)
  {
    hide SegIndex, Spread, Chain, Indexed, Headed, AllDescending;
    var index := SegIndex(8 * asize);
    FirstClass(F, asize);
    while index < CLASSES
      invariant index <= CLASSES
      invariant forall p {:trigger F[p]} :: p in F && asize <= F[p] ==> index <= SegIndex(8 * F[p])
    {
      r := ScanSorted(mem, heads, asize, index, ls, F);
      NotHere(mem[..], heads[..], ls, F, index);
      if r != 0 {
        ClassBest(mem[..], heads[..], ls, F, index, asize, r);
        return;
      }
      index := index + 1;
    }
    r := 0;
  }
}
