/**
 The circular list of the smallest free blocks, kept in their own words.

 The list head is NIL: its PRED and SUCC are words 1 and 2 of the heap.  A list block `n`
 keeps PRED in word n and SUCC in word n+1.
 */
module FreeList {
  import opened Words

  /** The k-th stop on the way around; stop 0 and stop |l|+1 are the head. */
  function Stop(l: seq<nat>, k: nat): nat { if 1 <= k <= |l| then l[k - 1] else NIL }

  ghost predicate InList(m: seq<Word>, l: seq<nat>) {
    (forall k {:trigger l[k]} :: 0 <= k < |l| ==> 6 <= l[k] && l[k] + 1 < |m|) && 3 <= |m| &&
    (forall j, k {:trigger l[j], l[k]} :: 0 <= j < k < |l| ==> l[j] + 2 <= l[k] || l[k] + 2 <= l[j])
  }

  /** Following SUCC from the head visits `l` and returns; following PRED does the reverse. */
  ghost predicate Ring(m: seq<Word>, l: seq<nat>) {
    InList(m, l) && forall k :: 0 <= k <= |l| ==> Edge(m, l, k)
  }

  /** Stops k and k+1 name each other. */
  ghost predicate Edge(m: seq<Word>, l: seq<nat>, k: nat) {
    var a, b := Stop(l, k), Stop(l, k + 1);
    NIL <= a && a + 1 < |m| && NIL <= b < |m| && Ptr(m[a + 1]) == b && Ptr(m[b]) == a
  }

  /** LINK(a, b) */
  function Linked(m: seq<Word>, a: nat, b: nat): seq<Word>
    requires NIL <= a && a + 1 < |m| && NIL <= b < |m|
  {
    m[a + 1 := Off(b)][b := Off(a)]
  }

  method Link(mem: array<Word>, a: nat, b: nat)
    requires NIL <= a && a + 1 < mem.Length && NIL <= b < mem.Length
    modifies mem
    ensures mem[..] == Linked(old(mem[..]), a, b)
  {
    mem[a + 1] := Off(b);
    mem[b] := Off(a);
  }

  predicate ListWord(l: seq<nat>, i: int) { i == NIL || i == NIL + 1 || i in l || i - 1 in l }

  /** `m'` differs from `m` only in the links of the head and of `l`. */
  ghost predicate OnlyRing(m: seq<Word>, m': seq<Word>, l: seq<nat>) {
    |m'| == |m| && forall i :: 0 <= i < |m| ==> m'[i] == m[i] || ListWord(l, i)
  }

  lemma StopIn(m: seq<Word>, l: seq<nat>, k: nat)
    requires InList(m, l)
    ensures NIL <= Stop(l, k) && Stop(l, k) + 1 < |m| && (Stop(l, k) == NIL || Stop(l, k) in l)
  {
  }

  /** Stops are two words wide and do not overlap; only the head is passed twice. */
  lemma Apart(m: seq<Word>, l: seq<nat>, i: nat, j: nat)
    requires InList(m, l)
    ensures 1 <= i <= |l| && 1 <= j <= |l| && i != j ==> Stop(l, i) + 2 <= Stop(l, j) || Stop(l, j) + 2 <= Stop(l, i)
    ensures 1 <= i <= |l| ==> Stop(l, i) >= 6
  {
  }

  /** INSERT(free_list_head, p) */
  method PushFront(mem: array<Word>, p: nat, ghost l: seq<nat>)
    requires Ring(mem[..], l) && InList(mem[..], [p] + l)
    modifies mem
    ensures Ring(mem[..], [p] + l) && OnlyRing(old(mem[..]), mem[..], [p] + l)
  {
    hide Ptr, Off;
    ghost var m := mem[..];
    StopIn(m, l, 1);
    assert Edge(m, l, 0) && ([p] + l)[0] == p;
    Link(mem, p, Ptr(mem[NIL + 1]));
    Link(mem, NIL, p);
    Pushed(m, mem[..], p, l);
  }

  lemma EdgeAt(m: seq<Word>, l: seq<nat>, k: nat)
    requires Ring(m, l) && k <= |l|
    ensures Edge(m, l, k)
  {
  }

  lemma PushedEdge(m: seq<Word>, m': seq<Word>, p: nat, l: seq<nat>, k: nat)
    requires Ring(m, l) && InList(m, [p] + l) && NIL <= p && NIL <= Stop(l, 1) && Stop(l, 1) + 1 < |m| && p + 1 < |m|
    requires m' == Linked(Linked(m, p, Stop(l, 1)), NIL, p) && k <= |l| + 1
    ensures Edge(m', [p] + l, k)
  {
    hide Ptr, Off, Ring, InList;
    var l' := [p] + l;
    StopIn(m, l', 1); StopIn(m, l', k); StopIn(m, l', k + 1);
    Apart(m, l', k, 1); Apart(m, l', k + 1, 1); Apart(m, l', 1, 1);
    assert Stop(l', 1) == p;
    if k >= 1 {
      EdgeAt(m, l, k - 1);
      assert Stop(l', k + 1) == Stop(l, k) && (k >= 2 ==> Stop(l', k) == Stop(l, k - 1));
      assert Stop(l', 2) == Stop(l, 1);
      Apart(m, l', k, 2); Apart(m, l', k + 1, 2); Apart(m, l', 2, 1);
    }
  }

  lemma UnlinkedEdge(m: seq<Word>, m': seq<Word>, l: seq<nat>, k: nat, j: nat)
    requires Ring(m, l) && k < |l| && NIL <= Stop(l, k) && Stop(l, k) + 1 < |m| && NIL <= Stop(l, k + 2) < |m|
    requires m' == Linked(m, Stop(l, k), Stop(l, k + 2)) && j < |l| && InList(m, l)
    ensures Edge(m', l[..k] + l[k + 1..], j)
  {
    hide Ptr, Off, Ring, InList;
    var l' := l[..k] + l[k + 1..];
    var a, b := if j <= k then j else j + 1, if j + 1 <= k then j + 1 else j + 2;
    assert Stop(l', j) == Stop(l, a) && Stop(l', j + 1) == Stop(l, b);
    StopIn(m, l, a); StopIn(m, l, b);
    Apart(m, l, k, k + 2);
    Apart(m, l, k + 2, k);
    if j != k {
      EdgeAt(m, l, a);
      assert b == a + 1;
      Apart(m, l, a, k); Apart(m, l, b, k + 2); Apart(m, l, a, k + 2); Apart(m, l, b, k);
    }
  }

  lemma Pushed(m: seq<Word>, m': seq<Word>, p: nat, l: seq<nat>)
    requires Ring(m, l) && InList(m, [p] + l) && NIL <= p && NIL <= Stop(l, 1) && Stop(l, 1) + 1 < |m| && p + 1 < |m|
    requires m' == Linked(Linked(m, p, Stop(l, 1)), NIL, p)
    ensures Ring(m', [p] + l) && OnlyRing(m, m', [p] + l)
  {
    hide Ptr, Off;
    var l' := [p] + l;
    assert forall k :: 0 <= k < |l| ==> l'[k + 1] == l[k];
    assert l'[0] == p;
    forall k | 0 <= k <= |l'| ensures Edge(m', l', k) { PushedEdge(m, m', p, l, k); }
    StopIn(m, l', 2);
    assert Stop(l', 2) == Stop(l, 1);
  }

  /** ERASE(l[k]) */
  method Unlink(mem: array<Word>, ghost l: seq<nat>, ghost k: nat, p: nat)
    requires Ring(mem[..], l) && k < |l| && l[k] == p
    modifies mem
    ensures Ring(mem[..], l[..k] + l[k + 1..]) && OnlyRing(old(mem[..]), mem[..], l)
  {
    hide Ptr, Off;
    ghost var m := mem[..];
    assert Stop(l, k + 1) == p && Edge(m, l, k) && Edge(m, l, k + 1);
    StopIn(m, l, k);
    StopIn(m, l, k + 2);
    Link(mem, Ptr(mem[p]), Ptr(mem[p + 1]));
    Unlinked(m, mem[..], l, k);
  }

  lemma Unlinked(m: seq<Word>, m': seq<Word>, l: seq<nat>, k: nat)
    requires Ring(m, l) && k < |l| && NIL <= Stop(l, k) && Stop(l, k) + 1 < |m| && NIL <= Stop(l, k + 2) < |m|
    requires m' == Linked(m, Stop(l, k), Stop(l, k + 2))
    ensures Ring(m', l[..k] + l[k + 1..]) && OnlyRing(m, m', l)
  {
    hide Ptr, Off;
    var l' := l[..k] + l[k + 1..];
    StopIn(m, l, k);
    StopIn(m, l, k + 2);
    forall j | 0 <= j <= |l'| ensures Edge(m', l', j) { UnlinkedEdge(m, m', l, k, j); }
  }

  /** Words outside the ring do not matter. */
  lemma RingFrame(m: seq<Word>, m': seq<Word>, l: seq<nat>)
    requires Ring(m, l) && |m'| == |m| && m'[1] == m[1] && m'[2] == m[2]
    requires forall k {:trigger l[k]} ::
      0 <= k < |l| ==> l[k] + 1 < |m| && m'[l[k]] == m[l[k]] && m'[l[k] + 1] == m[l[k] + 1]
    ensures Ring(m', l)
  {
    hide Ptr;
    forall k | 0 <= k <= |l| ensures Edge(m', l, k) {
      assert Edge(m, l, k);
    }
  }

  /** One step along SUCC. */
  lemma Walk(m: seq<Word>, l: seq<nat>, k: nat)
    requires Ring(m, l) && k <= |l|
    ensures NIL <= Stop(l, k) && Stop(l, k) + 1 < |m| && Ptr(m[Stop(l, k) + 1]) == Stop(l, k + 1) &&
      (Stop(l, k + 1) == NIL <==> k == |l|)
  {
    hide Ptr;
    assert Edge(m, l, k);
    Apart(m, l, k + 1, k + 1);
    StopIn(m, l, k);
  }
}
