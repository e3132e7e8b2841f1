/**
 The response cache of the web proxy: cache.c, and the P and V steps around it in proxy.c.

 The list runs from the most to the least recently used entry, between two dummy entries.
 An entry that read_cache has found is out of the list until push_cache puts it back.
 */
module Cache {

  datatype Verb = Get | Head

  datatype Key = Key(ip: nat, port: nat, verb: Verb, path: string)

  /** A cached response; reslen is its length. */
  datatype Item = Item(key: Key, response: string)

  const MAX_CACHE_SIZE: nat := 1049000
  const MAX_OBJECT_SIZE: nat := 102400

  function Total(s: seq<Item>): nat { if s == [] then 0 else |s[0].response| + Total(s[1..]) }

  lemma {:induction false} TotalAppend(a: seq<Item>, b: seq<Item>)
    ensures Total(a + b) == Total(a) + Total(b)
  {
    if a == [] {
      assert a + b == b;
    } else {
      assert (a + b)[0] == a[0] && (a + b)[1..] == a[1..] + b;
      TotalAppend(a[1..], b);
    }
  }

  function Without(s: seq<Item>, i: nat): seq<Item> requires i < |s| { s[..i] + s[i + 1..] }

  lemma TotalWithout(s: seq<Item>, i: nat)
    requires i < |s|
    ensures Total(s) == Total(Without(s, i)) + |s[i].response|
  {
    assert s == s[..i] + ([s[i]] + s[i + 1..]);
    TotalAppend(s[..i], [s[i]] + s[i + 1..]);
    TotalAppend(s[..i], s[i + 1..]);
  }

  lemma TotalLast(s: seq<Item>)
    requires s != []
    ensures Total(s) == Total(s[..|s| - 1]) + |s[|s| - 1].response|
  {
    TotalWithout(s, |s| - 1);
    assert Without(s, |s| - 1) == s[..|s| - 1];
  }

  // ------------------------------------------------------------- eviction

  /** How many entries write_cache removes from the old end of the list. */
  function Evicted(left: int, s: seq<Item>, length: nat): (n: nat)
    ensures n <= |s|
    decreases |s|
  {
    if s == [] || length < left then 0
    else 1 + Evicted(left + |s[|s| - 1].response|, s[..|s| - 1], length)
  }

  /** write_cache stores unless it has just removed the last entry. */
  predicate Stores(left: int, s: seq<Item>, length: nat) { s == [] || Evicted(left, s, length) < |s| }

  /** What is left of the budget when the last n entries are gone. */
  function Freed(left: int, s: seq<Item>, n: nat): int
    requires n <= |s|
  {
    left + Total(s[|s| - n..])
  }

  lemma FreedMore(left: int, s: seq<Item>, n: nat)
    requires n < |s|
    ensures Freed(left, s, n + 1) == Freed(left + |s[|s| - 1].response|, s[..|s| - 1], n)
  {
    var t := s[|s| - (n + 1)..];
    TotalLast(t);
    assert t[..|t| - 1] == s[..|s| - 1][|s| - 1 - n..];
  }

  /** The entries removed are the fewest that make room; when no proper part of the list is enough, all go. */
  lemma {:induction false} FewestEvicted(left: int, s: seq<Item>, length: nat, n: nat)
    requires n <= |s|
    ensures n == Evicted(left, s, length) <==>
      (forall k {:trigger Freed(left, s, k)} :: 0 <= k < n ==> length >= Freed(left, s, k)) &&
        (n == |s| || length < Freed(left, s, n))
    decreases |s|
  {
    assert s[|s|..] == [];
    assert Freed(left, s, 0) == left;
    if s != [] && length >= left {
      var left1, s1 := left + |s[|s| - 1].response|, s[..|s| - 1];
      forall k | 0 <= k < |s| ensures Freed(left, s, k + 1) == Freed(left1, s1, k) { FreedMore(left, s, k); }
      if n > 0 {
        FewestEvicted(left1, s1, length, n - 1);
        if forall k {:trigger Freed(left, s, k)} :: 0 <= k < n ==> length >= Freed(left, s, k) {
          forall k | 0 <= k < n - 1 ensures length >= Freed(left1, s1, k) { assert length >= Freed(left, s, k + 1); }
        }
        if forall k {:trigger Freed(left1, s1, k)} :: 0 <= k < n - 1 ==> length >= Freed(left1, s1, k) {
          forall k | 0 <= k < n ensures length >= Freed(left, s, k) {
            if k > 0 { assert Freed(left, s, (k - 1) + 1) == Freed(left1, s1, k - 1); }
          }
        }
      }
    }
  }

  /** The budget that is left, and the list. */
  datatype Store = Store(left: int, items: seq<Item>)

  /** What write_cache makes of it. */
  function AfterWrite(c: Store, x: Item): Store {
    var n := Evicted(c.left, c.items, |x.response|);
    var t := c.items[..|c.items| - n];
    if Stores(c.left, c.items, |x.response|) then Store(Freed(c.left, c.items, n) - |x.response|, [x] + t)
    else Store(Freed(c.left, c.items, n), t)
  }

  lemma WriteConserves(c: Store, x: Item)
    ensures var c' := AfterWrite(c, x); c'.left + Total(c'.items) == c.left + Total(c.items)
  {
    hide Total, Evicted;
    var s, n := c.items, Evicted(c.left, c.items, |x.response|);
    TotalSplit(s, n);
    TotalFirst(x, s[..|s| - n]);
  }

  lemma TotalSplit(s: seq<Item>, n: nat)
    requires n <= |s|
    ensures Total(s) == Total(s[..|s| - n]) + Total(s[|s| - n..])
  {
    hide Total;
    assert s == s[..|s| - n] + s[|s| - n..];
    TotalAppend(s[..|s| - n], s[|s| - n..]);
  }

  lemma TotalFirst(x: Item, t: seq<Item>)
    ensures Total([x] + t) == |x.response| + Total(t)
  {
    assert ([x] + t)[1..] == t;
  }

  /** The budget stays positive exactly when write_cache does not meet an empty list and too little room:
      it then stores all the same. */
  lemma BudgetKept(c: Store, x: Item)
    requires c.left > 0
    ensures AfterWrite(c, x).left > 0 <==> c.items != [] || |x.response| < c.left
  {
    var s, n := c.items, Evicted(c.left, c.items, |x.response|);
    FewestEvicted(c.left, s, |x.response|, n);
    assert s == [] ==> s[|s| - n..] == [];
  }

  /** With no entry in flight, that cannot happen. */
  lemma BudgetAlone(c: Store, x: Item)
    requires c.left + Total(c.items) == MAX_CACHE_SIZE && |x.response| < MAX_OBJECT_SIZE
    ensures AfterWrite(c, x).left > 0
  {
    var s, n := c.items, Evicted(c.left, c.items, |x.response|);
    FewestEvicted(c.left, s, |x.response|, n);
    assert n == |s| ==> s[|s| - n..] == s;
  }

  /** write_cache stores exactly when the list was empty, or there would be room with its newest entry still in it. */
  lemma StoredIff(c: Store, x: Item)
    ensures Stores(c.left, c.items, |x.response|) <==>
      c.items == [] || |x.response| < c.left + Total(c.items[1..])
    ensures AfterWrite(c, x).items != [] <==> Stores(c.left, c.items, |x.response|)
  {
    var s, length := c.items, |x.response|;
    var n := Evicted(c.left, s, length);
    FewestEvicted(c.left, s, length, n);
    if s != [] {
      assert Freed(c.left, s, |s| - 1) == c.left + Total(s[1..]);
      if n < |s| { TotalTail(s[1..], |s| - 1 - n); assert s[1..][|s| - 1 - n..] == s[|s| - n..]; }
    }
  }

  lemma TotalTail(s: seq<Item>, k: nat)
    requires k <= |s|
    ensures Total(s[k..]) <= Total(s)
  {
    assert s == s[..k] + s[k..];
    TotalAppend(s[..k], s[k..]);
  }

  /** Nothing in flight and only cacheable entries: every cacheable response is stored. */
  lemma StoredAlone(c: Store, x: Item)
    requires c.left + Total(c.items) == MAX_CACHE_SIZE && |x.response| < MAX_OBJECT_SIZE
    requires forall i :: 0 <= i < |c.items| ==> |c.items[i].response| < MAX_OBJECT_SIZE
    ensures Stores(c.left, c.items, |x.response|) && AfterWrite(c, x).left > 0
  {
    StoredIff(c, x);
    BudgetAlone(c, x);
  }

  /** The first entry with key `key`, or the length of the list. */
  function FirstWith(s: seq<Item>, key: Key): (i: nat)
    ensures i <= |s| && (i < |s| ==> s[i].key == key) && forall j :: 0 <= j < i ==> s[j].key != key
  {
    if s == [] || s[0].key == key then 0 else 1 + FirstWith(s[1..], key)
  }

  /** What read_cache makes of the store. */
  function AfterRead(c: Store, key: Key): Store {
    var i := FirstWith(c.items, key);
    if i < |c.items| then Store(c.left, Without(c.items, i)) else c
  }

  /** What push_cache makes of it. */
  function AfterPush(c: Store, x: Item): Store { Store(c.left, [x] + c.items) }

  // ------------------------------------------------------------- the linked list

  /** cache_t */
  class Entry {
    const item: Item
    var prev: Entry?
    var next: Entry?

    constructor (item: Item)
      ensures this.item == item && prev == null && next == null
    {
      this.item := item;
      prev, next := null, null;
    }
  }

  ghost function Items(es: seq<Entry>): (s: seq<Item>)
    ensures |s| == |es|
  {
    seq(|es|, i requires 0 <= i < |es| => es[i].item)
  }

  ghost predicate NoDup(es: seq<Entry>) { forall i, j :: 0 <= i < j < |es| ==> es[i] != es[j] }

  /** The entries in flight are no list entries. */
  ghost predicate Apart(fs: seq<Entry>, all: seq<Entry>) { NoDup(fs) && forall e :: e in fs ==> e !in all }

  lemma Differ(es: seq<Entry>, i: nat, j: nat)
    requires NoDup(es) && i < |es| && j < |es| && i != j
    ensures es[i] != es[j]
  {
  }

  /** The list and its dummies with entry number i gone. */
  lemma ShiftedLeft(h: Entry, es: seq<Entry>, t: Entry, i: nat)
    requires i < |es|
    ensures var (all, all') := ([h] + es + [t], [h] + (es[..i] + es[i + 1..]) + [t]);
      |all'| == |all| - 1 &&
        (forall k {:trigger all'[k]} :: 0 <= k < |all'| ==> all'[k] == all[if k <= i then k else k + 1]) &&
      (NoDup(all) ==> NoDup(all'))
  {
    var all, all' := [h] + es + [t], [h] + (es[..i] + es[i + 1..]) + [t];
    assert forall k {:trigger all'[k]} :: 0 <= k < |all'| ==> all'[k] == all[if k <= i then k else k + 1];
  }

  lemma TakenApart(fs: seq<Entry>, h: Entry, es: seq<Entry>, t: Entry, i: nat)
    requires Apart(fs, [h] + es + [t]) && NoDup([h] + es + [t]) && i < |es|
    ensures Apart(fs + [es[i]], [h] + (es[..i] + es[i + 1..]) + [t])
  {
    var all, all' := [h] + es + [t], [h] + (es[..i] + es[i + 1..]) + [t];
    assert all[i + 1] == es[i];
    forall k | 0 <= k < |all'| ensures all'[k] == all[if k <= i then k else k + 1] {}
    assert es[i] !in fs;
    forall e | e in all' ensures e in all && e != es[i] {}
  }

  lemma GivenApart(fs: seq<Entry>, h: Entry, es: seq<Entry>, t: Entry, k: nat)
    requires Apart(fs, [h] + es + [t]) && k < |fs|
    ensures Apart(fs[..k] + fs[k + 1..], [h] + ([fs[k]] + es) + [t]) && fs[k] !in [h] + es + [t]
  {
    var gs, all, all' := fs[..k] + fs[k + 1..], [h] + es + [t], [h] + ([fs[k]] + es) + [t];
    forall j | 0 <= j < |gs| ensures gs[j] == fs[if j < k then j else j + 1] {}
    forall e | e in all' ensures e == fs[k] || e in all {}
  }

  /** Evicting entries, and adding a new one. */
  lemma StillApart(fs: seq<Entry>, h: Entry, es: seq<Entry>, t: Entry, m: nat)
    requires Apart(fs, [h] + es + [t]) && m <= |es|
    ensures Apart(fs, [h] + es[..m] + [t])
  {
    var all, all' := [h] + es + [t], [h] + es[..m] + [t];
    forall e | e in all' ensures e in all {}
  }

  lemma NewApart(fs: seq<Entry>, h: Entry, es: seq<Entry>, t: Entry, e: Entry)
    requires Apart(fs, [h] + es + [t]) && e !in fs
    ensures Apart(fs, [h] + ([e] + es) + [t])
  {
    var all, all' := [h] + es + [t], [h] + ([e] + es) + [t];
    forall x | x in all' ensures x == e || x in all {}
  }

  lemma ItemsFirst(e: Entry, es: seq<Entry>)
    ensures Items([e] + es) == [e.item] + Items(es)
  {
  }

  lemma ItemsWithout(es: seq<Entry>, i: nat)
    requires i < |es|
    ensures Items(es[..i] + es[i + 1..]) == Without(Items(es), i)
  {
  }

  lemma FirstIs(s: seq<Item>, key: Key, i: nat)
    requires i <= |s| && (i < |s| ==> s[i].key == key) && forall j :: 0 <= j < i ==> s[j].key != key
    ensures i == FirstWith(s, key)
  {
    var k := FirstWith(s, key);
    if k < i { assert s[k].key == key; }
  }

  /** An entry goes from the list into flight. */
  lemma Moved(es: seq<Entry>, i: nat, fs: seq<Entry>)
    requires i < |es|
    ensures Total(Items(es[..i] + es[i + 1..])) + Total(Items(fs + [es[i]])) == Total(Items(es)) + Total(Items(fs))
  {
    hide Total;
    assert Items(es[..i] + es[i + 1..]) == Without(Items(es), i);
    TotalWithout(Items(es), i);
    assert Items(fs + [es[i]]) == Items(fs) + [es[i].item];
    TotalAppend(Items(fs), [es[i].item]);
    TotalOne(es[i].item);
  }

  /** And back to the front of the list. */
  lemma Returned(es: seq<Entry>, fs: seq<Entry>, k: nat)
    requires k < |fs|
    ensures Total(Items([fs[k]] + es)) + Total(Items(fs[..k] + fs[k + 1..])) == Total(Items(es)) + Total(Items(fs))
  {
    hide Total;
    assert Items(fs[..k] + fs[k + 1..]) == Without(Items(fs), k);
    TotalWithout(Items(fs), k);
    assert Items([fs[k]] + es) == [fs[k].item] + Items(es);
    TotalFirst(fs[k].item, Items(es));
  }

  lemma TotalOne(x: Item)
    ensures Total([x]) == |x.response|
  {
    assert [x][1..] == [];
  }

  lemma NoneEvicted(left: int, es: seq<Entry>)
    ensures Freed(left, Items(es), 0) == left
  {
    assert Items(es)[|es|..] == [];
  }

  /** One round of the eviction loop. */
  lemma EvictOne(left0: int, es: seq<Entry>, m: nat, left: int, length: nat)
    requires 0 < m <= |es| && left == Freed(left0, Items(es), |es| - m) && length >= left
    ensures var left' := left + |es[m - 1].item.response|;
      left' == Freed(left0, Items(es), |es| - m + 1) &&
      Evicted(left, Items(es[..m]), length) == 1 + Evicted(left', Items(es[..m - 1]), length)
  {
    var s := Items(es);
    assert Items(es[..m])[..m - 1] == Items(es[..m - 1]);
    assert s[m - 1..] == [es[m - 1].item] + s[m..];
    TotalFirst(es[m - 1].item, s[m..]);
  }

  /** The loop has removed the last entry: nothing is stored. */
  lemma Overflow(left0: int, es: seq<Entry>, m: nat, left: int, length: nat, x: Item)
    requires m == 0 && es != [] && left == Freed(left0, Items(es), |es| - m) && length == |x.response|
    requires Evicted(left0, Items(es), length) == |es| - m + Evicted(left, Items(es[..m]), length)
    ensures Store(left, Items(es[..m])) == AfterWrite(Store(left0, Items(es)), x)
    ensures Evicted(left0, Items(es), length) == |es| && !Stores(left0, Items(es), length)
  {
    assert Items(es)[..0] == Items(es[..0]);
  }

  /** The loop has ended with something left, or nothing was there. */
  lemma Enough(left0: int, es: seq<Entry>, m: nat, left: int, length: nat, x: Item)
    requires m <= |es| && (m == 0 ==> es == []) && left == Freed(left0, Items(es), |es| - m) &&
      length == |x.response| && (length < left || m == 0)
    requires Evicted(left0, Items(es), length) == |es| - m + Evicted(left, Items(es[..m]), length)
    ensures Store(left - length, [x] + Items(es[..m])) == AfterWrite(Store(left0, Items(es)), x)
    ensures Evicted(left0, Items(es), length) == |es| - m && Stores(left0, Items(es), length)
  {
    assert Items(es)[..m] == Items(es[..m]);
  }

  lemma StillValid(es: seq<Entry>, fs: seq<Entry>, left0: int, x: Item)
    requires left0 + Total(Items(es)) + Total(Items(fs)) == MAX_CACHE_SIZE
    ensures var c := AfterWrite(Store(left0, Items(es)), x);
      c.left + Total(c.items) + Total(Items(fs)) == MAX_CACHE_SIZE
  {
    WriteConserves(Store(left0, Items(es)), x);
  }

  class CacheList {
    const head: Entry
    const tail: Entry
    var left: int                 // *cache_left
    ghost var listed: seq<Entry>
    ghost var flight: seq<Entry>  // found by read_cache and not yet pushed back

    ghost function All(): seq<Entry>
      reads `listed
    {
      [head] + listed + [tail]
    }

    ghost predicate Linked()
      reads `listed, listed, head, tail
    {
      NoDup(All()) &&
        forall i {:trigger All()[i]} ::
        0 <= i <= |listed| ==> All()[i].next == All()[i + 1] && All()[i + 1].prev == All()[i]
    }

    /** Every byte of the budget is free, listed or in flight. */
    ghost predicate Valid()
      reads this, listed, head, tail
    {
      Linked() && Apart(flight, All()) &&
      left + Total(Items(listed)) + Total(Items(flight)) == MAX_CACHE_SIZE
    }

    /** The list as the thread model sees it. */
    ghost function View(): Store
      reads this, listed
    {
      Store(left, Items(listed))
    }

    /** The proxy's initial cache. */
    constructor ()
      ensures Valid() && listed == [] && flight == [] && left == MAX_CACHE_SIZE && fresh(head) && fresh(tail)
    {
      var none := Item(Key(0, 0, Get, ""), "");
      var h := new Entry(none);
      var t := new Entry(none);
      head, tail, left := h, t, MAX_CACHE_SIZE;
      listed, flight := [], [];
      new;
      head.next := tail;
      tail.prev := head;
      assert All() == [head, tail];
    }

    /** The links when only those around entry `i` have changed. */
    lemma Relinked(i: nat, all: seq<Entry>, all': seq<Entry>)
      requires NoDup(all) && i + 2 < |all| && |all'| == |all| - 1 &&
        forall k {:trigger all'[k]} :: 0 <= k < |all'| ==> all'[k] == all[if k <= i then k else k + 1]
      requires all[i].next == all[i + 2] && all[i + 2].prev == all[i]
      requires forall k {:trigger all[k]} :: 0 <= k < |all| - 1 ==>
        (all[k] != all[i] ==> all[k].next == all[k + 1]) && (all[k + 1] != all[i + 2] ==> all[k + 1].prev == all[k])
      ensures forall k {:trigger all'[k]} :: 0 <= k < |all'| - 1 ==>
        all'[k].next == all'[k + 1] && all'[k + 1].prev == all'[k]
    {
      hide NoDup;
      forall k | 0 <= k < |all'| - 1 ensures all'[k].next == all'[k + 1] && all'[k + 1].prev == all'[k] {
        if k != i {
          var n := if k < i then k else k + 1;
          assert all'[k] == all[n] && all'[k + 1] == all[n + 1];
          Differ(all, n, i); Differ(all, n + 1, i + 2);
        } else {
          assert all'[k] == all[i] && all'[k + 1] == all[i + 2];
        }
      }
    }

    /** pop_cache: the entry keeps its own links. */
    method Pop(curr: Entry, ghost i: nat)
      requires Linked() && i < |listed| && listed[i] == curr
      modifies this`listed, listed, head, tail
      ensures Linked() && listed == old(listed)[..i] + old(listed)[i + 1..]
      ensures curr.prev == old(NodeAt(i - 1))
    {
      hide NoDup, All;
      ghost var all, es := All(), listed;
      Everything();
      assert all[i + 1] == curr && (i > 0 ==> all[i] == es[i - 1]);
      assert all[i].next == all[i + 1] && all[i + 1].next == all[i + 2];
      Differ(all, i, i + 2);
      curr.prev.next := curr.next;
      curr.next.prev := curr.prev;
      listed := es[..i] + es[i + 1..];
      Everything();
      ShiftedLeft(head, es, tail, i);
      Relinked(i, all, All());
    }

    /** push_cache */
    method Push(curr: Entry)
      requires Linked() && curr !in All()
      modifies this`listed, listed, head, tail, curr
      ensures Linked() && listed == [curr] + old(listed)
    {
      ghost var all := All();
      assert all[0].next == all[1];
      curr.next := head.next;
      head.next.prev := curr;
      curr.prev := head;
      head.next := curr;
      listed := [curr] + listed;
      ghost var all' := All();
      forall k | 0 <= k < |all'| ensures all'[k] == if k == 0 then head else if k == 1 then curr else all[k - 1] {}
      forall k | 0 <= k <= |listed| ensures all'[k].next == all'[k + 1] && all'[k + 1].prev == all'[k] {
        if k >= 2 { assert all'[k] == all[k - 1] && all'[k + 1] == all[k]; }
      }
    }

    lemma Everything()
      ensures All() == [head] + listed + [tail]
    {
    }

    /** The k-th entry of the list; the dummies are around it. */
    ghost function NodeAt(k: int): Entry
      reads `listed
    {
      if k < 0 then head else if k < |listed| then listed[k] else tail
    }

    lemma Steps(k: nat)
      requires Linked() && k <= |listed|
      ensures k < |listed| ==> listed[k].next == NodeAt(k + 1) && listed[k].prev == NodeAt(k - 1)
      ensures head.next == NodeAt(0) && tail.prev == NodeAt(|listed| - 1)
      ensures (NodeAt(k) == tail <==> k == |listed|) && (NodeAt(k - 1) == head <==> k == 0)
    {
      var all := All();
      assert all[0].next == all[1] && all[|listed|].next == all[|listed| + 1];
      assert all[k].next == all[k + 1];
      if k < |listed| { assert all[k + 1] == listed[k] && all[k + 1].next == all[k + 2]; }
      if k > 0 { assert all[k] == listed[k - 1]; }
    }

    /** The entry found leaves the list. */
    method TakeOut(curr: Entry, ghost i: nat)
      requires Valid() && i < |listed| && listed[i] == curr
      modifies this`listed, this`flight, listed, head, tail
      ensures Valid() && left == old(left) && listed == old(listed)[..i] + old(listed)[i + 1..] &&
        flight == old(flight) + [curr]
    {
      hide Total, Apart;
      TakenApart(flight, head, listed, tail, i);
      Moved(listed, i, flight);
      Pop(curr, i);
      flight := flight + [curr];
    }

    /** read_cache, between P and V: the most recently used entry for the request leaves the list. */
    method ReadCache(ip: nat, port: nat, verb: Verb, path: string) returns (r: Entry?, ghost i: nat)
      requires Valid()
      modifies this`listed, this`flight, listed, head, tail
      ensures Valid() && left == old(left) && i == FirstWith(Items(old(listed)), Key(ip, port, verb, path))
      ensures View() == AfterRead(old(View()), Key(ip, port, verb, path))
      ensures r == null <==> i == |old(listed)|
      ensures r == null ==> listed == old(listed) && flight == old(flight)
      ensures r != null ==>
        i < |old(listed)| && r == old(listed)[i] && listed == old(listed)[..i] + old(listed)[i + 1..] &&
        flight == old(flight) + [r]
    {
      hide Total, Apart, FirstWith, Linked, All;
      ghost var key, es := Key(ip, port, verb, path), listed;
      Steps(0);
      var curr := head.next;
      i := 0;
      while curr != tail
        invariant listed == es && flight == old(flight) && Valid() && left == old(left)
        invariant i <= |es| && curr == NodeAt(i) && forall j :: 0 <= j < i ==> es[j].item.key != key
        decreases |es| - i
      {
        Steps(i);
        if curr.item.key.ip == ip && curr.item.key.port == port && curr.item.key.verb == verb &&
          curr.item.key.path == path {
          FirstIs(Items(es), key, i);
          TakeOut(curr, i);
          ItemsWithout(es, i);
          return curr, i;
        }
        curr := curr.next;
        i := i + 1;
      }
      Steps(i);
      FirstIs(Items(es), key, i);
      r := null;
    }

    /** push_cache, between P and V: an entry in flight becomes the most recently used. */
    method PushCache(meta: Entry, ghost k: nat)
      requires Valid() && k < |flight| && flight[k] == meta
      modifies this`listed, this`flight, listed, head, tail, meta
      ensures Valid() && left == old(left) && listed == [meta] + old(listed) &&
        flight == old(flight)[..k] + old(flight)[k + 1..]
      ensures View() == AfterPush(old(View()), meta.item)
    {
      hide Total, Apart;
      ghost var es, fs := listed, flight;
      GivenApart(fs, head, es, tail, k);
      Push(meta);
      flight := fs[..k] + fs[k + 1..];
      Returned(es, fs, k);
      ItemsFirst(meta, es);
    }

    /** write_cache, between P and V. */
    method WriteCache(key: Key, data: string, length: nat)
      requires Valid() && length <= |data|
      modifies this`left, this`listed, listed, head, tail
      ensures Valid() && flight == old(flight)
      ensures View() == AfterWrite(old(View()), Item(key, data[..length]))
      ensures var n := Evicted(old(left), Items(old(listed)), length);
        var kept := old(listed)[..|old(listed)| - n];
        if Stores(old(left), Items(old(listed)), length) then |listed| > 0 && listed[1..] == kept && fresh(listed[0])
          else listed == kept
    {
      hide Total, Evicted, Freed, Items, Linked, All, Stores, Apart, AfterWrite;
      ghost var es, left0, x := listed, left, Item(key, data[..length]);
      ghost var m: nat := |listed|;
      Steps(m);
      Everything();
      assert es[..m] == es;
      NoneEvicted(left0, es);
      var lru := tail.prev;
      while length >= left && lru != head
        invariant Linked() && m <= |es| && listed == es[..m] && flight == old(flight) && lru == NodeAt(m - 1) &&
          (lru == head <==> m == 0) && (m == 0 ==> es == [])
        invariant left == Freed(left0, Items(es), |es| - m)
        invariant Evicted(left0, Items(es), length) == |es| - m + Evicted(left, Items(listed), length)
        decreases m
      {
        Steps(m - 1);
        EvictOne(left0, es, m, left, length);
        Pop(lru, m - 1);
        assert listed == es[..m - 1];
        left := left + |lru.item.response|;
        lru := lru.prev;
        m := m - 1;
        Steps(m);
        if lru == head {
          Overflow(left0, es, m, left, length, x);
          StillValid(es, flight, left0, x);
          StillApart(flight, head, es, tail, m);
          Everything();
          return;
        }
      }
      Steps(m);
      Enough(left0, es, m, left, length, x);
      StillValid(es, flight, left0, x);
      StillApart(flight, head, es, tail, m);
      var meta := new Entry(Item(key, data[..length]));
      left := left - length;
      Everything();
      assert meta !in es[..m];
      Push(meta);
      Everything();
      ItemsFirst(meta, es[..m]);
      NewApart(flight, head, es[..m], tail, meta);
    }
  }

  // ------------------------------------------------------------- threads

  /** Where a connection thread of the proxy is: what it was asked for, and later what it has sent.  In the states
      Reading,
      Found and NotFound, Pushing and Pushed, Writing and Written it is between P and V. */
  datatype Pc =
    | Start(key: Key)
    | Reading(key: Key)
    | Found(key: Key, item: Item)
    | NotFound(key: Key)
    | Hit(key: Key, item: Item)
    | Pushing(key: Key, item: Item)
    | Pushed(key: Key, sent: string)
    | Miss(key: Key)
    | Writing(key: Key, item: Item)
    | Written(key: Key, sent: string)
    | Done(key: Key, sent: string)

  /** The semaphore, the cache and the threads. */
  datatype State = State(sem: nat, cache: Store, threads: seq<Pc>)

  function Bit(b: bool): nat { if b then 1 else 0 }

  function Inside(pc: Pc): bool {
    pc.Reading? || pc.Found? || pc.NotFound? || pc.Pushing? || pc.Pushed? || pc.Writing? || pc.Written?
  }

  /** Bytes of the entry that a thread has taken out of the list. */
  function Carries(pc: Pc): nat { if pc.Found? || pc.Hit? || pc.Pushing? then |pc.item.response| else 0 }

  function Critical(ts: seq<Pc>): nat { if ts == [] then 0 else Bit(Inside(ts[0])) + Critical(ts[1..]) }

  function Carried(ts: seq<Pc>): nat { if ts == [] then 0 else Carries(ts[0]) + Carried(ts[1..]) }

  /** What one step of thread `t` does: `fetched` is the response a miss gets, too big ones are not cached. */
  function Step(s: State, t: nat, fetched: string): State
    requires t < |s.threads|
  {
    var pc := s.threads[t];
    match pc
    case Start(key) => if s.sem > 0 then At(s, t, s.sem - 1, s.cache, Reading(key)) else s
    case Reading(key) =>
      var i := FirstWith(s.cache.items, key);
      if i < |s.cache.items|
        then At(s, t, s.sem, Store(s.cache.left, Without(s.cache.items, i)), Found(key, s.cache.items[i]))
      else At(s, t, s.sem, s.cache, NotFound(key))
    case Found(key, x) => At(s, t, s.sem + 1, s.cache, Hit(key, x))
    case NotFound(key) => At(s, t, s.sem + 1, s.cache, Miss(key))
    case Hit(key, x) => if s.sem > 0 then At(s, t, s.sem - 1, s.cache, Pushing(key, x)) else s
    case Pushing(key, x) => At(s, t, s.sem, Store(s.cache.left, [x] + s.cache.items), Pushed(key, x.response))
    case Pushed(key, sent) => At(s, t, s.sem + 1, s.cache, Done(key, sent))
    case Miss(key) =>
      if |fetched| >= MAX_OBJECT_SIZE then At(s, t, s.sem, s.cache, Done(key, fetched))
      else if s.sem > 0 then At(s, t, s.sem - 1, s.cache, Writing(key, Item(key, fetched)))
      else s
    case Writing(key, x) => At(s, t, s.sem, AfterWrite(s.cache, x), Written(key, x.response))
    case Written(key, sent) => At(s, t, s.sem + 1, s.cache, Done(key, sent))
    case Done(_, _) => s
  }

  function At(s: State, t: nat, sem: nat, cache: Store, pc: Pc): State
    requires t < |s.threads|
  {
    State(sem, cache, s.threads[t := pc])
  }

  // ------------------------------------------------------------- what a step does

  function StoreAfter(c: Store, pc: Pc): Store {
    if pc.Reading? then AfterRead(c, pc.key)
    else if pc.Pushing? then AfterPush(c, pc.item)
    else if pc.Writing? then AfterWrite(c, pc.item)
    else c
  }

  /** The store changes in three kinds of step only, as read_cache, push_cache and write_cache change it. */
  lemma StoreSteps(s: State, t: nat, fetched: string)
    requires t < |s.threads|
    ensures Step(s, t, fetched).cache == StoreAfter(s.cache, s.threads[t])
    ensures forall u :: 0 <= u < |s.threads| && u != t ==> Step(s, t, fetched).threads[u] == s.threads[u]
  {
    hide AfterWrite;
  }

  /** Entry `i` is the first with the key. */
  ghost predicate Newest(items: seq<Item>, key: Key, i: nat) {
    i < |items| && items[i].key == key && forall j :: 0 <= j < i ==> items[j].key != key
  }

  /** Entry `i` has left the list, and thread `t` carries it. */
  ghost predicate FoundAt(s: State, t: nat, key: Key, i: nat, s': State) {
    i < |s.cache.items| && t < |s'.threads| && s'.threads[t] == Found(key, s.cache.items[i]) &&
      s'.cache == Store(s.cache.left, s.cache.items[..i] + s.cache.items[i + 1..])
  }

  /** A lookup takes out the most recently used entry with the key asked for, and misses only if no entry has it. */
  lemma LookupStep(s: State, t: nat, fetched: string)
    requires t < |s.threads| && s.threads[t].Reading?
    ensures var (key, items, s') := (s.threads[t].key, s.cache.items, Step(s, t, fetched));
      if forall x :: x in items ==> x.key != key then s' == s.(threads := s.threads[t := NotFound(key)])
      else exists i: nat :: Newest(items, key, i) && FoundAt(s, t, key, i, s')
  {
    var key, items := s.threads[t].key, s.cache.items;
    var i := FirstWith(items, key);
    if i < |items| {
      assert items[i] in items && Newest(items, key, i);
    } else {
      forall x | x in items ensures x.key != key { var j :| 0 <= j < |items| && items[j] == x; }
    }
  }

  /** An entry that has been sent becomes the most recently used. */
  lemma PushStep(s: State, t: nat, fetched: string)
    requires t < |s.threads| && s.threads[t].Pushing?
    ensures var c := Step(s, t, fetched).cache;
      c.items != [] && c.items[0] == s.threads[t].item && c.items[1..] == s.cache.items && c.left == s.cache.left
  {
  }

  /** One thread at most is between P and V, and every byte of the budget is free, listed or carried by a thread. */
  ghost predicate Safe(s: State) {
    s.sem + Critical(s.threads) == 1 && s.cache.left + Total(s.cache.items) + Carried(s.threads) == MAX_CACHE_SIZE
  }

  lemma {:induction false} Advance(ts: seq<Pc>, t: nat, pc: Pc)
    requires t < |ts|
    ensures Critical(ts[t := pc]) + Bit(Inside(ts[t])) == Critical(ts) + Bit(Inside(pc))
    ensures Carried(ts[t := pc]) + Carries(ts[t]) == Carried(ts) + Carries(pc)
  {
    if t == 0 {
      assert ts[t := pc][1..] == ts[1..];
    } else {
      assert ts[t := pc][1..] == ts[1..][t - 1 := pc] && ts[t := pc][0] == ts[0];
      Advance(ts[1..], t - 1, pc);
    }
  }

  /** Every step of every thread keeps the state safe. */
  lemma StepSafe(s: State, t: nat, fetched: string)
    requires Safe(s) && t < |s.threads|
    ensures Safe(Step(s, t, fetched))
  {
    hide Critical, Carried, Total, AfterWrite, FirstWith;
    var s', pc := Step(s, t, fetched), s.threads[t];
    Advance(s.threads, t, s'.threads[t]);
    if s' == s {
      assert s.threads[t := pc] == s.threads;
    } else if pc.Reading? {
      var i := FirstWith(s.cache.items, pc.key);
      if i < |s.cache.items| { TotalWithout(s.cache.items, i); }
    } else if pc.Pushing? {
      TotalFirst(pc.item, s.cache.items);
    } else if pc.Writing? {
      WriteConserves(s.cache, pc.item);
    }
  }

  /** The state after the threads have taken the steps in `schedule`, in any interleaving. */
  function Run(s: State, schedule: seq<(nat, string)>): State
    decreases |schedule|
  {
    if schedule == [] then s
    else
      var (t, fetched) := schedule[0];
      Run(if t < |s.threads| then Step(s, t, fetched) else s, schedule[1..])
  }

  predicate Initial(s: State) {
    s.sem == 1 && s.cache == Store(MAX_CACHE_SIZE, []) && forall pc :: pc in s.threads ==> pc.Start?
  }

  /** In every reachable state, under every interleaving, mutual exclusion and conservation hold. */
  lemma {:induction false} AlwaysSafe(s: State, schedule: seq<(nat, string)>)
    requires Safe(s)
    ensures Safe(Run(s, schedule))
    decreases |schedule|
  {
    if schedule != [] {
      var (t, fetched) := schedule[0];
      if t < |s.threads| { StepSafe(s, t, fetched); }
      AlwaysSafe(if t < |s.threads| then Step(s, t, fetched) else s, schedule[1..]);
    }
  }

  predicate Cacheable(x: Item) { |x.response| < MAX_OBJECT_SIZE }

  /** Only cacheable entries are listed, taken out or about to be written. */
  ghost predicate AllCacheable(s: State) {
    (forall x :: x in s.cache.items ==> Cacheable(x)) &&
      forall pc :: pc in s.threads && (pc.Found? || pc.Hit? || pc.Pushing? || pc.Writing?) ==> Cacheable(pc.item)
  }

  lemma StepCacheable(s: State, t: nat, fetched: string)
    requires AllCacheable(s) && t < |s.threads|
    ensures AllCacheable(Step(s, t, fetched))
  {
    hide Cacheable, Evicted, Freed, FirstWith;
    var s', pc := Step(s, t, fetched), s.threads[t];
    forall x | x in s'.cache.items ensures Cacheable(x) {
      assert x in s.cache.items || (x == pc.item && pc in s.threads);
    }
    forall p | p in s'.threads && (p.Found? || p.Hit? || p.Pushing? || p.Writing?) ensures Cacheable(p.item) {
      if p !in s.threads {
        assert p == s'.threads[t];
        if pc.Miss? { NotTooBig(p.item); } else { assert pc.Reading? || pc in s.threads; }
      }
    }
  }

  lemma NotTooBig(x: Item)
    requires |x.response| < MAX_OBJECT_SIZE
    ensures Cacheable(x)
  {
  }

  lemma {:induction false} AlwaysCacheable(s: State, schedule: seq<(nat, string)>)
    requires AllCacheable(s)
    ensures AllCacheable(Run(s, schedule))
    decreases |schedule|
  {
    hide AllCacheable, Step;
    if schedule != [] {
      var (t, fetched) := schedule[0];
      if t < |s.threads| { StepCacheable(s, t, fetched); }
      AlwaysCacheable(if t < |s.threads| then Step(s, t, fetched) else s, schedule[1..]);
    }
  }

  lemma {:induction false} NobodyInside(ts: seq<Pc>)
    requires forall pc :: pc in ts ==> pc.Start?
    ensures Critical(ts) == 0 && Carried(ts) == 0
  {
    if ts != [] {
      assert ts[0] in ts;
      NobodyInside(ts[1..]);
    }
  }

  lemma Reachable(s: State, schedule: seq<(nat, string)>)
    requires Initial(s)
    ensures Safe(Run(s, schedule)) && AllCacheable(Run(s, schedule))
  {
    NobodyInside(s.threads);
    AlwaysSafe(s, schedule);
    AlwaysCacheable(s, schedule);
  }

  // ------------------------------------------------------------- progress

  /** How many steps a thread has left at most. */
  function StepsLeft(pc: Pc): nat {
    match pc
    case Start(_) => 6
    case Reading(_) => 5
    case Found(_, _) => 4
    case NotFound(_) => 4
    case Hit(_, _) => 3
    case Miss(_) => 3
    case Pushing(_, _) => 2
    case Writing(_, _) => 2
    case Pushed(_, _) => 1
    case Written(_, _) => 1
    case Done(_, _) => 0
  }

  function AllLeft(ts: seq<Pc>): (n: nat)
    ensures n <= 6 * |ts|
  {
    if ts == [] then 0 else StepsLeft(ts[0]) + AllLeft(ts[1..])
  }

  lemma {:induction false} LeftAfter(ts: seq<Pc>, t: nat, pc: Pc)
    requires t < |ts|
    ensures AllLeft(ts[t := pc]) + StepsLeft(ts[t]) == AllLeft(ts) + StepsLeft(pc)
  {
    if t == 0 {
      assert ts[t := pc][1..] == ts[1..];
    } else {
      assert ts[t := pc][1..] == ts[1..][t - 1 := pc] && ts[t := pc][0] == ts[0];
      LeftAfter(ts[1..], t - 1, pc);
    }
  }

  /** A step brings its thread nearer to the end, unless the thread is done or waits in P. */
  lemma StepCloser(s: State, t: nat, fetched: string)
    requires t < |s.threads| && !s.threads[t].Done? && (s.sem > 0 || Inside(s.threads[t]))
    ensures AllLeft(Step(s, t, fetched).threads) < AllLeft(s.threads)
  {
    hide AfterWrite, FirstWith;
    LeftAfter(s.threads, t, Step(s, t, fetched).threads[t]);
  }

  lemma {:induction false} SomebodyInside(ts: seq<Pc>) returns (t: nat)
    requires Critical(ts) > 0
    ensures t < |ts| && Inside(ts[t])
  {
    if Inside(ts[0]) {
      t := 0;
    } else {
      t := SomebodyInside(ts[1..]);
      t := t + 1;
    }
  }

  /** No deadlock: while a connection is not served, some thread can take a step, whatever the server answers. */
  lemma NoDeadlock(s: State, u: nat) returns (t: nat)
    requires Safe(s) && u < |s.threads| && !s.threads[u].Done?
    ensures t < |s.threads| && forall r :: AllLeft(Step(s, t, r).threads) < AllLeft(s.threads)
  {
    hide Step, Critical;
    t := u;
    if s.sem == 0 { t := SomebodyInside(s.threads); }
    forall r ensures AllLeft(Step(s, t, r).threads) < AllLeft(s.threads) { StepCloser(s, t, r); }
  }

  /** From every reachable state on, all connections can still be served, in at most six steps each. */
  lemma {:induction false} AllServed(s: State, fetched: string) returns (more: seq<(nat, string)>)
    requires Safe(s)
    ensures |more| <= AllLeft(s.threads) <= 6 * |s.threads| && |Run(s, more).threads| == |s.threads|
    ensures forall pc :: pc in Run(s, more).threads ==> pc.Done?
    decreases AllLeft(s.threads)
  {
    hide Step, Safe;
    if forall pc :: pc in s.threads ==> pc.Done? {
      more := [];
    } else {
      var u :| 0 <= u < |s.threads| && !s.threads[u].Done?;
      var t := NoDeadlock(s, u);
      StepSafe(s, t, fetched);
      StepThreads(s, t, fetched);
      var rest := AllServed(Step(s, t, fetched), fetched);
      more := [(t, fetched)] + rest;
      assert more[1..] == rest;
    }
  }

  /** Under every interleaving: a response written while no thread carries an entry is stored within the budget. */
  lemma StoredWhenNoneCarried(s: State, schedule: seq<(nat, string)>, t: nat)
    requires Initial(s) && t < |Run(s, schedule).threads|
    requires Carried(Run(s, schedule).threads) == 0 && Run(s, schedule).threads[t].Writing?
    ensures var s0 := Run(s, schedule);
      var c := Step(s0, t, "").cache; c.items != [] && c.items[0] == s0.threads[t].item && c.left > 0
  {
    hide Run, Carried, Evicted, Freed, Total;
    Reachable(s, schedule);
    var s0 := Run(s, schedule);
    var x := s0.threads[t].item;
    assert s0.threads[t] in s0.threads;
    forall i | 0 <= i < |s0.cache.items| ensures |s0.cache.items[i].response| < MAX_OBJECT_SIZE {
      assert Cacheable(s0.cache.items[i]);
    }
    StoredAlone(s0.cache, x);
  }

  // ------------------------------------------------------------- who is sent what

  lemma {:induction false} RunThreads(s: State, schedule: seq<(nat, string)>)
    ensures |Run(s, schedule).threads| == |s.threads|
    decreases |schedule|
  {
    hide Step;
    if schedule != [] {
      var (t, fetched) := schedule[0];
      if t < |s.threads| { StepThreads(s, t, fetched); }
      RunThreads(if t < |s.threads| then Step(s, t, fetched) else s, schedule[1..]);
    }
  }

  /** The n-th step of the schedule is one of a thread that has missed on `key`, and gets `response` for it. */
  ghost predicate FetchedAt(s: State, schedule: seq<(nat, string)>, n: nat, key: Key, response: string) {
    n < |schedule| && schedule[n].1 == response && schedule[n].0 < |Run(s, schedule[..n]).threads| &&
      Run(s, schedule[..n]).threads[schedule[n].0] == Miss(key)
  }

  ghost predicate Fetched(s: State, schedule: seq<(nat, string)>, key: Key, response: string) {
    exists n: nat :: FetchedAt(s, schedule, n, key, response)
  }

  /** The response a thread carries, is about to store or has sent. */
  predicate Holds(pc: Pc, response: string) {
    if pc.Found? || pc.Hit? || pc.Pushing? || pc.Writing? then pc.item.response == response
    else (pc.Pushed? || pc.Written? || pc.Done?) && pc.sent == response
  }

  ghost predicate OwnEntry(pc: Pc) {
    pc.Found? || pc.Hit? || pc.Pushing? || pc.Writing? ==> pc.item.key == pc.key
  }

  /** A thread that has started keeps the key it was asked for, carries only entries with that key, and what it holds
      was fetched for that key; so was every listed response for its own. */
  ghost predicate Honest(s: State, schedule: seq<(nat, string)>) {
    var s' := Run(s, schedule);
    |s'.threads| == |s.threads| &&
    (forall t :: 0 <= t < |s.threads| ==> s'.threads[t].key == s.threads[t].key && OwnEntry(s'.threads[t])) &&
    (forall t, r :: 0 <= t < |s.threads| && Holds(s'.threads[t], r) ==> Fetched(s, schedule, s.threads[t].key, r)) &&
    forall x :: x in s'.cache.items ==> Fetched(s, schedule, x.key, x.response)
  }

  lemma FetchedBefore(s: State, schedule: seq<(nat, string)>, e: (nat, string), key: Key, response: string)
    requires Fetched(s, schedule, key, response)
    ensures Fetched(s, schedule + [e], key, response)
  {
    hide Run;
    var n: nat :| FetchedAt(s, schedule, n, key, response);
    assert (schedule + [e])[..n] == schedule[..n];
    assert FetchedAt(s, schedule + [e], n, key, response);
  }

  lemma FetchedNow(s: State, schedule: seq<(nat, string)>, e: (nat, string), key: Key)
    requires e.0 < |Run(s, schedule).threads| && Run(s, schedule).threads[e.0] == Miss(key)
    ensures Fetched(s, schedule + [e], key, e.1)
  {
    hide Run;
    assert (schedule + [e])[..|schedule|] == schedule;
    assert FetchedAt(s, schedule + [e], |schedule|, key, e.1);
  }

  lemma RunSnoc(s: State, schedule: seq<(nat, string)>, e: (nat, string))
    ensures var s0 := Run(s, schedule);
      Run(s, schedule + [e]) == if e.0 < |s0.threads| then Step(s0, e.0, e.1) else s0
  {
    hide Step;
    RunAppend(s, schedule, [e]);
    assert [e][1..] == [];
    var s0 := Run(s, schedule);
    assert Run(s0, [e]) == Run(if e.0 < |s0.threads| then Step(s0, e.0, e.1) else s0, []);
  }

  /** Entries after a step are listed before, or held by the thread that steps. */
  lemma ItemsAfter(s: State, t: nat, fetched: string, x: Item)
    requires t < |s.threads| && x in Step(s, t, fetched).cache.items
    ensures x in s.cache.items || ((s.threads[t].Pushing? || s.threads[t].Writing?) && x == s.threads[t].item)
  {
    hide Evicted, Freed, FirstWith;
  }

  /** What a thread holds after a step, it held before, found in the list, or has just fetched. */
  lemma HoldsAfter(s: State, t: nat, fetched: string, r: string)
    requires t < |s.threads| && OwnEntry(s.threads[t]) && Holds(Step(s, t, fetched).threads[t], r)
    ensures Step(s, t, fetched).threads[t].key == s.threads[t].key
    ensures Holds(s.threads[t], r) || (s.threads[t] == Miss(s.threads[t].key) && r == fetched) ||
      exists x :: x in s.cache.items && x.key == s.threads[t].key && x.response == r
  {
    hide AfterWrite;
    if s.threads[t].Reading? {
      var i := FirstWith(s.cache.items, s.threads[t].key);
      assert i < |s.cache.items| ==> s.cache.items[i] in s.cache.items;
    }
  }

  lemma OwnAfter(s: State, t: nat, fetched: string)
    requires t < |s.threads| && OwnEntry(s.threads[t])
    ensures Step(s, t, fetched).threads[t].key == s.threads[t].key && OwnEntry(Step(s, t, fetched).threads[t])
  {
    hide AfterWrite;
  }

  lemma HonestStep(s: State, schedule: seq<(nat, string)>, e: (nat, string))
    requires Honest(s, schedule)
    ensures Honest(s, schedule + [e])
  {
    hide Run, Step, Holds, OwnEntry, Fetched;
    var s0 := Run(s, schedule);
    RunSnoc(s, schedule, e);
    var s1, next := Run(s, schedule + [e]), schedule + [e];
    var (t, fetched) := e;
    if t < |s0.threads| {
      StepThreads(s0, t, fetched);
      StoreSteps(s0, t, fetched);
      OwnAfter(s0, t, fetched);
    }
    forall u, r | 0 <= u < |s.threads| && Holds(s1.threads[u], r) ensures Fetched(s, next, s.threads[u].key, r) {
      if u != t {
        FetchedBefore(s, schedule, e, s.threads[u].key, r);
      } else {
        HoldsAfter(s0, t, fetched, r);
        if Holds(s0.threads[t], r) {
          FetchedBefore(s, schedule, e, s.threads[u].key, r);
        } else if s0.threads[t] == Miss(s0.threads[t].key) && r == fetched {
          FetchedNow(s, schedule, e, s.threads[u].key);
        } else {
          var x :| x in s0.cache.items && x.key == s0.threads[t].key && x.response == r;
          FetchedBefore(s, schedule, e, s.threads[u].key, r);
        }
      }
    }
    forall x | x in s1.cache.items ensures Fetched(s, next, x.key, x.response) {
      if x in s0.cache.items {
        FetchedBefore(s, schedule, e, x.key, x.response);
      } else {
        ItemsAfter(s0, t, fetched, x);
        HeldEntry(s0.threads[t], x);
        FetchedBefore(s, schedule, e, x.key, x.response);
      }
    }
  }

  lemma HeldEntry(pc: Pc, x: Item)
    requires (pc.Pushing? || pc.Writing?) && pc.item == x && OwnEntry(pc)
    ensures x.key == pc.key && Holds(pc, x.response)
  {
  }

  /** Under every interleaving: whatever is listed, carried or sent under a key was fetched by a miss on that key. */
  lemma {:induction false} AlwaysHonest(s: State, schedule: seq<(nat, string)>)
    requires Initial(s)
    ensures Honest(s, schedule)
    decreases |schedule|
  {
    hide Honest;
    if schedule == [] {
      HonestStart(s);
    } else {
      var n := |schedule| - 1;
      AlwaysHonest(s, schedule[..n]);
      HonestStep(s, schedule[..n], schedule[n]);
      assert schedule[..n] + [schedule[n]] == schedule;
    }
  }

  lemma HonestStart(s: State)
    requires Initial(s)
    ensures Honest(s, [])
  {
    assert forall t :: 0 <= t < |s.threads| ==> s.threads[t] in s.threads && s.threads[t].Start?;
  }

  /** A connection that is served has been sent a response that the server gave for what it asked. */
  lemma Answered(s: State, schedule: seq<(nat, string)>, t: nat) returns (n: nat)
    requires Initial(s) && t < |s.threads| == |Run(s, schedule).threads| && Run(s, schedule).threads[t].Done?
    ensures FetchedAt(s, schedule, n, s.threads[t].key, Run(s, schedule).threads[t].sent)
  {
    hide Run, FetchedAt, OwnEntry;
    AlwaysHonest(s, schedule);
    var pc := Run(s, schedule).threads[t];
    assert Holds(pc, pc.sent);
    n :| FetchedAt(s, schedule, n, s.threads[t].key, pc.sent);
  }

  predicate Missed(pc: Pc) { pc.NotFound? || pc.Miss? }

  /** A thread has missed only if no entry of the list had its key when it looked. */
  lemma {:induction false} MissSaw(s: State, schedule: seq<(nat, string)>, t: nat) returns (n: nat)
    requires Initial(s) && t < |s.threads| == |Run(s, schedule).threads| && Missed(Run(s, schedule).threads[t])
    ensures n < |schedule| && schedule[n].0 == t && |Run(s, schedule[..n]).threads| == |s.threads|
    ensures var seen := Run(s, schedule[..n]);
      seen.threads[t] == Reading(s.threads[t].key) && forall x :: x in seen.cache.items ==> x.key != s.threads[t].key
    decreases |schedule|
  {
    hide Run, Step, Missed;
    AtStart(s, t);
    var k := |schedule| - 1;
    var before, e := schedule[..k], schedule[k];
    assert before + [e] == schedule;
    RunSnoc(s, before, e);
    RunThreads(s, before);
    AlwaysHonest(s, before);
    var s0 := Run(s, before);
    if Missed(s0.threads[t]) {
      n := MissSaw(s, before, t);
      assert schedule[..n] == before[..n];
    } else {
      n := k;
      StoreOther(s0, e, t);
      MissFrom(s0, t, e.1);
      LookupStep(s0, t, e.1);
    }
  }

  lemma AtStart(s: State, t: nat)
    requires Initial(s) && t < |s.threads|
    ensures Run(s, []) == s && !Missed(s.threads[t])
  {
    assert s.threads[t] in s.threads;
  }

  lemma StoreOther(s: State, e: (nat, string), t: nat)
    requires t < |s.threads| && (e.0 < |s.threads| ==> t < |Step(s, e.0, e.1).threads|)
    ensures e.0 < |s.threads| && e.0 != t ==> Step(s, e.0, e.1).threads[t] == s.threads[t]
  {
  }

  lemma MissFrom(s: State, t: nat, fetched: string)
    requires t < |s.threads| && !Missed(s.threads[t]) && t < |Step(s, t, fetched).threads| &&
      Missed(Step(s, t, fetched).threads[t])
    ensures s.threads[t] == Reading(s.threads[t].key) && Step(s, t, fetched).threads[t].NotFound?
  {
    hide AfterWrite;
  }

  // ------------------------------------------------------------- the budget is not a bound

  const PAGE: nat := MAX_OBJECT_SIZE - 1

  const HOME: Key := Key(0, 80, Get, "/")

  function Page(): (x: string)
    ensures |x| == PAGE
  {
    seq(PAGE, i => 'x')
  }

  lemma {:induction false} RunAppend(s: State, a: seq<(nat, string)>, b: seq<(nat, string)>)
    ensures Run(s, a + b) == Run(Run(s, a), b)
    decreases |a|
  {
    if a == [] {
      assert a + b == b;
    } else {
      var (t, fetched) := a[0];
      assert (a + b)[0] == a[0] && (a + b)[1..] == a[1..] + b;
      RunAppend(if t < |s.threads| then Step(s, t, fetched) else s, a[1..], b);
    }
  }

  /** Three steps of one thread. */
  function Thrice(t: nat, fetched: string): seq<(nat, string)> { [(t, fetched), (t, ""), (t, "")] }

  lemma RunThrice(s: State, t: nat, x: string)
    requires t < |s.threads|
    ensures |Step(s, t, x).threads| == |s.threads| && |Step(Step(s, t, x), t, "").threads| == |s.threads|
    ensures Run(s, Thrice(t, x)) == Step(Step(Step(s, t, x), t, ""), t, "")
  {
    hide Step;
    StepThreads(s, t, x);
    var s1 := Step(s, t, x);
    StepThreads(s1, t, "");
    assert Thrice(t, x)[1..] == [(t, ""), (t, "")] && [(t, ""), (t, "")][1..] == [(t, "")] && [(t, "")][1..] == [];
    var s2 := Step(s1, t, "");
    assert Run(s2, [(t, "")]) == Run(Step(s2, t, ""), []);
    assert Run(s1, [(t, ""), (t, "")]) == Run(s2, [(t, "")]);
  }

  lemma StepThreads(s: State, t: nat, x: string)
    requires t < |s.threads|
    ensures |Step(s, t, x).threads| == |s.threads|
  {
  }

  /** A lookup in an empty cache misses. */
  lemma MissOne(s: State, t: nat)
    requires t < |s.threads| && s.sem == 1 && s.cache.items == [] && s.threads[t] == Start(HOME)
    ensures Run(s, Thrice(t, "")) == State(1, s.cache, s.threads[t := Miss(HOME)])
  {
    RunThrice(s, t, "");
    var ts := s.threads;
    assert ts[t := Reading(HOME)][t := NotFound(HOME)][t := Miss(HOME)] == ts[t := Miss(HOME)];
  }

  lemma WriteOne(s: State, t: nat, x: string)
    requires t < |s.threads| && s.sem == 1 && s.threads[t] == Miss(HOME) && |x| < MAX_OBJECT_SIZE
    ensures Run(s, Thrice(t, x)) == State(1, AfterWrite(s.cache, Item(HOME, x)), s.threads[t := Done(HOME, x)])
  {
    hide AfterWrite;
    RunThrice(s, t, x);
    var ts := s.threads;
    var d := Done(HOME, x);
    assert ts[t := Writing(HOME, Item(HOME, x))][t := Written(HOME, x)][t := d] == ts[t := d];
  }

  lemma ReadOne(s: State, t: nat)
    requires t < |s.threads| && s.sem == 1 && s.threads[t] == Start(HOME) && s.cache.items != [] &&
      s.cache.items[0].key == HOME
    ensures Run(s, Thrice(t, "")) == State(1, Store(s.cache.left, s.cache.items[1..]),
      s.threads[t := Hit(HOME, s.cache.items[0])])
  {
    RunThrice(s, t, "");
    var ts, x := s.threads, s.cache.items[0];
    assert FirstWith(s.cache.items, HOME) == 0 && Without(s.cache.items, 0) == s.cache.items[1..];
    assert ts[t := Reading(HOME)][t := Found(HOME, x)][t := Hit(HOME, x)] == ts[t := Hit(HOME, x)];
  }

  /** Threads outside lo..hi have not moved. */
  ghost predicate Still(s: State, s': State, lo: nat, hi: nat) {
    |s'.threads| == |s.threads| &&
      forall t :: 0 <= t < |s.threads| && (t < lo || hi <= t) ==> s'.threads[t] == s.threads[t]
  }

  lemma {:induction false} MissAll(s: State, lo: nat, hi: nat) returns (steps: seq<(nat, string)>)
    requires lo <= hi <= |s.threads| && s.sem == 1 && s.cache.items == [] &&
      forall t :: lo <= t < hi ==> s.threads[t] == Start(HOME)
    ensures var s' := Run(s, steps);
      s'.sem == 1 && s'.cache == s.cache && Still(s, s', lo, hi) &&
        forall t :: lo <= t < hi ==> s'.threads[t] == Miss(HOME)
    decreases hi - lo
  {
    hide Step, Thrice;
    steps := [];
    if lo < hi {
      MissOne(s, lo);
      var s1 := Run(s, Thrice(lo, ""));
      var rest := MissAll(s1, lo + 1, hi);
      RunAppend(s, Thrice(lo, ""), rest);
      steps := Thrice(lo, "") + rest;
    }
  }

  /** The list holds `n` copies of the page. */
  ghost predicate Copies(items: seq<Item>, n: nat) {
    |items| == n && forall i :: 0 <= i < n ==> items[i] == Item(HOME, Page())
  }

  lemma {:induction false} WriteAll(s: State, lo: nat, hi: nat, n: nat) returns (steps: seq<(nat, string)>)
    requires lo <= hi <= |s.threads| && s.sem == 1 && Copies(s.cache.items, n) && s.cache.left > (hi - lo) * PAGE
    requires forall t :: lo <= t < hi ==> s.threads[t] == Miss(HOME)
    ensures var s' := Run(s, steps);
      s'.sem == 1 && s'.cache.left == s.cache.left - (hi - lo) * PAGE && Copies(s'.cache.items, n + (hi - lo)) &&
        Still(s, s', lo, hi)
    decreases hi - lo
  {
    hide Step, Thrice;
    steps := [];
    if lo < hi {
      WriteOne(s, lo, Page());
      var s1 := Run(s, Thrice(lo, Page()));
      RoomEnough(s.cache, Item(HOME, Page()));
      var rest := WriteAll(s1, lo + 1, hi, n + 1);
      RunAppend(s, Thrice(lo, Page()), rest);
      steps := Thrice(lo, Page()) + rest;
    }
  }

  lemma RoomEnough(c: Store, x: Item)
    requires |x.response| < c.left || c.items == []
    ensures AfterWrite(c, x) == Store(c.left - |x.response|, [x] + c.items)
  {
    assert c.items[|c.items|..] == [] && c.items[..|c.items|] == c.items;
  }

  lemma {:induction false} ReadAll(s: State, lo: nat, hi: nat, n: nat) returns (steps: seq<(nat, string)>)
    requires lo <= hi <= |s.threads| && s.sem == 1 && Copies(s.cache.items, n) && hi - lo <= n
    requires forall t :: lo <= t < hi ==> s.threads[t] == Start(HOME)
    ensures var s' := Run(s, steps);
      s'.sem == 1 && s'.cache.left == s.cache.left && Copies(s'.cache.items, n - (hi - lo)) && Still(s, s', lo, hi)
    decreases hi - lo
  {
    hide Step, Thrice;
    steps := [];
    if lo < hi {
      ReadOne(s, lo);
      var s1 := Run(s, Thrice(lo, ""));
      var rest := ReadAll(s1, lo + 1, hi, n - 1);
      RunAppend(s, Thrice(lo, ""), rest);
      steps := Thrice(lo, "") + rest;
    }
  }

  /** Twenty-one connections for the same page. */
  function Crowd(): State { State(1, Store(MAX_CACHE_SIZE, []), seq(21, i => Start(HOME))) }

  /** A reachable state in which the cache is over its budget: eleven threads miss, ten of them store the page, ten
      more take the copies out to send them, and the eleventh stores its own in the empty list. */
  lemma OverBudget() returns (steps: seq<(nat, string)>)
    ensures Initial(Crowd()) && Run(Crowd(), steps).cache.left < 0
  {
    hide Run, AfterWrite;
    var s := Crowd();
    var a := MissAll(s, 0, 11);
    var s1 := Run(s, a);
    var b := WriteAll(s1, 0, 10, 0);
    var s2 := Run(s1, b);
    var c := ReadAll(s2, 11, 21, 10);
    var s3 := Run(s2, c);
    var d := Thrice(10, Page());
    WriteOne(s3, 10, Page());
    RoomEnough(s3.cache, Item(HOME, Page()));
    RunAppend(s, a, b); RunAppend(s, a + b, c); RunAppend(s, a + b + c, d);
    steps := a + b + c + d;
  }

  /** Refused although there is room: ten copies are stored and nine taken out, and the eleventh write drops the last
      entry, has 127409 bytes for its 102399, and returns without storing them. */
  lemma RefusedWithRoom() returns (steps: seq<(nat, string)>)
    ensures Initial(Crowd())
    ensures var s := Run(Crowd(), steps);
      |s.threads| == 21 && s.threads[10] == Miss(HOME) && Run(s, Thrice(10, Page())).cache == Store(127409, [])
    ensures |Page()| == 102399
  {
    hide Run, AfterWrite, Step;
    var s := Crowd();
    var a := MissAll(s, 0, 11);
    var s1 := Run(s, a);
    var b := WriteAll(s1, 0, 10, 0);
    var s2 := Run(s1, b);
    var c := ReadAll(s2, 11, 20, 10);
    var s3 := Run(s2, c);
    RunAppend(s, a, b); RunAppend(s, a + b, c);
    steps := a + b + c;
    WriteOne(s3, 10, Page());
    LastDropped(s3.cache, Item(HOME, Page()));
  }

  lemma LastDropped(c: Store, x: Item)
    requires |c.items| == 1 && |x.response| >= c.left
    ensures AfterWrite(c, x) == Store(c.left + |c.items[0].response|, [])
  {
    assert c.items[..0] == [] && c.items[1..] == [] && c.items[|c.items| - 1..] == c.items;
    assert Evicted(c.left, c.items, |x.response|) == 1 && Total(c.items) == |c.items[0].response| + Total([]);
  }
}
