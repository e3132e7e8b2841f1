/**
 Whole runs of the implicit-list and the segregated-list allocators, against handles that
 hold what a program has put there.
 */
module GrantRuns {
  import opened Words
  import opened ImplicitLists
  import opened Layouts
  import opened SegHeaps
  import SegLists
  import opened TreeRuns

  /** The handles and the heap at one moment of a run. */
  datatype State = State(slots: seq<Slot>, ptrs: seq<nat>, bs: seq<Blk>, brk: nat, capacity: nat)

  /** Nothing free holds `asize` double words, and memlib has not enough left. */
  ghost predicate Exhausted(a: State, asize: nat) {
    a.bs != [] && !Room(Layout(a.bs), asize) &&
      var last := a.bs[|a.bs| - 1];
      a.brk + 2 * (Max(asize, 512) - if last.live then 0 else last.size) > a.capacity
  }

  /** The effect of one operation at one moment, a request for `bytes` bytes needing AdjustedSize(need).  An allocation
      fails only for lack of bytes to serve or of memory.  Unlike those of the tree allocator, these heaps shrink
      blocks in place, and a resize that cannot be served, in place or elsewhere, changes nothing. */
  ghost predicate Effect(a: State, op: Op, b: State, need: nat) {
    b.capacity == a.capacity &&
    if op.Resize? && op.h < |a.slots| && a.slots[op.h].Has? && op.bytes > 0 then
      op.h < |a.ptrs| && exists k {:trigger Refuses(a, k, AdjustedSize(need))} ::
        0 <= k < |a.bs| && At(a.bs[..k]) == a.ptrs[op.h] &&
        if Refuses(a, k, AdjustedSize(need)) then b == a else Regrows(a.slots, op.h, op.bytes, b.slots)
    else
      Step(a.slots, op, b.slots) &&
      (op.Alloc? ==> (b.slots[|a.slots|].Gone? <==> op.bytes == 0 || Exhausted(a, AdjustedSize(need))))
  }

  /** Block `k` can neither become `asize` double words where it is nor move elsewhere. */
  ghost predicate Refuses(a: State, k: nat, asize: nat) {
    !InPlace(a.bs, k, asize, a.brk, a.capacity) && Exhausted(a, asize)
  }

  /** Where the rover of next fit is: how many blocks lie before it, and its address. */
  datatype Mark = Mark(at: nat, rover: nat)

  /** It is right behind the block at `p`. */
  ghost predicate BehindBlock(b: State, m: Mark, p: nat) {
    exists g: Grant :: g in Grants(b.bs, 2) && g.ptr == p && m.rover == p + 2 * g.size
  }

  /** It is at a free block that word `p` now belongs to. */
  ghost predicate AtMerged(b: State, m: Mark, p: nat) {
    m.at < |b.bs| && !b.bs[m.at].live && m.rover <= p < m.rover + 2 * b.bs[m.at].size
  }

  /** The block at `p` is the one the search from `m` finds. */
  ghost predicate FoundFrom(a: State, m: Mark, bytes: nat, useRover: bool, p: nat) {
    exists k: nat :: Chosen(a.bs, m.at, k, AdjustedSize(bytes), useRover, p)
  }

  /** Where each operation searches from, and where it leaves the rover: a search starts at the rover, and afterwards
      the rover is right behind the block placed last, or at the block merged last. */
  ghost predicate Roves(a: State, m: Mark, op: Op, b: State, m': Mark, useRover: bool) {
    match op
    case Alloc(n) =>
      |b.ptrs| == |a.ptrs| + 1 &&
      var p := b.ptrs[|a.ptrs|];
      if p == 0 then m' == m else BehindBlock(b, m', p) && (b.brk == a.brk ==> FoundFrom(a, m, n, useRover, p))
    case Drop(h) => if h < |a.ptrs| && a.ptrs[h] != 0 then AtMerged(b, m', a.ptrs[h]) else m' == m
    case Resize(h, n) =>
      if h >= |a.ptrs| || a.ptrs[h] == 0 || (n > 0 && b == a && m' == m) then m' == m
      else if h >= |b.ptrs| then false
      else if b.ptrs[h] == a.ptrs[h] then BehindBlock(b, m', b.ptrs[h])
      else AtMerged(b, m', a.ptrs[h]) && (n > 0 && b.brk == a.brk ==> FoundFrom(a, m, n, useRover, b.ptrs[h]))
    case Put(_, _, _) => m' == m
  }

  ghost predicate Regrows(s: seq<Slot>, h: nat, bytes: nat, s': seq<Slot>) {
    h < |s| == |s'| && s[h].Has? && s'[h].Has? && Agree(s[h].words, s'[h].words) && bytes <= 4 * |s'[h].words| &&
      s' == s[h := s'[h]]
  }

  lemma ResizeEffect(a: State, h: nat, bytes: nat, b: State, k: nat)
    requires h < |a.slots| && a.slots[h].Has? && bytes > 0 && h < |a.ptrs| && b.capacity == a.capacity
    requires k < |a.bs| && At(a.bs[..k]) == a.ptrs[h] &&
      if Refuses(a, k, AdjustedSize(bytes)) then b == a else Regrows(a.slots, h, bytes, b.slots)
    ensures Effect(a, Resize(h, bytes), b, bytes)
  {
  }

  function Bytes(op: Op): nat { if op.Alloc? || op.Resize? then op.bytes else 0 }

  lemma NoFitIsFull(bs: seq<Blk>, asize: nat)
    ensures NoFit(bs, 0, |bs|, asize) <==> !Room(Layout(bs), asize)
  {
    if !NoFit(bs, 0, |bs|, asize) {
      var k :| 0 <= k < |bs| && !bs[k].live && asize <= bs[k].size;
      assert !Layout(bs)[k].live && asize <= Layout(bs)[k].size;
    } else {
      forall k | 0 <= k < |bs| ensures Layout(bs)[k].live || Layout(bs)[k].size < asize {
        assert bs[k].live || bs[k].size < asize;
      }
    }
  }

  // ------------------------------------------------------------- handles and grants

  /** The grants lie one after the other, and each payload is two words short of its block. */
  ghost predicate InOrder(G: seq<Grant>) {
    (forall i, j :: 0 <= i < j < |G| ==> G[i].ptr < G[j].ptr) &&
    (forall i {:trigger G[i]} :: 0 <= i < |G| ==> G[i].size >= 1 && |G[i].body| == 2 * G[i].size - 2)
  }

  lemma {:induction false} GrantsInOrder(bs: seq<Blk>, p: nat)
    requires AllOk(bs)
    ensures InOrder(Grants(bs, p)) && forall i :: 0 <= i < |Grants(bs, p)| ==> Grants(bs, p)[i].ptr >= p
  {
    if bs != [] {
      GrantsInOrder(bs[1..], p + 2 * bs[0].size);
      GrantsStep(bs, p);
      assert Ok(bs[0]);
    }
  }

  ghost predicate Listed(G: seq<Grant>, p: nat, w: seq<Word>) {
    exists j {:trigger G[j]} :: 0 <= j < |G| && G[j].ptr == p && G[j].body == w
  }

  /** The pointers of the handles that are not gone are different grants with the right contents. */
  ghost predicate Held(G: seq<Grant>, ptrs: seq<nat>, s: seq<Slot>) {
    |ptrs| == |s| &&
    (forall h {:trigger s[h]} {:trigger ptrs[h]} :: 0 <= h < |s| ==> (ptrs[h] == 0 <==> s[h].Gone?) && ptrs[h] != 2) &&
    (forall h {:trigger s[h]} {:trigger ptrs[h]} :: 0 <= h < |s| && s[h].Has? ==> Listed(G, ptrs[h], s[h].words)) &&
    (forall h, k {:trigger ptrs[h], ptrs[k]} :: 0 <= h < k < |s| && ptrs[h] != 0 ==> ptrs[h] != ptrs[k])
  }

  /** All grants but the one at `x` are still there, and none of them is at `r`. */
  ghost predicate OthersStay(G: seq<Grant>, G': seq<Grant>, x: nat, r: nat) {
    forall j {:trigger G[j]} :: 0 <= j < |G| && G[j].ptr != x ==> G[j] in G' && G[j].ptr != r
  }

  /** Handle `h` moves to grant `r`, or is gone when `r` is null; all others stay as they are. */
  lemma Rehandled(G: seq<Grant>, G': seq<Grant>, ptrs: seq<nat>, s: seq<Slot>, h: nat, r: nat, slot: Slot)
    requires Held(G, ptrs, s) && h < |s| && OthersStay(G, G', ptrs[h], r) && (r == 0 <==> slot.Gone?) && r != 2
    requires r != 0 ==> Listed(G', r, slot.words)
    ensures Held(G', ptrs[h := r], s[h := slot])
  {
    forall k | 0 <= k < |s| && k != h && s[k].Has? ensures Listed(G', ptrs[k], s[k].words) && ptrs[k] != r {
      assert Listed(G, ptrs[k], s[k].words) && ptrs[k] != ptrs[h];
    }
  }

  /** A new handle. */
  lemma Handled(G: seq<Grant>, G': seq<Grant>, ptrs: seq<nat>, s: seq<Slot>, r: nat, slot: Slot)
    requires Held(G, ptrs, s) && (if r == 0 then G' == G else OthersStay(G, G', 0, r)) && (r == 0 <==> slot.Gone?) &&
      r != 2
    requires r != 0 ==> Listed(G', r, slot.words)
    ensures Held(G', ptrs + [r], s + [slot])
  {
    forall k | 0 <= k < |s| && s[k].Has? ensures Listed(G', ptrs[k], s[k].words) && ptrs[k] != r {
      assert Listed(G, ptrs[k], s[k].words);
    }
  }

  lemma Inserts(G: seq<Grant>, i: nat, g: Grant, x: nat)
    requires i <= |G| && InOrder(Insert(G, i, g))
    ensures OthersStay(G, Insert(G, i, g), x, g.ptr) && Listed(Insert(G, i, g), g.ptr, g.body) &&
      |g.body| == 2 * g.size - 2
    ensures forall j {:trigger G[j]} :: 0 <= j < |G| ==> G[j] in Insert(G, i, g) && G[j].ptr != g.ptr
  {
    var G' := Insert(G, i, g);
    assert G'[i] == g;
    forall j | 0 <= j < |G| ensures G[j] in G' && G[j].ptr != g.ptr {
      if j < i { assert G'[j] == G[j]; } else { assert G'[j + 1] == G[j]; }
    }
  }

  /** No grant is at null. */
  ghost predicate NoneNull(G: seq<Grant>) { forall j {:trigger G[j]} :: 0 <= j < |G| ==> G[j].ptr != 0 }

  lemma Drops(G: seq<Grant>, j: nat)
    requires j < |G| && InOrder(G) && NoneNull(G)
    ensures OthersStay(G, ImplicitLists.Drop(G, j), G[j].ptr, 0)
  {
    var G' := ImplicitLists.Drop(G, j);
    forall k | 0 <= k < |G| && G[k].ptr != G[j].ptr ensures G[k] in G' {
      if k < j { assert G'[k] == G[k]; } else { assert k != j && G'[k - 1] == G[k]; }
    }
  }

  lemma Regrants(G: seq<Grant>, j: nat, i: nat, g: Grant)
    requires j < |G| && i < |G| && InOrder(G) && InOrder(Insert(ImplicitLists.Drop(G, j), i, g))
    ensures var G' := Insert(ImplicitLists.Drop(G, j), i, g);
      OthersStay(G, G', G[j].ptr, g.ptr) && Listed(G', g.ptr, g.body) && |g.body| == 2 * g.size - 2
  {
    hide ImplicitLists.Drop, Insert, InOrder;
    var D := ImplicitLists.Drop(G, j);
    DropLength(G, j);
    Inserts(D, i, g, 0);
    forall k | 0 <= k < |G| && G[k].ptr != G[j].ptr ensures G[k] in Insert(D, i, g) && G[k].ptr != g.ptr {
      DropAt(G, j, if k < j then k else k - 1);
      assert D[if k < j then k else k - 1] == G[k];
    }
  }

  lemma RegrantedAt(G: seq<Grant>, j: nat, i: nat, g: Grant)
    requires j < |G| && i < |G|
    ensures i < |Insert(ImplicitLists.Drop(G, j), i, g)| && Insert(ImplicitLists.Drop(G, j), i, g)[i] == g
  {
  }

  lemma NotPrologue(G: seq<Grant>, G': seq<Grant>, x: nat, r: nat)
    requires OthersStay(G, G', x, r) && |G| > 0 && G[0].ptr == 2 && x != 2
    ensures r != 2
  {
  }

  lemma Stores(G: seq<Grant>, j: nat, w: seq<Word>)
    requires j < |G| && InOrder(G)
    ensures var G' := G[j := G[j].(body := w)]; OthersStay(G, G', G[j].ptr, G[j].ptr) && Listed(G', G[j].ptr, w)
  {
    var G' := G[j := G[j].(body := w)];
    assert G'[j].ptr == G[j].ptr && G'[j].body == w;
    forall k | 0 <= k < |G| && G[k].ptr != G[j].ptr ensures G[k] in G' { assert G'[k] == G[k]; }
  }

  lemma Bodies(G: seq<Grant>, j: nat)
    requires InOrder(G) && j < |G|
    ensures |G[j].body| == 2 * G[j].size - 2
  {
  }

  /** What the table says about handle `h`, and which grant it is. */
  lemma Lookup(G: seq<Grant>, ptrs: seq<nat>, s: seq<Slot>, h: nat) returns (j: nat)
    requires Held(G, ptrs, s)
    ensures |ptrs| == |s|
    ensures h < |s| ==> (ptrs[h] == 0 <==> s[h].Gone?) && ptrs[h] != 2
    ensures h < |s| && ptrs[h] != 0 ==> j < |G| && G[j].ptr == ptrs[h] && G[j].body == s[h].words
    ensures h < |s| && s[h].Gone? ==> s[h := Gone] == s
  {
    j := 0;
    if h < |s| && s[h].Has? {
      assert Listed(G, ptrs[h], s[h].words);
      j :| 0 <= j < |G| && G[j].ptr == ptrs[h] && G[j].body == s[h].words;
    }
  }

  // ------------------------------------------------------------- the implicit-list heaps

  class ListProgram {
    const heap: ImplicitHeap
    const useRover: bool        // next fit
    var ptrs: seq<nat>          // the pointer behind each handle, null once it is freed
    ghost var slots: seq<Slot>

    ghost predicate Valid()
      reads this, heap, heap.mem
    {
      heap.Valid() && Held(Grants(heap.bs, 2), ptrs, slots)
    }

    ghost function Now(): State
      reads this, heap
    {
      State(slots, ptrs, heap.bs, heap.brk, heap.mem.Length)
    }

    ghost function Here(): Mark
      reads heap
    {
      Mark(heap.at, heap.rover)
    }

    constructor (capacity: nat, useRover: bool)
      requires capacity >= 4 + 2 * CHUNK
      ensures Valid() && slots == [] && fresh(heap) && fresh(heap.mem) && this.useRover == useRover
    {
      var a := new ImplicitHeap(capacity);
      heap, this.useRover := a, useRover;
      ptrs, slots := [], [];
      new;
      var r := heap.Init();
    }

    lemma Nonempty()
      requires heap.Valid()
      ensures heap.bs != []
    {
    }

    lemma Ordered()
      requires heap.Valid()
      ensures InOrder(Grants(heap.bs, 2)) && NoneNull(Grants(heap.bs, 2)) && |Grants(heap.bs, 2)| > 0 &&
        Grants(heap.bs, 2)[0].ptr == 2
    {
      GrantsInOrder(heap.bs, 2);
      GrantsStep(heap.bs, 2);
    }

    method DoAlloc(bytes: nat)
      requires Valid()
      modifies this, heap, heap.mem
      ensures Valid() && Effect(old(Now()), Alloc(bytes), Now(), bytes)
      ensures Roves(old(Now()), old(Here()), Alloc(bytes), Now(), Here(), useRover)
    {
      hide Held, Grants, ImplicitHeap.Valid, OthersStay, Listed, InOrder, NoFit, FreeSum, Chosen, Room, Layout,
        Missing, CutFrom;
      ghost var G, slot := Grants(heap.bs, 2), Gone;
      var r;
      ghost var j, g;
      NoFitIsFull(heap.bs, AdjustedSize(bytes));
      Nonempty();
      r, j, g := heap.Malloc(bytes, useRover);
      if r != 0 {
        Ordered();
        Inserts(G, j, g, 0);
        assert Grants(heap.bs, 2)[j] == g;
        slot := Has(g.body);
      }
      Handled(G, Grants(heap.bs, 2), ptrs, slots, r, slot);
      ptrs, slots := ptrs + [r], slots + [slot];
    }

    method DoDrop(h: nat)
      requires Valid()
      modifies this, heap, heap.mem
      ensures Valid() && Effect(old(Now()), Op.Drop(h), Now(), 0)
      ensures Roves(old(Now()), old(Here()), Op.Drop(h), Now(), Here(), useRover)
    {
      hide Held, Grants, ImplicitHeap.Valid, Listed, InOrder, FreeSum;
      ghost var G := Grants(heap.bs, 2);
      ghost var j := Lookup(G, ptrs, slots, h);
      if h < |ptrs| && ptrs[h] != 0 {
        Ordered();
        Drops(G, j);
        ghost var a, d, c := heap.Release(ptrs[h], j);
        Rehandled(G, Grants(heap.bs, 2), ptrs, slots, h, 0, Gone);
        ptrs, slots := ptrs[h := 0], slots[h := Gone];
      }
    }

    method DoResize(h: nat, bytes: nat)
      requires Valid()
      modifies this, heap, heap.mem
      ensures Valid() && Effect(old(Now()), Resize(h, bytes), Now(), bytes)
      ensures Roves(old(Now()), old(Here()), Resize(h, bytes), Now(), Here(), useRover)
    {
      hide Held, Grants, ImplicitHeap.Valid, Listed, InOrder, Agree, ImplicitLists.Drop, Insert, InPlace, Room, NoFit,
        Chosen, OthersStay;
      ghost var G := Grants(heap.bs, 2);
      ghost var j := Lookup(G, ptrs, slots, h);
      if h < |ptrs| && ptrs[h] != 0 {
        Ordered();
        Drops(G, j);
        var r;
        ghost var i, g, k, before := 0, Grant(0, 0, []), 0, Now();
        Nonempty();
        NoFitIsFull(heap.bs, AdjustedSize(bytes));
        r, i, g, k := heap.Realloc(ptrs[h], bytes, useRover, j);
        ghost var slot := Gone;
        if r != 0 {
          Ordered();
          Regrants(G, j, i, g);
          NotPrologue(G, Grants(heap.bs, 2), G[j].ptr, r);
          slot := Has(g.body);
          assert Grants(heap.bs, 2)[i] == g by { RegrantedAt(G, j, i, g); }
        } else if bytes > 0 {
          ResizeEffect(before, h, bytes, Now(), k);
          return;
        }
        Rehandled(G, Grants(heap.bs, 2), ptrs, slots, h, r, slot);
        ptrs, slots := ptrs[h := r], slots[h := slot];
        if bytes > 0 { ResizeEffect(before, h, bytes, Now(), k); }
      }
    }

    method DoPut(h: nat, i: nat, w: Word)
      requires Valid()
      modifies this, heap, heap.mem
      ensures Valid() && Effect(old(Now()), Put(h, i, w), Now(), 0)
      ensures Roves(old(Now()), old(Here()), Put(h, i, w), Now(), Here(), useRover)
    {
      hide Held, Grants, ImplicitHeap.Valid, Listed, OthersStay;
      ghost var G := Grants(heap.bs, 2);
      ghost var j := Lookup(G, ptrs, slots, h);
      if h < |ptrs| && ptrs[h] != 0 {
        var p := ptrs[h];
        ghost var ws := slots[h].words;
        Ordered();
        heap.HeadOf(p, j);
        Bodies(G, j);
        // a program stays inside its payload
        if i + 2 < 2 * heap.mem[p - 1].hi {
          heap.Store(p, i, w, j);
          Stores(G, j, ws[i := w]);
          Rehandled(G, Grants(heap.bs, 2), ptrs, slots, h, p, Has(ws[i := w]));
          assert ptrs[h := p] == ptrs;
          slots := slots[h := Has(ws[i := w])];
        }
      }
    }

    /** Any run of mm_malloc, mm_free, mm_realloc and writes: every operation has its effect on its own handle and
        on no other. */
    method Run(ops: seq<Op>) returns (ghost trace: seq<State>, ghost marks: seq<Mark>)
      requires Valid()
      modifies this, heap, heap.mem
      ensures Valid() && |trace| == |ops| + 1 && trace[0] == old(Now()) && trace[|ops|] == Now()
      ensures forall i :: 0 <= i < |ops| ==> Effect(trace[i], ops[i], trace[i + 1], Bytes(ops[i]))
      ensures |marks| == |ops| + 1 && marks[0] == old(Here()) && marks[|ops|] == Here()
      ensures forall i :: 0 <= i < |ops| ==> Roves(trace[i], marks[i], ops[i], trace[i + 1], marks[i + 1], useRover)
    {
      hide Effect, Roves, Held, ListProgram.Valid;
      trace, marks := [Now()], [Here()];
      var i := 0;
      while i < |ops|
        invariant i <= |ops| && |trace| == i + 1 && trace[0] == old(Now()) && trace[i] == Now() && Valid()
        invariant |marks| == i + 1 && marks[0] == old(Here()) && marks[i] == Here()
        invariant forall k :: 0 <= k < i ==> Effect(trace[k], ops[k], trace[k + 1], Bytes(ops[k]))
        invariant forall k :: 0 <= k < i ==> Roves(trace[k], marks[k], ops[k], trace[k + 1], marks[k + 1], useRover)
      {
        ghost var before, mark := Now(), Here();
        match ops[i] {
          case Alloc(n) => DoAlloc(n);
          case Drop(h) => DoDrop(h);
          case Resize(h, n) => DoResize(h, n);
          case Put(h, k, w) => DoPut(h, k, w);
        }
        assert Effect(before, ops[i], Now(), Bytes(ops[i])) && Roves(before, mark, ops[i], Now(), Here(), useRover);
        trace, marks := trace + [Now()], marks + [Here()];
        i := i + 1;
      }
    }
  }

  // ------------------------------------------------------------- the segregated-list heaps

  class SegProgram {
    const heap: SegHeap
    var ptrs: seq<nat>
    ghost var slots: seq<Slot>

    ghost predicate Valid()
      reads this, heap, heap.mem, heap.heads
    {
      heap.Valid() && Held(heap.Held(), ptrs, slots)
    }

    ghost function Now(): State
      reads this, heap
    {
      State(slots, ptrs, heap.bs, heap.brk, heap.mem.Length)
    }

    constructor (capacity: nat, sorted: bool)
      requires capacity >= 16 + 2 * CHUNK
      ensures Valid() && slots == [] && fresh(heap) && fresh(heap.mem) && fresh(heap.heads)
    {
      var a := new SegHeap(capacity, sorted);
      heap := a;
      ptrs, slots := [], [];
      new;
      var r := heap.Init();
    }

    lemma Nonempty()
      requires heap.Valid()
      ensures heap.bs != []
    {
    }

    lemma Ordered()
      requires heap.Valid()
      ensures InOrder(heap.Held()) && NoneNull(heap.Held()) &&
        forall j :: 0 <= j < |heap.Held()| ==> heap.Held()[j].ptr != 2
    {
      hide Grants;
      AllOkOf(heap.bs);
      GrantsInOrder(heap.bs, 2);
      var G, n := Grants(heap.bs, 2), if heap.freed then 1 else 2;
      if n <= |G| {
        forall j | 0 <= j < |G| - n ensures G[n..][j] == G[n + j] && G[n + j].ptr > G[0].ptr >= 2 {}
      }
    }

    method DoAlloc(bytes: nat)
      requires Valid()
      modifies this, heap, heap.mem, heap.heads
      ensures Valid() && Effect(old(Now()), Alloc(bytes), Now(), Served(bytes))
    {
      hide Held, SegHeap.Held, SegHeap.Valid, OthersStay, Listed, InOrder, FreeSum, FreeMap, SegLists.BestFit, Room,
        Layout, Missing, Supplied;
      ghost var G, slot := heap.Held(), Gone;
      var r;
      ghost var j, g, k;
      Nonempty();
      r, j, g, k := heap.Malloc(bytes);
      if r != 0 {
        Ordered();
        Inserts(G, j, g, 0);
        assert heap.Held()[j] == g;
        slot := Has(g.body);
      }
      Handled(G, heap.Held(), ptrs, slots, r, slot);
      ptrs, slots := ptrs + [r], slots + [slot];
    }

    method DoDrop(h: nat)
      requires Valid()
      modifies this, heap, heap.mem, heap.heads
      ensures Valid() && Effect(old(Now()), Op.Drop(h), Now(), 0)
    {
      hide Held, SegHeap.Held, SegHeap.Valid, Listed, InOrder, FreeSum;
      ghost var G := heap.Held();
      ghost var j := Lookup(G, ptrs, slots, h);
      if h < |ptrs| && ptrs[h] != 0 {
        Ordered();
        Drops(G, j);
        ghost var k := heap.Release(ptrs[h], j);
        Rehandled(G, heap.Held(), ptrs, slots, h, 0, Gone);
        ptrs, slots := ptrs[h := 0], slots[h := Gone];
      }
    }

    /** Any run of mm_malloc, mm_free and writes. */
    method Run(ops: seq<Op>) returns (ghost trace: seq<State>)
      requires Valid() && forall op :: op in ops ==> !op.Resize?
      modifies this, heap, heap.mem, heap.heads
      ensures Valid() && |trace| == |ops| + 1 && trace[0] == old(Now()) && trace[|ops|] == Now()
      ensures forall i :: 0 <= i < |ops| ==> Effect(trace[i], ops[i], trace[i + 1], Served(Bytes(ops[i])))
    {
      hide Effect, Held, SegProgram.Valid;
      trace := [Now()];
      var i := 0;
      while i < |ops|
        invariant i <= |ops| && |trace| == i + 1 && trace[0] == old(Now()) && trace[i] == Now() && Valid()
        invariant forall k :: 0 <= k < i ==> Effect(trace[k], ops[k], trace[k + 1], Served(Bytes(ops[k])))
      {
        ghost var before := Now();
        assert ops[i] in ops;
        match ops[i] {
          case Alloc(n) => DoAlloc(n);
          case Drop(h) => DoDrop(h);
          case Put(h, k, w) => DoPut(h, k, w);
        }
        assert Effect(before, ops[i], Now(), Served(Bytes(ops[i])));
        trace := trace + [Now()];
        i := i + 1;
      }
    }

    method DoPut(h: nat, i: nat, w: Word)
      requires Valid()
      modifies this, heap, heap.mem, heap.heads
      ensures Valid() && Effect(old(Now()), Put(h, i, w), Now(), 0)
    {
      hide Held, SegHeap.Held, SegHeap.Valid, Listed, OthersStay;
      ghost var G := heap.Held();
      ghost var j := Lookup(G, ptrs, slots, h);
      if h < |ptrs| && ptrs[h] != 0 {
        var p := ptrs[h];
        ghost var ws := slots[h].words;
        Ordered();
        heap.HeadOf(p, j);
        Bodies(G, j);
        if i + 2 < 2 * heap.mem[p - 1].hi {
          heap.Store(p, i, w, j);
          Stores(G, j, ws[i := w]);
          Rehandled(G, heap.Held(), ptrs, slots, h, p, Has(ws[i := w]));
          assert ptrs[h := p] == ptrs;
          slots := slots[h := Has(ws[i := w])];
        }
      }
    }
  }
}
