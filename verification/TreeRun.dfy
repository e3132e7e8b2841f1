/**
 Whole runs of the tree allocator against the simplest idea of a heap: a list of handles,
 each holding the words a program has put there.
 */
module TreeRuns {
  import opened Words
  import opened Blocks
  import opened TreeAllocators

  /** What a program may do.  A handle is the number of the Alloc that made it. */
  datatype Op =
    | Alloc(bytes: nat)
    | Drop(h: nat)
    | Resize(h: nat, bytes: nat)
    | Put(h: nat, i: nat, w: Word)

  datatype Slot = Gone | Has(words: seq<Word>)

  /** The effect of one operation on the handles: no handle but the named one ever changes. */
  ghost predicate Step(s: seq<Slot>, op: Op, s': seq<Slot>) {
    match op
    case Alloc(n) => |s'| == |s| + 1 && s'[..|s|] == s && (s'[|s|].Has? ==> n <= 4 * |s'[|s|].words|)
    case Drop(h) => s' == if h < |s| then s[h := Gone] else s
    case Resize(h, n) =>
      if h >= |s| || s[h].Gone? then s' == s
      else if n == 0 then s' == s[h := Gone]
      else |s'| == |s| && s'[h].Has? && s[h].words <= s'[h].words && n <= 4 * |s'[h].words| && s' == s[h := s'[h]]
    case Put(h, i, w) =>
      s' == if h < |s| && s[h].Has? && i < |s[h].words| then s[h := Has(s[h].words[i := w])] else s
  }

  /** The handles and the heap at one moment of a run. */
  datatype Moment = Moment(slots: seq<Slot>, ptrs: seq<nat>, mem: seq<Word>, brk: nat, blocks: Blocks)

  /** No free block holds `bytes` bytes, and memlib has not enough left. */
  ghost predicate Exhausted(a: Moment, bytes: nat) {
    NoFit(a.blocks, SizeInNeed(bytes)) && EndStart(a.blocks, a.brk) + 2 * Max(SizeInNeed(bytes), 512) > |a.mem|
  }

  /** mm_realloc of a live handle to `bytes` bytes has to fail. */
  ghost predicate Stuck(a: Moment, h: nat, bytes: nat) {
    h < |a.slots| == |a.ptrs| && a.slots[h].Has? && bytes > 0 && a.ptrs[h] in a.blocks &&
      Refused(a.blocks, a.brk, a.ptrs[h], SizeInNeed(bytes), |a.mem|)
  }

  /** The effect of one operation at one moment: an allocation fails only for lack of bytes to serve or of memory, and
      no resize that has to fail takes place. */
  ghost predicate Moves(a: Moment, op: Op, b: Moment) {
    Step(a.slots, op, b.slots) && |b.mem| == |a.mem| &&
      (op.Alloc? ==> (b.slots[|a.slots|].Gone? <==> op.bytes == 0 || Exhausted(a, op.bytes))) &&
      (op.Resize? ==> !Stuck(a, op.h, op.bytes))
  }

  /** Some block in use begins with the words `w`. */
  ghost predicate Stranded(m: seq<Word>, B: Blocks, w: seq<Word>) {
    exists p {:trigger B[p]} :: p in B && Occupied(B[p].status) && p + |w| <= |m| && m[p..p + |w|] == w
  }

  lemma StrandedAt(m: seq<Word>, B: Blocks, ptr: nat, w: seq<Word>, m': seq<Word>, B': Blocks)
    requires Entry(m, B, ptr, w) && Survives(m, B, ptr, m', B')
    ensures Stranded(m', B', w)
  {
    var d := B[ptr].size;
    var p :| p in B' && Occupied(B'[p].status) && d <= B'[p].size && Payload(m, m', ptr, p, d);
    assert m'[p..p + |w|] == w && B'[p] == B'[p];
  }

  /** Payload `p` is exactly `w`. */
  ghost predicate Entry(m: seq<Word>, B: Blocks, p: nat, w: seq<Word>) {
    p in B && B[p].status == Live && |w| == 2 * B[p].size - 1 && p + |w| <= |m| && m[p..p + |w|] == w
  }

  /** The pointers of the handles that are not gone are different live blocks with the right contents. */
  ghost predicate Holds(m: seq<Word>, B: Blocks, ptrs: seq<nat>, s: seq<Slot>) {
    |ptrs| == |s| &&
    (forall h {:trigger s[h]} {:trigger ptrs[h]} :: 0 <= h < |s| ==> (ptrs[h] == 0 <==> s[h].Gone?)) &&
    (forall h {:trigger s[h]} {:trigger ptrs[h]} :: 0 <= h < |s| && s[h].Has? ==> Entry(m, B, ptrs[h], s[h].words)) &&
    (forall h, k {:trigger ptrs[h], ptrs[k]} :: 0 <= h < k < |s| && ptrs[h] != 0 ==> ptrs[h] != ptrs[k])
  }

  lemma EntryKept(m: seq<Word>, m': seq<Word>, B: Blocks, B': Blocks, x: nat, p: nat, w: seq<Word>)
    requires Kept(m, m', B, B', x) && p != x && Entry(m, B, p, w)
    ensures Entry(m', B', p, w)
  {
    assert SameBody(m, m', p, B[p].size);
  }

  /** The payload of block `r`. */
  function Body(m: seq<Word>, B: Blocks, r: nat): (w: seq<Word>)
    requires r in B && r + 2 * B[r].size <= |m| && 1 <= B[r].size
    ensures B[r].status == Live ==> Entry(m, B, r, w)
  {
    m[r..r + 2 * B[r].size - 1]
  }

  lemma Bounds(m: seq<Word>, E: nat, B: Blocks, r: nat)
    requires Layout(m, E, B) && r in B
    ensures r + 2 * B[r].size <= |m| && B[r].size >= 1 && r != 0
  {
    assert BlockOk(m, B, r);
  }

  /** Handle `h` moves to block `r`, or is gone when `r` is null; all others stay as they are. */
  lemma Rehandle(m: seq<Word>, m': seq<Word>, B: Blocks, B': Blocks, ptrs: seq<nat>, s: seq<Slot>, h: nat, r: nat,
      slot: Slot)
    requires Holds(m, B, ptrs, s) && h < |s| && Kept(m, m', B, B', ptrs[h]) && (r == 0 <==> slot.Gone?)
    requires r != 0 ==> Entry(m', B', r, slot.words) && (r == ptrs[h] || Unused(B, r))
    requires ptrs[h] != 0 || B' == B || r == 0
    ensures Holds(m', B', ptrs[h := r], s[h := slot])
  {
    hide Kept;
    forall k | 0 <= k < |s| && k != h && s[k].Has? ensures Entry(m', B', ptrs[k], s[k].words) && ptrs[k] != r {
      assert Entry(m, B, ptrs[k], s[k].words);
      assert ptrs[k] != ptrs[h];
      EntryKept(m, m', B, B', ptrs[h], ptrs[k], s[k].words);
    }
  }

  /** A new handle. */
  lemma Handle(m: seq<Word>, m': seq<Word>, B: Blocks, B': Blocks, ptrs: seq<nat>, s: seq<Slot>, r: nat, slot: Slot)
    requires Holds(m, B, ptrs, s) && (r == 0 <==> slot.Gone?)
    requires if r == 0 then m' == m && B' == B
      else Kept(m, m', B, B', 0) && Entry(m', B', r, slot.words) && Unused(B, r)
    ensures Holds(m', B', ptrs + [r], s + [slot])
  {
    hide Kept;
    forall k | 0 <= k < |s| && s[k].Has? ensures Entry(m', B', ptrs[k], s[k].words) && ptrs[k] != r {
      assert Entry(m, B, ptrs[k], s[k].words);
      if r != 0 { EntryKept(m, m', B, B', 0, ptrs[k], s[k].words); }
    }
  }

  class Program {
    const heap: TreeAllocator
    var ptrs: seq<nat>          // the pointer behind each handle, null once it is freed
    ghost var slots: seq<Slot>

    ghost predicate Valid()
      reads this, heap, heap.mem
    {
      heap.Valid() && Holds(heap.mem[..], heap.blocks, ptrs, slots)
    }

    ghost function Now(): Moment
      reads this, heap, heap.mem
    {
      Moment(slots, ptrs, heap.mem[..], heap.brk, heap.blocks)
    }

    constructor (capacity: nat)
      requires capacity >= FIRST + 2 * CHUNK
      ensures Valid() && slots == [] && fresh(heap) && fresh(heap.mem)
    {
      var a := new TreeAllocator(capacity);
      heap := a;
      ptrs, slots := [], [];
      new;
      var r := heap.Init();
    }

    method DoAlloc(bytes: nat)
      requires Valid()
      modifies this, heap, heap.mem
      ensures Valid() && Moves(old(Now()), Alloc(bytes), Now())
    {
      hide Kept, Holds, Layout, NoFit, EndStart, Allocated;
      ghost var m, B := heap.mem[..], heap.blocks;
      var r := heap.Malloc(bytes);
      ghost var slot := Gone;
      if r != 0 {
        Bounds(heap.mem[..], heap.brk, heap.blocks, r);
        slot := Has(Body(heap.mem[..], heap.blocks, r));
      }
      Handle(m, heap.mem[..], B, heap.blocks, ptrs, slots, r, slot);
      ptrs, slots := ptrs + [r], slots + [slot];
    }

    method DoDrop(h: nat)
      requires Valid()
      modifies this, heap, heap.mem
      ensures Valid() && Moves(old(Now()), Drop(h), Now())
    {
      hide Kept, Holds, Entry, Layout, Join, FreeRun;
      Lookup(h);
      if h < |ptrs| && ptrs[h] != 0 {
        var p := ptrs[h];
        ghost var m, B := heap.mem[..], heap.blocks;
        ghost var lo, hi := heap.Release(p);
        Rehandle(m, heap.mem[..], B, heap.blocks, ptrs, slots, h, 0, Gone);
        ptrs, slots := ptrs[h := 0], slots[h := Gone];
      }
    }

    /** What the table says about handle `h`. */
    lemma Lookup(h: nat)
      requires Valid()
      ensures |ptrs| == |slots|
      ensures h < |slots| ==> (ptrs[h] == 0 <==> slots[h].Gone?)
      ensures h < |slots| && ptrs[h] != 0 ==> Entry(heap.mem[..], heap.blocks, ptrs[h], slots[h].words)
      ensures h < |slots| && ptrs[h] != 0 ==> ptrs[h] in heap.blocks && heap.blocks[ptrs[h]].status == Live
      ensures h < |slots| && ptrs[h] != 0 ==> |slots[h].words| == 2 * heap.blocks[ptrs[h]].size - 1
      ensures NoLoose(heap.blocks) &&
        forall b {:trigger heap.blocks[b]} ::
        b in heap.blocks && heap.blocks[b].status == Limbo ==> h < |ptrs| && b == ptrs[h]
      ensures h < |slots| && slots[h].Gone? ==> slots[h := Gone] == slots
    {
    }

    /** What an mm_realloc without memory leaves: only the address of the block is lost. */
    ghost predicate OnlyLost(h: nat)
      reads this, heap, heap.mem
    {
      h < |slots| == |ptrs| && slots[h].Has? && Stranded(heap.mem[..], heap.blocks, slots[h].words) &&
        Holds(heap.mem[..], heap.blocks, ptrs[h := 0], slots[h := Gone])
    }

    method DoResize(h: nat, bytes: nat) returns (ok: bool)
      requires Valid()
      modifies this, heap, heap.mem
      ensures ok ==> Valid() && Moves(old(Now()), Resize(h, bytes), Now())
      ensures !ok ==> slots == old(slots) && Stuck(old(Now()), h, bytes)
      ensures !ok ==> OnlyLost(h)
    {
      hide Kept, Holds, Layout, NoneNew, Payload, Entry, Settled, NoLoose, Survives, Stranded, Unused,
        Answer, Refused, EndStart, Back, Allocated, NoFit, Separated, Exhausted;
      Lookup(h);
      ok := true;
      if h < |ptrs| && ptrs[h] != 0 {
        var p := ptrs[h];
        ghost var m, B, w := heap.mem[..], heap.blocks, slots[h].words;
        Bounds(m, heap.brk, B, p);
        var r := heap.Realloc(p, bytes);
        if r == 0 && bytes > 0 {
          Rehandle(m, heap.mem[..], B, heap.blocks, ptrs, slots, h, 0, Gone);
          StrandedAt(m, B, p, w, heap.mem[..], heap.blocks);
          return false;
        }
        ghost var slot := Gone;
        if r != 0 {
          Bounds(heap.mem[..], heap.brk, heap.blocks, r);
          slot := Has(Body(heap.mem[..], heap.blocks, r));
          Grows(m, heap.mem[..], B, heap.blocks, p, r, w);
        }
        Rehandle(m, heap.mem[..], B, heap.blocks, ptrs, slots, h, r, slot);
        ptrs, slots := ptrs[h := r], slots[h := slot];
      }
    }

    method DoPut(h: nat, i: nat, w: Word)
      requires Valid()
      modifies this, heap.mem
      ensures Valid() && Moves(old(Now()), Put(h, i, w), Now())
    {
      hide Kept, Holds, Layout, Entry, Settled;
      Lookup(h);
      if h < |ptrs| && ptrs[h] != 0 {
        // a program stays inside its payload
        var p := ptrs[h];
        ghost var m, B, ws := heap.mem[..], heap.blocks, slots[h].words;
        Bounds(m, heap.brk, B, p);
        HeaderWord(p);
        if i + 1 < 2 * heap.mem[p - 1].hi {
          heap.Store(p, i, w);
          Overwritten(m, heap.mem[..], B, p, i, w, ws);
          Rehandle(m, heap.mem[..], B, B, ptrs, slots, h, p, Has(ws[i := w]));
          assert ptrs[h := p] == ptrs;
          slots := slots[h := Has(ws[i := w])];
        }
      }
    }

    lemma HeaderWord(p: nat)
      requires Valid() && p in heap.blocks
      ensures 1 <= p < heap.mem.Length && heap.mem[p - 1].hi == heap.blocks[p].size
    {
      assert BlockOk(heap.mem[..], heap.blocks, p);
    }

    /** Any run: every operation has its abstract effect, and no operation disturbs another handle.
        The run stops early only when mm_realloc runs out of memory, and then all contents are still there. */
    method Run(ops: seq<Op>) returns (done: nat, ghost trace: seq<Moment>)
      requires Valid()
      modifies this, heap, heap.mem
      ensures done <= |ops| && |trace| == done + 1 && trace[0] == old(Now()) && trace[done].slots == slots
      ensures forall i :: 0 <= i < done ==> Moves(trace[i], ops[i], trace[i + 1])
      ensures done == |ops| ==> Valid() && trace[done] == Now()
      ensures done < |ops| ==>
        ops[done].Resize? && Stuck(trace[done], ops[done].h, ops[done].bytes) && OnlyLost(ops[done].h)
    {
      hide Moves, Holds, TreeAllocator.Valid, OnlyLost, Stuck;
      done, trace := 0, [Now()];
      while done < |ops|
        invariant done <= |ops| && |trace| == done + 1 && trace[0] == old(Now()) && trace[done] == Now() && Valid()
        invariant forall i :: 0 <= i < done ==> Moves(trace[i], ops[i], trace[i + 1])
        decreases |ops| - done
      {
        var ok := true;
        ghost var before := Now();
        match ops[done] {
          case Alloc(n) => DoAlloc(n);
          case Drop(h) => DoDrop(h);
          case Resize(h, n) => ok := DoResize(h, n);
          case Put(h, i, w) => DoPut(h, i, w);
        }
        if !ok {
          return;
        }
        assert Moves(before, ops[done], Now());
        trace := trace + [Now()];
        done := done + 1;
      }
    }
  }

  lemma Grows(m: seq<Word>, m': seq<Word>, B: Blocks, B': Blocks, p: nat, r: nat, w: seq<Word>)
    requires Entry(m, B, p, w) && Payload(m, m', p, r, B[p].size) && r in B' && B[p].size <= B'[r].size &&
      r + 2 * B'[r].size <= |m'|
    ensures 1 <= B'[r].size && w <= Body(m', B', r)
  {
    var d := B[p].size;
    assert w == m'[r..r + 2 * d - 1];
    assert Body(m', B', r)[..2 * d - 1] == m'[r..r + 2 * d - 1];
  }

  lemma Overwritten(m: seq<Word>, m': seq<Word>, B: Blocks, p: nat, i: nat, x: Word, w: seq<Word>)
    requires Entry(m, B, p, w) && i < |w| && p + i < |m| && m' == m[p + i := x]
    ensures Entry(m', B, p, w[i := x])
  {
  }
}
