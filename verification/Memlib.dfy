/**
 The heap-growth contract of memlib.c.
 */
module Memlib {
  import opened Words

  /** mem_sbrk: moves the break `brk` up by `n` words, or fails when they do not fit below `limit`. */
  method Sbrk(brk: nat, n: nat, limit: nat) returns (p: int, brk': nat)
    ensures if brk + n > limit then p == -1 && brk' == brk else p == brk && brk' == brk + n
  {
    if brk + n > limit {
      return -1, brk;
    }
    p, brk' := brk, brk + n;
  }

  /** memmove towards lower addresses, and memcpy when the two areas do not overlap. */
  method Copy(mem: array<Word>, dst: nat, src: nat, n: nat)
    requires dst <= src || src + n <= dst
    requires src + n <= mem.Length && dst + n <= mem.Length
    modifies mem
    ensures mem[..] == old(mem[..])[..dst] + old(mem[..])[src..src + n] + old(mem[..])[dst + n..]
  {
    ghost var m := mem[..];
    var i := 0;
    while i < n
      invariant 0 <= i <= n
      invariant forall k :: dst <= k < dst + i ==> mem[k] == m[src + k - dst]
      invariant forall k :: 0 <= k < mem.Length && (k < dst || dst + i <= k) ==> mem[k] == m[k]
    {
      mem[dst + i] := mem[src + i];
      i := i + 1;
    }
    Moved(m, mem[..], dst, src, n);
  }

  lemma Moved(m: seq<Word>, m': seq<Word>, dst: nat, src: nat, n: nat)
    requires src + n <= |m| == |m'| && dst + n <= |m|
    requires forall k :: dst <= k < dst + n ==> m'[k] == m[src + k - dst]
    requires forall k :: 0 <= k < |m| && (k < dst || dst + n <= k) ==> m'[k] == m[k]
    ensures m' == m[..dst] + m[src..src + n] + m[dst + n..]
  {
    assert m'[..dst] == m[..dst];
    assert m'[dst..dst + n] == m[src..src + n];
    assert m'[dst + n..] == m[dst + n..];
    assert m' == m'[..dst] + m'[dst..dst + n] + m'[dst + n..];
  }
}
