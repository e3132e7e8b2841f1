/**
 The heap of the malloc lab as 4-byte words.

 An address is a word index, so the pointer that C code moves by WSIZE bytes moves by one
 here, and the first word of the heap is word 0.  A word is kept split as its upper 29
 bits and its three low bits, because header words use it that way: size in double words,
 colour, tag (is the previous block allocated?) and allocation bit.
 */
module Words {

  datatype Word = Word(hi: nat, b2: bool, b1: bool, b0: bool)

  function Bit(b: bool): nat { if b then 1 else 0 }

  /** The word as an unsigned number. */
  function Value(w: Word): nat { 8 * w.hi + 4 * Bit(w.b2) + 2 * Bit(w.b1) + Bit(w.b0) }

  function OfValue(v: nat): (w: Word)
    ensures Value(w) == v
  {
    var r := v % 8;
    Word(v / 8, r >= 4, r == 2 || r == 3 || r >= 6, r == 1 || r == 3 || r == 5 || r == 7)
  }

  /** The split loses nothing: a word is determined by its value. */
  lemma SplitIsExact(w: Word)
    ensures OfValue(Value(w)) == w
  {
  }

  /** PACK(size, alloc) for a size of `d` double words. */
  function Pack(d: nat, alloc: bool): Word { Word(d, false, false, alloc) }

  lemma PackValue(d: nat, alloc: bool)
    ensures Value(Pack(d, alloc)) == 8 * d + Bit(alloc)
  {
  }

  /** free_list_head, which is also NIL: the second word of the heap. */
  const NIL: nat := 1

  /** A link word holds the byte distance from free_list_head (macro OFFSET). */
  function Off(p: nat): (w: Word)
    requires NIL <= p
    ensures Ptr(w) == p
  {
    OfValue(4 * (p - NIL))
  }

  function Ptr(w: Word): nat { NIL + Value(w) / 4 }
}
