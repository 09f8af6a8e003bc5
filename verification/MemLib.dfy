/** The simulated memory system of memlib.c: one region of MAX_HEAP bytes and a
    break that only moves up, except for a reset.

    Addresses are byte offsets from the start of the region, which the C library
    hands out 8-aligned.  The 32-bit word whose first byte is at offset a is kept
    at mem[a]; words are only ever read and written at offsets divisible by 4, so
    two different words never share a byte. */
module MemLib {

  const MAX_HEAP: nat := 20 * 0x10_0000
  const WORD_LIMIT: nat := 0x1_0000_0000

  /** Where a word may start. */
  predicate WordAddress(a: int) {
    a % 4 == 0
  }

  type Word = w: int | 0 <= w < WORD_LIMIT

  class Arena {
    const mem: array<Word>
    var brk: nat

    ghost predicate Valid()
      reads this
    {
      mem.Length == MAX_HEAP && brk <= MAX_HEAP
    }

    constructor ()
      ensures Valid() && brk == 0 && fresh(mem)
    {
      mem := new Word[MAX_HEAP];
      brk := 0;
    }

    method ResetBrk()
      requires Valid()
      modifies this
      ensures Valid() && brk == 0
    {
      brk := 0;
    }

    /** Grows the region by incr bytes and returns the old break, or returns -1
        and changes nothing when incr is negative or the region is exhausted. */
    method Sbrk(incr: int) returns (oldBrk: int)
      requires Valid()
      modifies this
      ensures Valid()
      ensures oldBrk == -1 <==> incr < 0 || old(brk) + incr > MAX_HEAP
      ensures oldBrk == -1 ==> brk == old(brk)
      ensures oldBrk != -1 ==> oldBrk == old(brk) && brk == old(brk) + incr
    {
      if incr < 0 || brk + incr > MAX_HEAP {
        return -1;
      }
      oldBrk := brk;
      brk := brk + incr;
    }

    /** The first byte of the heap, its last byte, and how many there are. */
    function HeapLo(): (lo: int)
      ensures lo == 0
    {
      0
    }

    function HeapHi(): (hi: int)
      reads this
      ensures hi - HeapLo() + 1 == brk
    {
      brk - 1
    }

    function HeapSize(): (size: nat)
      reads this
      ensures size == brk == HeapHi() - HeapLo() + 1
    {
      brk
    }
  }
}
