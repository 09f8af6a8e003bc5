/** The packed boundary tags of mm.c and the bit masks. */
module Packing {
  // The packed boundary tag of mm.c: a block size that is a multiple of 8, with the
  // "allocated" flag in bit 0 and the "previous block is allocated" tag in bit 1.  Bit 2
  // carries no meaning and may hold anything.

  import opened MemLib

  function LowBits(w: Word): nat {
    w % 8
  }

  function SizeOf(w: Word): nat {
    w - LowBits(w)
  }

  predicate AllocOf(w: Word) {
    LowBits(w) == 1 || LowBits(w) == 3 || LowBits(w) == 5 || LowBits(w) == 7
  }

  predicate TagOf(w: Word) {
    LowBits(w) == 2 || LowBits(w) == 3 || LowBits(w) == 6 || LowBits(w) == 7
  }

  function WithAlloc(w: Word, on: bool): Word {
    if AllocOf(w) == on then w else if on then w + 1 else w - 1
  }

  function WithTag(w: Word, on: bool): Word {
    if TagOf(w) == on then w else if on then w + 2 else w - 2
  }

  function WithSize(w: Word, size: nat): Word
    requires size <= MAX_HEAP && size % 8 == 0
  {
    size + LowBits(w)
  }

  /** Each update sets its own field and keeps the other two. */
  lemma AllocUpdate(w: Word, on: bool)
    ensures SizeOf(WithAlloc(w, on)) == SizeOf(w) && AllocOf(WithAlloc(w, on)) == on
    ensures TagOf(WithAlloc(w, on)) == TagOf(w)
  {
  }

  lemma TagUpdate(w: Word, on: bool)
    ensures SizeOf(WithTag(w, on)) == SizeOf(w) && AllocOf(WithTag(w, on)) == AllocOf(w) && TagOf(WithTag(w, on)) == on
  {
  }

  lemma SizeUpdate(w: Word, size: nat)
    requires size <= MAX_HEAP && size % 8 == 0
    ensures SizeOf(WithSize(w, size)) == size && AllocOf(WithSize(w, size)) == AllocOf(w)
    ensures TagOf(WithSize(w, size)) == TagOf(w)
  {
  }

  /** PACK(size, 0) and the two epilogue words. */
  lemma PlainWords(size: nat)
    requires size <= MAX_HEAP && size % 8 == 0
    ensures SizeOf(size) == size && !AllocOf(size) && !TagOf(size)
    ensures SizeOf(1) == 0 && AllocOf(1) && !TagOf(1)
    ensures SizeOf(3) == 0 && AllocOf(3) && TagOf(3)
  {
  }

  // The C code works on 32-bit vectors with masks

  /** The number whose lowest k bits are those of b. */
  function Value(b: bv32, k: nat): nat {
    if k == 0 then 0 else (if b & 1 != 0 then 1 else 0) + 2 * Value(b >> 1, k - 1)
  }

  function Power2(k: nat): nat {
    if k == 0 then 1 else 2 * Power2(k - 1)
  }

  lemma {:induction false} ValueFits(b: bv32, k: nat)
    ensures Value(b, k) < Power2(k)
  {
    if k > 0 {
      ValueFits(b >> 1, k - 1);
    }
  }

  lemma ThirtyTwoBits()
    ensures Power2(32) == WORD_LIMIT
  {
    assert Power2(8) == 0x100;
    assert Power2(16) == 0x1_0000 by { assert Power2(12) == 0x1000; }
    assert Power2(24) == 0x100_0000 by { assert Power2(20) == 0x10_0000; }
    assert Power2(28) == 0x1000_0000;
  }

  /** The word that a bit vector stands for. */
  function WordOf(b: bv32): Word {
    ValueFits(b, 32);
    ThirtyTwoBits();
    Value(b, 32)
  }

  function LowThree(x: bool, y: bool, z: bool): nat {
    (if x then 1 else 0) + (if y then 2 else 0) + if z then 4 else 0
  }

  lemma ThreeBits(b: bv32)
    ensures WordOf(b) == 8 * Value(b >> 3, 29) + LowThree(b & 1 != 0, b & 2 != 0, b & 4 != 0)
  {
    assert (b >> 1) >> 1 == b >> 2 && (b >> 2) >> 1 == b >> 3;
    assert (b >> 1) & 1 != 0 <==> b & 2 != 0;
    assert (b >> 2) & 1 != 0 <==> b & 4 != 0;
    assert Value(b >> 1, 31) == (if b & 2 != 0 then 1 else 0) + 2 * Value(b >> 2, 30);
    assert Value(b >> 2, 30) == (if b & 4 != 0 then 1 else 0) + 2 * Value(b >> 3, 29);
  }

  lemma FieldsOf(w: Word, q: nat, x: bool, y: bool, z: bool)
    requires w == 8 * q + LowThree(x, y, z)
    ensures SizeOf(w) == 8 * q && LowBits(w) == LowThree(x, y, z) && (AllocOf(w) <==> x) && (TagOf(w) <==> y)
  {
  }

  /** What a bit vector says, as a word. */
  lemma FieldsOfVector(b: bv32)
    ensures SizeOf(WordOf(b)) == 8 * Value(b >> 3, 29)
    ensures LowBits(WordOf(b)) == LowThree(b & 1 != 0, b & 2 != 0, b & 4 != 0)
    ensures AllocOf(WordOf(b)) <==> b & 1 != 0
    ensures TagOf(WordOf(b)) <==> b & 2 != 0
  {
    hide WordOf, LowThree, SizeOf, LowBits, AllocOf, TagOf;
    ThreeBits(b);
    FieldsOf(WordOf(b), Value(b >> 3, 29), b & 1 != 0, b & 2 != 0, b & 4 != 0);
  }

  lemma SizeMask(b: bv32)
    ensures (b & 0xFFFF_FFF8) >> 3 == b >> 3
    ensures (b & 0xFFFF_FFF8) & 1 == 0 && (b & 0xFFFF_FFF8) & 2 == 0 && (b & 0xFFFF_FFF8) & 4 == 0
  {
  }

  /** The fields above are the ones that the masks of GET_SIZE, GET_ALLOC and GET_TAG select. */
  lemma MasksSelectFields(b: bv32)
    ensures SizeOf(WordOf(b)) == WordOf(b & 0xFFFF_FFF8)
    ensures AllocOf(WordOf(b)) <==> b & 1 != 0
    ensures TagOf(WordOf(b)) <==> b & 2 != 0
  {
    hide WordOf, SizeOf, LowBits, AllocOf, TagOf, Value;
    FieldsOfVector(b);
    ThreeBits(b & 0xFFFF_FFF8);
    SizeMask(b);
  }

  /** Vectors that agree above the low three bits differ by those. */
  lemma OtherLowBits(b: bv32, c: bv32)
    requires b >> 3 == c >> 3
    ensures WordOf(c) - LowThree(c & 1 != 0, c & 2 != 0, c & 4 != 0) ==
            WordOf(b) - LowThree(b & 1 != 0, b & 2 != 0, b & 4 != 0)
  {
    hide WordOf, LowThree, Value;
    ThreeBits(b);
    ThreeBits(c);
  }

  lemma FlipLow(w: Word, x: bool, on: bool, y: bool, z: bool)
    requires AllocOf(w) <==> x
    ensures WithAlloc(w, on) == w - LowThree(x, y, z) + LowThree(on, y, z)
  {
    hide LowBits, AllocOf;
  }

  lemma AllocMasks(b: bv32)
    ensures b >> 3 == (b | 1) >> 3 && b >> 3 == (b & 0xFFFF_FFFE) >> 3
    ensures (b | 1) & 1 != 0 && (b & 0xFFFF_FFFE) & 1 == 0
    ensures (b | 1) & 2 == b & 2 && (b & 0xFFFF_FFFE) & 2 == b & 2 && (b | 1) & 4 == b & 4
    ensures (b & 0xFFFF_FFFE) & 4 == b & 4
  {
  }

  lemma SetAllocMask(b: bv32)
    ensures WithAlloc(WordOf(b), true) == WordOf(b | 1)
  {
    hide WordOf, SizeOf, LowBits, AllocOf, TagOf, LowThree, WithAlloc;
    FieldsOfVector(b);
    AllocMasks(b);
    OtherLowBits(b, b | 1);
    FlipLow(WordOf(b), b & 1 != 0, true, b & 2 != 0, b & 4 != 0);
  }

  lemma ClearAllocMask(b: bv32)
    ensures WithAlloc(WordOf(b), false) == WordOf(b & 0xFFFF_FFFE)
  {
    hide WordOf, SizeOf, LowBits, AllocOf, TagOf, LowThree, WithAlloc;
    FieldsOfVector(b);
    AllocMasks(b);
    OtherLowBits(b, b & 0xFFFF_FFFE);
    FlipLow(WordOf(b), b & 1 != 0, false, b & 2 != 0, b & 4 != 0);
  }

  lemma FlipMiddle(w: Word, x: bool, y: bool, on: bool, z: bool)
    requires TagOf(w) <==> y
    ensures WithTag(w, on) == w - LowThree(x, y, z) + LowThree(x, on, z)
  {
    hide LowBits, TagOf;
  }

  lemma TagMasks(b: bv32)
    ensures b >> 3 == (b | 2) >> 3 && b >> 3 == (b & 0xFFFF_FFFD) >> 3
    ensures (b | 2) & 2 != 0 && (b & 0xFFFF_FFFD) & 2 == 0
    ensures (b | 2) & 1 == b & 1 && (b & 0xFFFF_FFFD) & 1 == b & 1 && (b | 2) & 4 == b & 4
    ensures (b & 0xFFFF_FFFD) & 4 == b & 4
  {
  }

  lemma SetTagMask(b: bv32)
    ensures WithTag(WordOf(b), true) == WordOf(b | 2)
  {
    hide WordOf, SizeOf, LowBits, AllocOf, TagOf, LowThree, WithTag;
    FieldsOfVector(b);
    TagMasks(b);
    OtherLowBits(b, b | 2);
    FlipMiddle(WordOf(b), b & 1 != 0, b & 2 != 0, true, b & 4 != 0);
  }

  lemma ClearTagMask(b: bv32)
    ensures WithTag(WordOf(b), false) == WordOf(b & 0xFFFF_FFFD)
  {
    hide WordOf, SizeOf, LowBits, AllocOf, TagOf, LowThree, WithTag;
    FieldsOfVector(b);
    TagMasks(b);
    OtherLowBits(b, b & 0xFFFF_FFFD);
    FlipMiddle(WordOf(b), b & 1 != 0, b & 2 != 0, false, b & 4 != 0);
  }

  /** The updates above are the ones that SET_ALLOC, CLR_ALLOC, SET_TAG and CLR_TAG perform. */
  lemma MasksSetFlags(b: bv32)
    ensures WithAlloc(WordOf(b), true) == WordOf(b | 1)
    ensures WithAlloc(WordOf(b), false) == WordOf(b & 0xFFFF_FFFE)
    ensures WithTag(WordOf(b), true) == WordOf(b | 2)
    ensures WithTag(WordOf(b), false) == WordOf(b & 0xFFFF_FFFD)
  {
    hide WordOf, AllocOf, TagOf, LowThree, WithAlloc, WithTag;
    SetAllocMask(b);
    ClearAllocMask(b);
    SetTagMask(b);
    ClearTagMask(b);
  }

  lemma NoLowBits()
    ensures LowThree(false, false, false) == 0
  {
  }

  lemma SizeMasks(b: bv32, size: bv32)
    requires size & 7 == 0
    ensures size & 1 == 0 && size & 2 == 0 && size & 4 == 0 && (size | (b & 7)) >> 3 == size >> 3
    ensures (size | (b & 7)) & 1 == b & 1 && (size | (b & 7)) & 2 == b & 2 && (size | (b & 7)) & 4 == b & 4
  {
  }

  /** The update of the size is the one that SET_SIZE performs. */
  lemma MasksSetSize(b: bv32, size: bv32)
    requires size & 7 == 0 && WordOf(size) <= MAX_HEAP
    ensures WordOf(size) % 8 == 0 && WithSize(WordOf(b), WordOf(size)) == WordOf(size | (b & 7))
  {
    hide WordOf, SizeOf, AllocOf, TagOf, Value, LowThree;
    FieldsOfVector(b);
    FieldsOfVector(size);
    ThreeBits(size);
    ThreeBits(size | (b & 7));
    SizeMasks(b, size);
    NoLowBits();
  }
}
