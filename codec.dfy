/** Block codec of the allocator: how a block's size and allocated bit share
    one 32-bit boundary-tag word, the word-level bit operations that pack and
    unpack it, and the size-rounding rules of mm_malloc, mm_realloc and
    extend_heap. Everything here is pure. */
module Codec {

  /** A 32-bit unsigned machine word (`unsigned int`, and `size_t` on the
      32-bit target the allocator's layout assumes). */
  newtype Word = x: int | 0 <= x < 0x1_0000_0000

  const WSIZE: nat := 4           // word and header/footer size in bytes
  const ALIGNMENT: nat := 8       // double-word alignment of every block
  const CHUNKSIZE: nat := 4096    // default heap extension in bytes
  const MINBLOCKSIZE: nat := 16   // header + two links + footer
  const SIZE_MASK: nat := 0xFFFF_FFF8   // ~0x7 converted to a 32-bit unsigned int

  /** Bitwise OR of two naturals, bit by bit from the least significant end. */
  function BitOr(x: nat, y: nat): nat
  {
    if x == 0 then y
    else if y == 0 then x
    else 2 * BitOr(x / 2, y / 2) + (if x % 2 == 1 || y % 2 == 1 then 1 else 0)
  }

  /** Bitwise AND of two naturals, bit by bit from the least significant end. */
  function BitAnd(x: nat, y: nat): nat
  {
    if x == 0 || y == 0 then 0
    else 2 * BitAnd(x / 2, y / 2) + (if x % 2 == 1 && y % 2 == 1 then 1 else 0)
  }

  /** The number whose k low bits are ones: 2^k - 1. */
  function Ones(k: nat): nat
  {
    if k == 0 then 0 else 2 * Ones(k - 1) + 1
  }

  lemma Ones29()
    ensures Ones(29) == 0x1FFF_FFFF
  {
    assert Ones(8) == 0xFF;
    assert Ones(16) == 0xFFFF;
    assert Ones(24) == 0xFF_FFFF;
  }

  /** AND with k low one-bits keeps any value that fits in k bits. */
  lemma {:induction false} AndLowOnes(x: nat, k: nat)
    requires x <= Ones(k)
    ensures BitAnd(x, Ones(k)) == x
  {
    if x != 0 {
      AndLowOnes(x / 2, k - 1);
    }
  }

  /** A clear low bit in the mask clears the low bit of the result. */
  lemma AndEvenMask(x: nat, y: nat)
    requires y % 2 == 0
    ensures BitAnd(x, y) == 2 * BitAnd(x / 2, y / 2)
  {
  }

  /** OR-ing a 0/1 flag into an even number adds it. */
  lemma {:induction false} OrIntoEven(s: nat, a: nat)
    requires s % 2 == 0 && a <= 1
    ensures BitOr(s, a) == s + a
  {
    if s != 0 && a != 0 {
      assert BitOr(s / 2, a / 2) == s / 2;
    }
  }

  /** GET_SIZE(w) = w & ~0x7: a multiple of 8; `SizeClearsLowBits` says
      which one. */
  function GetSize(w: Word): (s: Word)
    ensures s as int % ALIGNMENT == 0
  {
    SizeClearsLowBits(w);
    BitAnd(w as nat, SIZE_MASK) as Word
  }

  /** GET_SIZE clears exactly the three low bits of the word. */
  lemma SizeClearsLowBits(w: Word)
    ensures BitAnd(w as nat, SIZE_MASK) == w as int - w as int % ALIGNMENT
  {
    var x := w as nat;
    Ones29();
    AndLowOnes(x / 8, 29);
    AndEvenMask(x / 4, 0x3FFF_FFFE);
    AndEvenMask(x / 2, 0x7FFF_FFFC);
    AndEvenMask(x, 0xFFFF_FFF8);
    calc {
      BitAnd(x, SIZE_MASK);
      2 * BitAnd(x / 2, 0x7FFF_FFFC);
      4 * BitAnd(x / 2 / 2, 0x3FFF_FFFE);
      { assert x / 2 / 2 / 2 == x / 8; }
      8 * BitAnd(x / 8, 0x1FFF_FFFF);
      8 * (x / 8);
    }
  }

  /** GET_ALLOC(w) = w & 0x1: the allocated bit. */
  function GetAlloc(w: Word): (a: Word)
    ensures a as int == w as int % 2
  {
    assert BitAnd(w as nat / 2, 0) == 0;
    BitAnd(w as nat, 1) as Word
  }

  /** PACK(size, alloc) = size | alloc. Every caller packs a multiple of 8
      with a 0/1 flag, and then the word unpacks to exactly what was packed. */
  function Pack(size: Word, alloc: Word): (w: Word)
    requires size as int % ALIGNMENT == 0 && alloc <= 1
    ensures w as int == size as int + alloc as int
    ensures GetSize(w) == size && GetAlloc(w) == alloc
  {
    var q := size as int / ALIGNMENT;
    assert size as int == ALIGNMENT * q;
    assert size as int + alloc as int < 0x1_0000_0000;
    OrIntoEven(size as nat, alloc as nat);
    UnpackTag(size, alloc);
    BitOr(size as nat, alloc as nat) as Word
  }

  /** A multiple of 8 plus a 0/1 flag unpacks to the two again. */
  lemma UnpackTag(size: Word, alloc: Word)
    requires size as int % ALIGNMENT == 0 && alloc <= 1
    requires size as int + alloc as int < 0x1_0000_0000
    ensures GetSize((size as int + alloc as int) as Word) == size
    ensures GetAlloc((size as int + alloc as int) as Word) == alloc
  {
    var v := size as int + alloc as int;
    assert v % ALIGNMENT == alloc as int;
    SizeClearsLowBits(v as Word);
    assert BitAnd(v as nat, SIZE_MASK) == size as int;
    assert v % 2 == alloc as int;
  }

  /** The adjusted block size of mm_malloc and mm_realloc, in unbounded
      arithmetic: 16 for requests up to 8 bytes, otherwise the request plus
      header and footer rounded up to a multiple of 8. It is the least
      multiple of 8 that holds the request and both tags and is at least the
      minimum block size. */
  function AdjustSize(size: nat): (asize: nat)
    ensures asize % ALIGNMENT == 0 && asize >= MINBLOCKSIZE && asize >= size + ALIGNMENT
    ensures size > 0 ==> asize < size + 2 * ALIGNMENT
    ensures forall k: nat :: k % ALIGNMENT == 0 && k >= MINBLOCKSIZE && k >= size + ALIGNMENT ==> asize <= k
  {
    if size <= ALIGNMENT then MINBLOCKSIZE
    else ALIGNMENT * ((size + ALIGNMENT + (ALIGNMENT - 1)) / ALIGNMENT)
  }

  /** The same expression evaluated in 32-bit size_t arithmetic, as mm_malloc
      computes it: the sum and the product wrap modulo 2^32. */
  function AdjustSizeAsWritten(size: Word): (asize: nat)
    ensures asize < 0x1_0000_0000 && asize % ALIGNMENT == 0
  {
    if size as nat <= ALIGNMENT then MINBLOCKSIZE
    else (ALIGNMENT * (((size as nat + ALIGNMENT + (ALIGNMENT - 1)) % 0x1_0000_0000) / ALIGNMENT)) % 0x1_0000_0000
  }

  /** Below the wrap-around point the 32-bit computation is the intended one. */
  lemma AdjustSizeAsWrittenAgrees(size: Word)
    requires size as nat + 15 < 0x1_0000_0000
    ensures AdjustSizeAsWritten(size) == AdjustSize(size as nat)
  {
  }

  /** A request of 2^32 - 8 bytes is adjusted to a block of 0 bytes. */
  lemma AdjustSizeAsWrittenWraps()
    ensures AdjustSizeAsWritten(0xFFFF_FFF8) == 0
    ensures AdjustSizeAsWritten(0xFFFF_FFF8) < AdjustSize(0xFFFF_FFF8)
  {
  }

  /** The 32-bit two's-complement `int` that an integer wraps to. */
  function Int32(x: int): (v: int)
    ensures -0x8000_0000 <= v < 0x8000_0000
    ensures (v - x) % 0x1_0000_0000 == 0
  {
    (x + 0x8000_0000) % 0x1_0000_0000 - 0x8000_0000
  }

  /** `(int)a - (int)b` on two size_t values, as mm_realloc computes the
      difference of the old and new block sizes: both casts and the
      subtraction wrap modulo 2^32, as they do on two's-complement targets
      (C leaves an overflowing `int` subtraction undefined). */
  function CastDiff(a: Word, b: Word): int
  {
    Int32(Int32(a as int) - Int32(b as int))
  }

  /** When the true difference fits an `int`, the wrapped one is exact,
      even if a cast on the way made a size negative. */
  lemma CastDiffExact(a: Word, b: Word)
    requires -0x8000_0000 <= a as int - b as int < 0x8000_0000
    ensures CastDiff(a, b) == a as int - b as int
  {
    var d := Int32(a as int) - Int32(b as int);
    assert (d - (a as int - b as int)) % 0x1_0000_0000 == 0;
    assert (Int32(d) - (a as int - b as int)) % 0x1_0000_0000 == 0;
  }

  /** A request just below 2^31 bytes rounds to a new size whose cast is
      negative: there the subtraction overflows an `int`, and only the
      wrap-around gives back the true difference. */
  lemma CastDiffOverflows()
    ensures Int32(AdjustSize(0x7FFF_FFFF)) < 0
    ensures Int32(16) - Int32(AdjustSize(0x7FFF_FFFF)) >= 0x8000_0000
    ensures CastDiff(16, AdjustSize(0x7FFF_FFFF) as Word) == 16 - AdjustSize(0x7FFF_FFFF)
  {
    CastDiffExact(16, AdjustSize(0x7FFF_FFFF) as Word);
  }

  /** extend_heap's byte count: an odd word count is bumped to even, so the
      new block keeps the double-word alignment. */
  function ExtendBytes(words: nat): (size: nat)
    ensures size % ALIGNMENT == 0
    ensures WSIZE * words <= size < WSIZE * words + ALIGNMENT
    ensures words % 2 == 0 ==> size == WSIZE * words
  {
    if words % 2 == 1 then (words + 1) * WSIZE else words * WSIZE
  }

  /** A size that is a multiple of 8 bytes is an even number of words. */
  lemma WordsOfBytes(x: nat)
    requires x % ALIGNMENT == 0
    ensures x / WSIZE * WSIZE == x && (x / WSIZE) % 2 == 0
  {
  }

  /** Sums of aligned sizes are aligned. */
  lemma AlignedSum(x: nat, y: nat)
    requires x % ALIGNMENT == 0 && y % ALIGNMENT == 0
    ensures (x + y) % ALIGNMENT == 0
  {
  }

  function Max(x: nat, y: nat): (m: nat)
    ensures m >= x && m >= y && (m == x || m == y)
  {
    if x > y then x else y
  }
}
