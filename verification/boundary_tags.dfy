/** Word-level encoding shared by the three allocators: the constants, the
    packed header/footer word, the request-size adjustment and the
    navigation macros HDRP/FTRP/NEXT_BLKP/PREV_BLKP.

    The heap is a sequence of 4-byte words; a byte address a is the word
    index a / 4, the region starting at word 0.  A block is named by the word
    index of its payload (its "bp"); sizes stay in bytes, as in the headers. */
module BoundaryTags {

  const WSIZE: nat := 4
  const DSIZE: nat := 8
  const CHUNKSIZE: nat := 4096
  /** Header, footer and the two free-list links. */
  const MIN_BLOCK: nat := 16
  /** The null pointer; word 0 is alignment padding and never a payload. */
  const NULL: nat := 0

  /** GET_SIZE: the word with its three low bits cleared. */
  function SizeOf(w: nat): (s: nat)
    ensures s % 8 == 0 && s <= w < s + 8
  {
    w - w % 8
  }

  /** GET_ALLOC: the lowest bit. */
  function AllocOf(w: nat): (a: nat)
    ensures a <= 1 && (a == 1 <==> w % 2 == 1)
  {
    w % 2
  }

  /** PACK(size, alloc).  The size is a multiple of 8 and the flag is 0 or 1,
      so OR-ing the flag in is the same as adding it. */
  function Pack(size: nat, alloc: nat): (w: nat)
    requires size % 8 == 0 && alloc <= 1
    ensures SizeOf(w) == size && AllocOf(w) == alloc
  {
    AlignedPlus(size, alloc);
    size + alloc
  }

  /** A multiple of 8 plus a small remainder: the remainder is the low bits. */
  lemma AlignedPlus(size: nat, r: nat)
    requires size % 8 == 0 && r <= 1
    ensures (size + r) % 8 == r && (size + r) % 2 == r
  {
    var k := size / 8;
    assert size == 8 * k;
    Parity(4 * k, r);
  }

  lemma Parity(k: nat, r: nat)
    requires r < 2
    ensures (2 * k + r) % 2 == r
  {
  }

  /** Adding block sizes keeps them multiples of 8. */
  lemma SumAligned(a: nat, b: nat)
    requires a % 8 == 0 && b % 8 == 0
    ensures (a + b) % 8 == 0 && (a + b) / 4 == a / 4 + b / 4
  {
    var p, q := a / 8, b / 8;
    assert a == 8 * p && b == 8 * q;
  }

  /** Cutting a multiple of 8 off a multiple of 8 leaves a multiple of 8,
      and the words of the two parts add up. */
  lemma Parts(size: nat, a: nat)
    requires size % 8 == 0 && a % 8 == 0 && a <= size
    ensures (size - a) % 8 == 0 && size / 4 == a / 4 + (size - a) / 4
  {
    var q, r := a / 8, size / 8;
    assert a == 8 * q && size == 8 * r;
    assert size - a == 8 * (r - q);
    assert a / 4 == 2 * q && size / 4 == 2 * r && (size - a) / 4 == 2 * (r - q);
  }

  /** A multiple of 8 bytes is an even number of words. */
  lemma Quarter(size: nat)
    requires size % 8 == 0
    ensures size == 4 * (size / 4) && (size / 4) % 2 == 0
  {
    var k := size / 8;
    assert size == 8 * k;
    assert size / 4 == 2 * k;
    Parity(k, 0);
  }

  /** A number of double words is an even number of words. */
  lemma DoubleWords(words: nat)
    ensures (words * DSIZE) % 8 == 0 && (words * DSIZE) / 4 == 2 * words && (2 * words) % 2 == 0
  {
  }

  /** An even number of words is a multiple of 8 bytes. */
  lemma EvenWords(words: nat)
    requires words % 2 == 0
    ensures (words * WSIZE) % 8 == 0 && (words * WSIZE) / 4 == words
  {
    var k := words / 2;
    assert words == 2 * k;
    assert words * WSIZE == 8 * k;
  }

  /** The bytes between two double-word boundaries are a multiple of 8. */
  lemma Span(lo: nat, hi: nat)
    requires lo % 2 == 0 && hi % 2 == 0 && lo <= hi
    ensures (4 * (hi - lo)) % 8 == 0 && (4 * (hi - lo)) / 4 == hi - lo
  {
    var j, k := lo / 2, hi / 2;
    assert lo == 2 * j && hi == 2 * k;
    assert 4 * (hi - lo) == 8 * (k - j);
  }

  /** A block of a multiple of 8 bytes starting on a double word ends on one. */
  lemma EvenEnd(bp: nat, size: nat)
    requires bp % 2 == 0 && size % 8 == 0
    ensures (bp + size / 4) % 2 == 0
  {
    var j, k := bp / 2, size / 8;
    assert bp == 2 * j && size == 8 * k;
    Parity(j + 2 * k, 0);
  }

  /** The epilogue header PACK(0, 1). */
  const EPILOGUE: nat := 1

  /** The block size a request of `size` bytes asks for: room for header and
      footer, at least MIN_BLOCK, rounded up to the 8-byte alignment. */
  function AdjustSize(size: nat): (asize: nat)
    requires size > 0
    ensures asize % 8 == 0 && asize >= MIN_BLOCK && asize >= size + DSIZE
    ensures asize == MIN_BLOCK || asize < size + DSIZE + DSIZE
  {
    if size <= DSIZE then 2 * DSIZE
    else 8 * ((size + DSIZE + (DSIZE - 1)) / 8)
  }

  function Max(x: nat, y: nat): (m: nat)
    ensures m >= x && m >= y && (m == x || m == y)
  {
    if x > y then x else y
  }

  function Min(x: nat, y: nat): (m: nat)
    ensures m <= x && m <= y && (m == x || m == y)
  {
    if x < y then x else y
  }

  /** HDRP(bp): the header word just before the payload. */
  function Hdrp(bp: nat): nat
    requires bp >= 1
  {
    bp - 1
  }

  /** FTRP(bp): the last word of the block, located through the header. */
  function Ftrp(mem: seq<nat>, bp: nat): int
    requires 1 <= bp <= |mem|
  {
    bp + SizeOf(mem[bp - 1]) / 4 - 2
  }

  /** NEXT_BLKP(bp): the payload after this block, located through the header. */
  function NextBlkp(mem: seq<nat>, bp: nat): nat
    requires 1 <= bp <= |mem|
  {
    bp + SizeOf(mem[bp - 1]) / 4
  }

  /** PREV_BLKP(bp): the payload of the previous block, located through the
      previous block's footer, the word before this block's header. */
  function PrevBlkp(mem: seq<nat>, bp: nat): int
    requires 2 <= bp <= |mem| + 1
  {
    bp - SizeOf(mem[bp - 2]) / 4
  }
}
