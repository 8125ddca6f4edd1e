/** What both allocators make of a request in bytes. */
module Requests {

  import opened HeapLayout

  /** The block size for a request, in bytes. */
  function AdjustedSize(size: nat): (asize: nat)
    requires size > 0
    ensures asize % 8 == 0 && 16 <= asize && size + 8 <= asize < size + 16
  {
    if size <= 8 then 16 else 8 * ((size + 8 + 7) / 8)
  }

  /** It is the least multiple of 8 that is a block and has room for the request and two tags. */
  lemma AdjustedIsLeast(size: nat, a: nat)
    requires size > 0 && a % 8 == 0
    ensures 16 <= a && size + 8 <= a <==> AdjustedSize(size) <= a
  {
    var s := AdjustedSize(size);
    assert s == 8 * (s / 8) && a == 8 * (a / 8);
  }

  /** ... and in words. */
  function WordsFor(size: nat): (n: nat)
    requires size > 0
    ensures 4 * n == AdjustedSize(size) && 4 <= n && n % 2 == 0 && size + 8 <= 4 * n < size + 16
  {
    HalfOf(AdjustedSize(size) / 8, AdjustedSize(size) / 4);
    AdjustedSize(size) / 4
  }

  lemma HalfOf(k: nat, n: nat)
    requires n == 2 * k
    ensures n % 2 == 0
  {
  }

  /** A pointer handed out is aligned to 8 bytes; the bytes behind it are at least those asked for, and its
      block is less than 32 bytes bigger. */
  lemma PayloadFits(L: Layout, lo: int, hi: int, cap: int, size: nat, r: int, L': Layout, hi': int)
    requires WellFormed(L, lo, hi) && 2 <= lo && hi % 2 == 0 && size > 0
    requires Allocates(L, hi, cap, WordsFor(size), r, L', hi') && r != 0
    ensures Live(L', r) && r % 2 == 0 && size <= 4 * (L'[r].size - 2) && 4 * L'[r].size < size + 32
  {
    hide WellFormed, Allocates, WordsFor;
    AllocatesWellFormed(L, lo, hi, cap, WordsFor(size), r, L', hi');
    assert r in LiveBlocks(L');
  }

  /** How much `mm_realloc` promises to keep: the smaller of the request and the old payload. */
  ghost function MovedBytes(L: Layout, p: int, size: nat): (n: nat)
    requires p in L && 2 <= L[p].size
    ensures n <= size && n <= 4 * (L[p].size - 2) && (n == size || n == 4 * (L[p].size - 2))
  {
    if size < 4 * (L[p].size - 2) then size else 4 * (L[p].size - 2)
  }

  /** The break moves only if nothing fits, and then by the block asked for or by 4096 bytes, whichever is
      more. */
  lemma BreakMoves(L: Layout, hi: int, cap: int, size: nat, r: int, L': Layout, hi': int)
    requires size > 0 && Allocates(L, hi, cap, WordsFor(size), r, L', hi')
    ensures hi' != hi ==> NoFit(L, WordsFor(size))
    ensures hi' != hi ==> 4 * (hi' - hi) == if AdjustedSize(size) > 4096 then AdjustedSize(size) else 4096
    ensures NoFit(L, WordsFor(size)) ==> (hi' == hi <==> 4 * hi + 4096 > 4 * cap || 4 * hi + AdjustedSize(size) > 4 * cap)
  {
  }
}
