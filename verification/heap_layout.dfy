/** The block layout both allocators keep: which words of the heap belong to which block.

    A block is named by its payload pointer `p`, counted in 32-bit words from the start of the
    heap.  Its header is word `p - 1`, its footer word `p + size - 2`, and the payload pointer of
    the next block is `p + size`.  `lo` is the payload pointer of the first block after the
    prologue and `hi` the current break. */
module HeapLayout {

  datatype Block = Block(size: nat, alloc: bool)

  type Layout = map<int, Block>

  ghost predicate EndsAt(L: Layout, p: int, q: int) {
    p in L && p + L[p].size == q
  }

  ghost predicate Aligned(L: Layout) {
    forall p :: p in L ==> p % 2 == 0 && L[p].size % 2 == 0
  }

  ghost predicate Bounded(L: Layout, lo: int, hi: int) {
    forall p :: p in L ==> lo <= p && 4 <= L[p].size && p + L[p].size <= hi
  }

  ghost predicate Disjoint(L: Layout) {
    forall p, q :: p in L && q in L && p < q ==> p + L[p].size <= q
  }

  ghost predicate Linked(L: Layout, hi: int) {
    forall p {:trigger Continues(L, hi, p)} :: p in L ==> Continues(L, hi, p)
  }

  /** The blocks follow one another without overlap from `lo` up to `hi`. */
  ghost predicate Tiles(L: Layout, lo: int, hi: int) {
    && lo <= hi
    && (lo in L || lo == hi)
    && Aligned(L)
    && Bounded(L, lo, hi)
    && Linked(L, hi)
    && Disjoint(L)
  }

  /** After block `p` comes another block or the end of the heap. */
  ghost predicate Continues(L: Layout, hi: int, p: int)
    requires p in L
  {
    p + L[p].size in L || p + L[p].size == hi
  }

  ghost predicate NoAdjacentFree(L: Layout) {
    forall p {:trigger FreePair(L, p)} :: p in L ==> !FreePair(L, p)
  }

  /** Block `p` and the one after it are both free. */
  ghost predicate FreePair(L: Layout, p: int)
    requires p in L
  {
    !L[p].alloc && p + L[p].size in L && !L[p + L[p].size].alloc
  }

  ghost predicate WellFormed(L: Layout, lo: int, hi: int) {
    Tiles(L, lo, hi) && NoAdjacentFree(L)
  }

  ghost predicate Live(L: Layout, p: int) {
    p in L && L[p].alloc
  }

  /** What the clients of the allocator own: payload pointer to block size. */
  ghost function LiveBlocks(L: Layout): map<int, nat> {
    map p | p in L && L[p].alloc :: L[p].size
  }

  ghost predicate Fits(L: Layout, n: int, p: int) {
    p in L && !L[p].alloc && n <= L[p].size
  }

  ghost predicate NoFit(L: Layout, n: int) {
    forall p :: p in L ==> !Fits(L, n, p)
  }

  ghost predicate IsFirstFit(L: Layout, n: int, p: int) {
    Fits(L, n, p) && forall q :: q in L && q < p ==> !Fits(L, n, q)
  }

  /** Word `k` belongs to the block at `p`, tags included. */
  ghost predicate Owns(L: Layout, p: int, k: int) {
    p in L && p - 1 <= k < p + L[p].size - 1
  }

  ghost predicate InPayload(L: Layout, p: int, k: int) {
    p in L && p <= k < p + L[p].size - 2
  }

  // ----- the steps of the allocators, on layouts

  function SetAlloc(L: Layout, p: int, a: bool): Layout
    requires p in L
  {
    L[p := Block(L[p].size, a)]
  }

  function Merge(L: Layout, p: int): Layout
    requires p in L && p + L[p].size in L
  {
    var n := p + L[p].size;
    (L - {n})[p := Block(L[p].size + L[n].size, L[p].alloc)]
  }

  function Split(L: Layout, p: int, n: nat): Layout
    requires p in L && n <= L[p].size
  {
    L[p := Block(n, L[p].alloc)][p + n := Block(L[p].size - n, L[p].alloc)]
  }

  /** `place`: split when at least a minimum block remains, then mark the front part allocated. */
  function Place(L: Layout, p: int, n: nat): Layout
    requires p in L && n <= L[p].size
  {
    if L[p].size - n >= 4 then SetAlloc(Split(L, p, n), p, true) else SetAlloc(L, p, true)
  }

  ghost predicate PredFree(L: Layout, p: int) {
    exists q :: EndsAt(L, q, p) && !L[q].alloc
  }

  ghost function PredOf(L: Layout, p: int): (q: int)
    requires exists q :: EndsAt(L, q, p)
    ensures EndsAt(L, q, p)
  {
    var q :| EndsAt(L, q, p);
    q
  }

  ghost predicate NextFree(L: Layout, p: int) {
    p in L && p + L[p].size in L && !L[p + L[p].size].alloc
  }

  /** `coalesce`: where the free block that contains block `p` starts, how big it is ... */
  ghost function CoalescedAt(L: Layout, p: int): int {
    if PredFree(L, p) then PredOf(L, p) else p
  }

  ghost function CoalescedSize(L: Layout, p: int): nat
    requires p in L
  {
    (if PredFree(L, p) then L[PredOf(L, p)].size else 0) + L[p].size
    + (if NextFree(L, p) then L[p + L[p].size].size else 0)
  }

  /** ... and the layout in which it has replaced `p` and its free neighbours. */
  ghost function Coalesce(L: Layout, p: int): Layout
    requires p in L
  {
    var absorbed := if NextFree(L, p) then {p, p + L[p].size} else {p};
    (L - absorbed)[CoalescedAt(L, p) := Block(CoalescedSize(L, p), false)]
  }

  /** `extend_heap`: a free block at the old break, then coalesced. */
  ghost function Extend(L: Layout, hi: int, n: nat): Layout
  {
    Coalesce(L[hi := Block(n, false)], hi)
  }

  ghost function Free(L: Layout, p: int): Layout
    requires p in L
  {
    Coalesce(SetAlloc(L, p, false), p)
  }

  lemma FitsLess(L: Layout, n: nat, m: nat, p: int)
    requires Fits(L, n, p) && m <= n
    ensures Fits(L, m, p)
  {
  }

  // ----- what tiling means

  lemma Next(L: Layout, lo: int, hi: int, p: int)
    requires Tiles(L, lo, hi) && p in L
    ensures p + L[p].size in L || p + L[p].size == hi
  {
    assert Continues(L, hi, p);
  }

  /** Every block but the first has a block that ends where it starts, and so has the break. */
  lemma {:induction false} PredExists(L: Layout, lo: int, hi: int, from: int, q: int)
    requires Tiles(L, lo, hi)
    requires from in L && from < q
    requires q in L || q == hi
    ensures exists p :: from <= p < q && EndsAt(L, p, q)
    decreases q - from
  {
    var next := from + L[from].size;
    Next(L, lo, hi, from);
    if next == q {
      assert EndsAt(L, from, q);
    } else {
      PredExists(L, lo, hi, next, q);
      var p :| next <= p < q && EndsAt(L, p, q);
    }
  }

  lemma Inside(L: Layout, lo: int, hi: int, p: int)
    requires Tiles(L, lo, hi) && p in L && 4 <= lo
    ensures 4 <= lo <= CoalescedAt(L, p) <= p <= hi - 4
  {
    if PredFree(L, p) {
      var q := PredOf(L, p);
      assert EndsAt(L, q, p);
    }
  }

  lemma PredUnique(L: Layout, lo: int, hi: int, p: int, p': int, q: int)
    requires Tiles(L, lo, hi)
    requires EndsAt(L, p, q) && EndsAt(L, p', q)
    ensures p == p'
  {
  }

  lemma {:induction false} EveryWordOwned(L: Layout, lo: int, hi: int, from: int, k: int)
    requires Tiles(L, lo, hi)
    requires from in L && from - 1 <= k < hi - 1
    ensures exists p :: Owns(L, p, k)
    decreases k - from
  {
    Next(L, lo, hi, from);
    if k < from + L[from].size - 1 {
      assert Owns(L, from, k);
    } else {
      EveryWordOwned(L, lo, hi, from + L[from].size, k);
    }
  }

  /** The blocks partition the words between the first header and the epilogue header. */
  lemma BlocksPartitionHeap(L: Layout, lo: int, hi: int, k: int)
    requires Tiles(L, lo, hi)
    ensures lo - 1 <= k < hi - 1 <==> exists p :: Owns(L, p, k)
    ensures forall p, q :: Owns(L, p, k) && Owns(L, q, k) ==> p == q
  {
    if lo - 1 <= k < hi - 1 {
      EveryWordOwned(L, lo, hi, lo, k);
    }
  }

  /** Complete coalescing: once nothing is live, the heap is one free block. */
  lemma AllFreeIsOneBlock(L: Layout, lo: int, hi: int)
    requires WellFormed(L, lo, hi) && lo < hi
    requires LiveBlocks(L) == map[]
    ensures L == map[lo := Block(hi - lo, false)]
  {
    Next(L, lo, hi, lo);
    assert !FreePair(L, lo);
    assert lo !in LiveBlocks(L) && lo + L[lo].size !in LiveBlocks(L);
    forall p | p in L
      ensures p == lo
    {
      assert Disjoint(L) && Bounded(L, lo, hi);
    }
    assert L.Keys == {lo};
  }

  // ----- every step keeps the layout well formed

  lemma SetAllocTiles(L: Layout, lo: int, hi: int, p: int, a: bool)
    requires Tiles(L, lo, hi) && p in L
    ensures Tiles(SetAlloc(L, p, a), lo, hi)
  {
    forall x | x in L
      ensures Continues(SetAlloc(L, p, a), hi, x)
    {
      assert Continues(L, hi, x);
    }
  }

  lemma MergeTiles(L: Layout, lo: int, hi: int, p: int)
    requires Tiles(L, lo, hi)
    requires p in L && p + L[p].size in L
    ensures Tiles(Merge(L, p), lo, hi)
  {
    var M := Merge(L, p);
    var n := p + L[p].size;
    assert Aligned(M);
    assert Bounded(M, lo, hi);
    assert Disjoint(M);
    assert Linked(M, hi) by {
      forall x | x in M
        ensures Continues(M, hi, x)
      {
        assert Continues(L, hi, x) && Continues(L, hi, n);
        if x != p && x + L[x].size == n {
          PredUnique(L, lo, hi, x, p, n);
        }
      }
    }
  }

  lemma SplitTiles(L: Layout, lo: int, hi: int, p: int, n: nat)
    requires Tiles(L, lo, hi)
    requires p in L && 4 <= n && n % 2 == 0 && n + 4 <= L[p].size
    ensures Tiles(Split(L, p, n), lo, hi)
    ensures p + n !in L
  {
    var M := Split(L, p, n);
    assert Aligned(M);
    assert Bounded(M, lo, hi);
    assert Disjoint(M);
    assert Linked(M, hi) by {
      forall x | x in M
        ensures Continues(M, hi, x)
      {
        assert Continues(L, hi, p);
        if x in L {
          assert Continues(L, hi, x);
        }
      }
    }
  }

  /** Merging undoes splitting. */
  lemma MergeSplit(L: Layout, lo: int, hi: int, p: int, n: nat)
    requires Tiles(L, lo, hi)
    requires p in L && 4 <= n && n + 4 <= L[p].size
    ensures Merge(Split(L, p, n), p) == L
  {
  }

  /** `place` on a fitting free block makes exactly that block live and changes no live block. */
  lemma PlaceWellFormed(L: Layout, lo: int, hi: int, p: int, n: nat)
    requires WellFormed(L, lo, hi)
    requires Fits(L, n, p) && 4 <= n && n % 2 == 0
    ensures WellFormed(Place(L, p, n), lo, hi)
    ensures Live(Place(L, p, n), p) && n <= Place(L, p, n)[p].size < n + 4
    ensures LiveBlocks(Place(L, p, n)) == LiveBlocks(L)[p := Place(L, p, n)[p].size]
  {
    var M := Place(L, p, n);
    Next(L, lo, hi, p);
    assert !FreePair(L, p);
    if L[p].size - n >= 4 {
      SplitTiles(L, lo, hi, p, n);
      SetAllocTiles(Split(L, p, n), lo, hi, p, true);
    } else {
      SetAllocTiles(L, lo, hi, p, true);
    }
    hide Aligned, Linked, Bounded;
    forall x | x in M
      ensures !FreePair(M, x)
    {
      if x in L {
        assert !FreePair(L, x);
      }
    }
  }

  /** Only the pairs that involve `p` may be both free. */
  ghost predicate NoAdjacentFreeBut(L: Layout, p: int) {
    forall q {:trigger FreePair(L, q)} :: q in L && q != p && EndsAt(L, q, p) == false ==> !FreePair(L, q)
  }

  /** Merging two free blocks leaves every live block as it was. */
  lemma MergeKeepsLive(L: Layout, lo: int, hi: int, p: int)
    requires Tiles(L, lo, hi)
    requires p in L && FreePair(L, p)
    ensures LiveBlocks(Merge(L, p)) == LiveBlocks(L)
  {
  }

  lemma MergeNext(L: Layout, lo: int, hi: int, p: int)
    requires Tiles(L, lo, hi) && NoAdjacentFreeBut(L, p)
    requires p in L && FreePair(L, p)
    ensures Tiles(Merge(L, p), lo, hi) && NoAdjacentFreeBut(Merge(L, p), p)
    ensures !FreePair(Merge(L, p), p)
    ensures forall q :: EndsAt(Merge(L, p), q, p) <==> EndsAt(L, q, p)
  {
    var M := Merge(L, p);
    var n := p + L[p].size;
    MergeTiles(L, lo, hi, p);
    Next(L, lo, hi, n);
    assert !FreePair(L, n);
    forall x | x in M && x != p && !EndsAt(M, x, p)
      ensures !FreePair(M, x)
    {
      assert !FreePair(L, x);
    }
  }

  /** Merging the free block at `q` with `p`, when nothing after `p` is free, clears every pair. */
  lemma MergePred(L: Layout, lo: int, hi: int, q: int, p: int)
    requires Tiles(L, lo, hi) && NoAdjacentFreeBut(L, p)
    requires EndsAt(L, q, p) && FreePair(L, q) && p in L && !FreePair(L, p)
    ensures WellFormed(Merge(L, q), lo, hi)
  {
    var M := Merge(L, q);
    MergeTiles(L, lo, hi, q);
    forall x | x in M
      ensures !FreePair(M, x)
    {
      if x != q {
        assert x != p && !EndsAt(L, x, p) by {
          if EndsAt(L, x, p) { PredUnique(L, lo, hi, x, q, p); }
        }
        assert !FreePair(L, x);
      }
    }
  }

  /** The first half of `coalesce`: absorbing the block behind. */
  ghost function Absorb(L: Layout, p: int): Layout {
    if NextFree(L, p) then Merge(L, p) else L
  }

  lemma AbsorbTiles(L: Layout, lo: int, hi: int, p: int)
    requires Tiles(L, lo, hi) && NoAdjacentFreeBut(L, p)
    requires p in L && !L[p].alloc
    ensures Tiles(Absorb(L, p), lo, hi) && NoAdjacentFreeBut(Absorb(L, p), p)
    ensures p in Absorb(L, p) && !FreePair(Absorb(L, p), p)
    ensures !Absorb(L, p)[p].alloc && L[p].size <= Absorb(L, p)[p].size
    ensures forall q :: EndsAt(Absorb(L, p), q, p) <==> EndsAt(L, q, p)
    ensures forall q :: EndsAt(L, q, p) ==> Absorb(L, p)[q] == L[q]
    ensures LiveBlocks(Absorb(L, p)) == LiveBlocks(L)
  {
    if NextFree(L, p) {
      assert FreePair(L, p);
      MergeNext(L, lo, hi, p);
      MergeKeepsLive(L, lo, hi, p);
    }
  }

  /** `M` differs from `L` in block `p` and in blocks that `M` no longer has. */
  ghost predicate ChangesOnly(L: Layout, M: Layout, p: int) {
    forall q :: q in M && q != p ==> q in L && L[q] == M[q]
  }

  /** `coalesce` is at most two merges. */
  lemma CoalesceIsMerges(L: Layout, lo: int, hi: int, p: int)
    requires Tiles(L, lo, hi)
    requires p in L && !L[p].alloc
    requires forall q :: EndsAt(L, q, p) ==> EndsAt(Absorb(L, p), q, p) && Absorb(L, p)[q] == L[q]
    ensures !PredFree(L, p) ==> Coalesce(L, p) == Absorb(L, p)
    ensures PredFree(L, p) ==> var q := PredOf(L, p);
                               FreePair(L, q) && Coalesce(L, p) == Merge(Absorb(L, p), q)
  {
    if PredFree(L, p) {
      var q := PredOf(L, p);
      var f :| EndsAt(L, f, p) && !L[f].alloc;
      PredUnique(L, lo, hi, q, f, p);
      assert EndsAt(Absorb(L, p), q, p);
    }
  }

  /** `coalesce` restores the invariant around the block that has just become free, keeps every
      live block, and returns a free block that contains the given one. */
  lemma CoalesceWellFormed(L: Layout, lo: int, hi: int, p: int)
    requires Tiles(L, lo, hi) && NoAdjacentFreeBut(L, p)
    requires p in L && !L[p].alloc
    ensures WellFormed(Coalesce(L, p), lo, hi)
    ensures LiveBlocks(Coalesce(L, p)) == LiveBlocks(L)
    ensures !PredFree(L, p) && !NextFree(L, p) ==> Coalesce(L, p) == L
    ensures CoalescedAt(L, p) in Coalesce(L, p)
    ensures Coalesce(L, p)[CoalescedAt(L, p)] == Block(CoalescedSize(L, p), false)
    ensures ChangesOnly(L, Coalesce(L, p), CoalescedAt(L, p))
    ensures CoalescedAt(L, p) <= p
    ensures p + L[p].size <= CoalescedAt(L, p) + CoalescedSize(L, p)
  {
    var L1 := Absorb(L, p);
    AbsorbTiles(L, lo, hi, p);
    CoalesceIsMerges(L, lo, hi, p);
    if PredFree(L, p) {
      var q := PredOf(L, p);
      assert EndsAt(L1, q, p);
      MergePred(L1, lo, hi, q, p);
      MergeKeepsLive(L1, lo, hi, q);
    } else {
      forall x | x in L1
        ensures !FreePair(L1, x)
      {
        if EndsAt(L1, x, p) {
          assert EndsAt(L, x, p);
        }
      }
    }
  }

  lemma ClearTiles(L: Layout, lo: int, hi: int, p: int)
    requires WellFormed(L, lo, hi) && Live(L, p)
    ensures Tiles(SetAlloc(L, p, false), lo, hi) && NoAdjacentFreeBut(SetAlloc(L, p, false), p)
    ensures LiveBlocks(SetAlloc(L, p, false)) == LiveBlocks(L) - {p}
  {
    var F := SetAlloc(L, p, false);
    SetAllocTiles(L, lo, hi, p, false);
    forall x | x in F && x != p && !EndsAt(F, x, p)
      ensures !FreePair(F, x)
    {
      assert !FreePair(L, x);
    }
  }

  /** `free` gives up exactly block `p`. */
  lemma FreeWellFormed(L: Layout, lo: int, hi: int, p: int)
    requires WellFormed(L, lo, hi) && Live(L, p)
    ensures WellFormed(Free(L, p), lo, hi)
    ensures LiveBlocks(Free(L, p)) == LiveBlocks(L) - {p}
  {
    ClearTiles(L, lo, hi, p);
    CoalesceWellFormed(SetAlloc(L, p, false), lo, hi, p);
  }

  /** A new free block behind the old break ... */
  lemma AppendTiles(L: Layout, lo: int, hi: int, n: nat)
    requires Tiles(L, lo, hi) && hi % 2 == 0
    requires 4 <= n && n % 2 == 0
    ensures hi !in L && Tiles(L[hi := Block(n, false)], lo, hi + n)
  {
    var A := L[hi := Block(n, false)];
    assert Aligned(A) && Bounded(A, lo, hi + n) && Disjoint(A);
    hide Aligned, Disjoint;
    forall x | x in A
      ensures Continues(A, hi + n, x)
    {
      if x in L {
        assert Continues(L, hi, x);
      }
    }
  }

  /** ... leaves only that block in a free pair. */
  lemma AppendPairs(L: Layout, lo: int, hi: int, n: nat)
    requires WellFormed(L, lo, hi)
    ensures NoAdjacentFreeBut(L[hi := Block(n, false)], hi)
    ensures LiveBlocks(L[hi := Block(n, false)]) == LiveBlocks(L)
  {
    var A := L[hi := Block(n, false)];
    hide Aligned, Linked, Disjoint;
    forall x | x in A && x != hi && !EndsAt(A, x, hi)
      ensures !FreePair(A, x)
    {
      assert !FreePair(L, x);
    }
  }

  lemma ExtendWellFormed(L: Layout, lo: int, hi: int, n: nat)
    requires WellFormed(L, lo, hi) && hi % 2 == 0
    requires 4 <= n && n % 2 == 0
    ensures WellFormed(Extend(L, hi, n), lo, hi + n)
    ensures LiveBlocks(Extend(L, hi, n)) == LiveBlocks(L)
    ensures var A := L[hi := Block(n, false)]; Fits(Extend(L, hi, n), n, CoalescedAt(A, hi))
  {
    AppendTiles(L, lo, hi, n);
    AppendPairs(L, lo, hi, n);
    hide Tiles, NoAdjacentFree, NoAdjacentFreeBut;
    CoalesceWellFormed(L[hi := Block(n, false)], lo, hi + n, hi);
  }

  lemma FirstChunk(hi: int, n: nat)
    requires n > 0
    ensures Extend(map[], hi, n) == map[hi := Block(n, false)]
  {
    var A: Layout := map[][hi := Block(n, false)];
    assert forall q :: !EndsAt(A, q, hi);
  }

  /** Freeing what `place` has just allocated restores the layout exactly. */
  lemma FreeUndoesPlace(L: Layout, lo: int, hi: int, p: int, n: nat)
    requires WellFormed(L, lo, hi)
    requires Fits(L, n, p) && 4 <= n && n % 2 == 0
    ensures Free(Place(L, p, n), p) == L
  {
    var F := SetAlloc(Place(L, p, n), p, false);
    assert F == if L[p].size - n >= 4 then Split(L, p, n) else L;
    if PredFree(F, p) {
      var q :| EndsAt(F, q, p) && !F[q].alloc;
      assert FreePair(L, q);
    }
    if L[p].size - n >= 4 {
      MergeSplit(L, lo, hi, p, n);
    } else {
      assert !FreePair(L, p);
    }
  }

  // ----- one allocator call on layouts, and whole runs

  const CHUNK: nat := 1024   // CHUNKSIZE in words

  /** `extend_heap` rounds a number of words up to an even one. */
  function RoundUp(words: nat): nat {
    if words % 2 == 1 then words + 1 else words
  }

  function Growth(n: nat): nat {
    if n > CHUNK then n else CHUNK
  }

  /** What a request for a block of `n` words does to layout `L` with break `hi`, in a heap of
      `cap` words: null and no change exactly when nothing fits and the heap cannot grow; otherwise
      `place` on a fitting block -- the one at `r`, of a heap grown first when nothing fitted. */
  ghost predicate Allocates(L: Layout, hi: int, cap: int, n: nat, r: int, L': Layout, hi': int) {
    if !NoFit(L, n) then
      Fits(L, n, r) && L' == Place(L, r, n) && hi' == hi
    else if hi + Growth(n) > cap then
      r == 0 && L' == L && hi' == hi
    else
      && hi' == hi + Growth(n)
      && r == CoalescedAt(L[hi := Block(Growth(n), false)], hi)
      && Fits(Extend(L, hi, Growth(n)), n, r)
      && L' == Place(Extend(L, hi, Growth(n)), r, n)
  }

  /** An allocation keeps the heap well formed and hands out exactly one new block, aligned and of
      the requested size or up to 8 bytes more, or returns null and changes nothing. */
  lemma AllocatesWellFormed(L: Layout, lo: int, hi: int, cap: int, n: nat, r: int, L': Layout, hi': int)
    requires WellFormed(L, lo, hi) && 2 <= lo && hi % 2 == 0
    requires 4 <= n && n % 2 == 0
    requires Allocates(L, hi, cap, n, r, L', hi')
    ensures WellFormed(L', lo, hi') && hi' % 2 == 0 && hi <= hi'
    ensures r == 0 <==> NoFit(L, n) && hi + Growth(n) > cap
    ensures r == 0 ==> L' == L && hi' == hi
    ensures r != 0 ==> r % 2 == 0 && r !in LiveBlocks(L) && r in L' && n <= L'[r].size < n + 4
                       && LiveBlocks(L') == LiveBlocks(L)[r := L'[r].size]
  {
    if !NoFit(L, n) {
      PlaceWellFormed(L, lo, hi, r, n);
    } else if hi + Growth(n) <= cap {
      ExtendWellFormed(L, lo, hi, Growth(n));
      PlaceWellFormed(Extend(L, hi, Growth(n)), lo, hi', r, n);
    }
  }

  /** Every live block of `L` is in `M` as it was, and `p` is not one of them. */
  ghost predicate KeepsLive(L: Layout, M: Layout, p: int) {
    forall q :: Live(L, q) ==> q in M && q != p && M[q] == L[q]
  }

  lemma AllocatedApart(L: Layout, lo: int, hi: int, cap: int, n: nat, r: int, L': Layout, hi': int, p: int)
    requires WellFormed(L, lo, hi) && 2 <= lo && hi % 2 == 0
    requires 4 <= n && n % 2 == 0
    requires Allocates(L, hi, cap, n, r, L', hi') && r != 0 && Live(L, p)
    ensures p != r && Live(L', p) && Live(L', r) && L'[p] == L[p] && n <= L'[r].size
    ensures KeepsLive(L, L', r)
  {
    hide WellFormed, Allocates, Place, Extend, NoFit, CoalescedAt;
    AllocatesWellFormed(L, lo, hi, cap, n, r, L', hi');
    assert r in LiveBlocks(L') by {
      assert r in LiveBlocks(L)[r := L'[r].size];
    }
    forall q | Live(L, q)
      ensures q in L' && q != r && L'[q] == L[q]
    {
      assert q in LiveBlocks(L) && q in LiveBlocks(L') && LiveBlocks(L')[q] == LiveBlocks(L)[q];
    }
  }
}
