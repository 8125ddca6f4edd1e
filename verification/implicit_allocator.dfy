/** The implicit-list, first-fit allocator over a simulated break (mm.c, memlib.c).

    Pointers are word offsets from the start of the heap and 0 is the null pointer, which no block
    can have.  Sizes inside the heap are in words; requests are in bytes. */
module ImplicitAllocator {
  import opened Words
  import opened HeapLayout
  import opened Requests
  import opened Tags

  const MAX_HEAP: nat := 5242880   // 20 MB, in words
  const INT_MAX: nat := 0x7FFF_FFFF
  const UINT_RANGE: nat := 0x1_0000_0000

  /** What the `int` parameter of mem_sbrk makes of a size in bytes. */
  function Increment(bytes: nat): int {
    var low := bytes % UINT_RANGE;
    if low <= INT_MAX then low else low - UINT_RANGE
  }

  /** Up to INT_MAX it is the size; from there to 2^32 it is negative, which mem_sbrk refuses; and above
      it is less than the size, so that a break that moves does not move far enough. */
  lemma IncrementIs(bytes: nat)
    ensures Increment(bytes) == bytes <==> bytes <= INT_MAX
    ensures INT_MAX < bytes < UINT_RANGE ==> Increment(bytes) < 0
    ensures bytes >= UINT_RANGE ==> Increment(bytes) <= INT_MAX < bytes
  {
    if bytes < UINT_RANGE {
      assert bytes % UINT_RANGE == bytes;
    }
  }

  /** ... in words. */
  lemma IncrementInWords(n: nat)
    requires 4 * n < UINT_RANGE
    ensures if 4 * n <= INT_MAX then Increment(4 * n) / 4 == n else Increment(4 * n) / 4 < 0
  {
    IncrementIs(4 * n);
    hide Increment;
    assert 4 * n <= INT_MAX ==> Increment(4 * n) / 4 == n;
  }

  class Heap {
    const mem: array<Word>
    var brk: int
    var heapListp: int
    ghost var layout: Layout

    /** The heap as a sequence of words. */
    ghost function Words(): (m: seq<Word>)
      reads mem
      ensures |m| == mem.Length
    {
      mem[..]
    }

    /** GET. */
    function Get(p: int): (w: Word)
      requires 0 <= p < mem.Length
      reads mem
      ensures w == Words()[p]
    {
      mem[p]
    }

    /** PUT. */
    method Put(p: int, w: Word)
      requires 0 <= p < mem.Length
      modifies mem
      ensures Words() == old(Words())[p := w]
    {
      mem[p] := w;
    }

    ghost predicate Valid()
      reads this, mem
    {
      if heapListp == 0 then mem.Length == MAX_HEAP && brk == 0 else Ready()
    }

    /** What mm_init establishes and every later call keeps. */
    ghost predicate Ready()
      reads this, mem
    {
      && mem.Length == MAX_HEAP
      && WellFormed(layout, heapListp + 2, brk)
      && Shape(layout)
    }

    ghost predicate Shape(L: Layout)
      reads this, mem
    {
      && mem.Length == MAX_HEAP
      && brk % 2 == 0 && 4 <= heapListp + 2 <= brk <= mem.Length
      && Bracketed(Words(), heapListp + 2, brk)
      && Tagged(Words(), L)
    }

    /** The layout a call starts from: an uninitialised heap is first given one free chunk. */
    ghost function Blocks(): Layout
      reads this
    {
      if heapListp == 0 then map[4 := Block(CHUNK, false)] else layout
    }

    ghost function Break(): int
      reads this
    {
      if heapListp == 0 then 4 + CHUNK else brk
    }

    constructor ()
      ensures Valid() && brk == 0 && heapListp == 0 && fresh(mem) && 4 * mem.Length == 20 * 1024 * 1024
    {
      mem := new Word[MAX_HEAP];
      brk, heapListp, layout := 0, 0, map[];
    }

    method Sbrk(incr: int) returns (p: int)
      requires 0 <= brk <= mem.Length
      modifies this`brk
      ensures p == -1 <==> incr < 0 || old(brk) + incr > mem.Length
      ensures p == -1 ==> brk == old(brk)
      ensures p != -1 ==> p == old(brk) && brk == old(brk) + incr
    {
      if incr < 0 || brk + incr > mem.Length {
        return -1;
      }
      p := brk;
      brk := brk + incr;
    }

    /** The pair PUT(HDRP(bp), PACK(size, alloc)); PUT(FTRP(bp), PACK(size, alloc)). */
    method PutTags(bp: int, size: nat, alloc: bool)
      requires 4 <= size < 0x3FFF_FFFF
      requires 1 <= bp && bp + size <= mem.Length
      modifies mem
      ensures Words() == WriteTags(old(Words()), bp, Block(size, alloc))
    {
      Put(bp - 1, Pack(size, alloc));
      Put(bp + size - 2, Pack(size, alloc));
    }

    method CoalesceWords(bp: int) returns (r: int)
      requires Readable(Words(), bp)
      modifies mem
      ensures Words() == CoalesceWrites(old(Words()), bp) && r == RunStart(old(Words()), bp)
    {
      hide GetSize, GetAlloc, Words, Get, Pack;
      var prev := bp - GetSize(Get(bp - 2));
      var prevAlloc := GetAlloc(Get(prev + GetSize(Get(prev - 1)) - 2));
      var next := bp + GetSize(Get(bp - 1));
      var nextAlloc := GetAlloc(Get(next - 1));
      var size := GetSize(Get(bp - 1));
      r := bp;
      if prevAlloc && nextAlloc {
      } else if prevAlloc && !nextAlloc {
        size := size + GetSize(Get(next - 1));
        Put(bp - 1, Pack(size, false));
        Put(bp + size - 2, Pack(size, false));
      } else if !prevAlloc && nextAlloc {
        size := size + GetSize(Get(prev - 1));
        Put(next - 2, Pack(size, false));
        Put(prev - 1, Pack(size, false));
        r := prev;
      } else {
        var nextFooter := next + GetSize(Get(next - 1)) - 2;
        size := size + GetSize(Get(prev - 1)) + GetSize(Get(nextFooter));
        Put(prev - 1, Pack(size, false));
        Put(nextFooter, Pack(size, false));
        r := prev;
      }
    }

    method Coalesce(bp: int) returns (r: int)
      requires Shape(layout) && Tiles(layout, heapListp + 2, brk)
      requires NoAdjacentFreeBut(layout, bp) && bp in layout && !layout[bp].alloc
      modifies this`layout, mem
      ensures layout == HeapLayout.Coalesce(old(layout), bp) && r == CoalescedAt(old(layout), bp)
      ensures Ready() && r >= 4
      ensures PayloadsKept(old(layout), old(Words()), Words())
    {
      hide Tiles, NoAdjacentFree, NoAdjacentFreeBut, Tagged, Bracketed, PayloadsKept, Readable;
      CoalesceWellFormed(layout, heapListp + 2, brk, bp);
      CoalesceTags(Words(), layout, heapListp + 2, brk, bp);
      layout := HeapLayout.Coalesce(layout, bp);
      r := CoalesceWords(bp);
    }

    method ExtendHeap(words: nat) returns (bp: int)
      requires Ready() && words >= 4 && 4 * RoundUp(words) < UINT_RANGE
      modifies this`brk, this`layout, mem
      ensures Ready()
      ensures bp == 0 <==> old(brk) + RoundUp(words) > mem.Length
      ensures var n := RoundUp(words);
              if old(brk) + n > mem.Length
              then bp == 0 && brk == old(brk) && layout == old(layout) && Words() == old(Words())
              else
                && brk == old(brk) + n
                && layout == Extend(old(layout), old(brk), n)
                && bp == CoalescedAt(old(layout)[old(brk) := Block(n, false)], old(brk))
      ensures PayloadsKept(old(layout), old(Words()), Words())
    {
      hide Tiles, NoAdjacentFree, NoAdjacentFreeBut, Tagged, TaggedAt, Bracketed, PayloadsKept;
      hide CoalescedSize, PredFree, NextFree, HeapLayout.Coalesce, CoalescedAt, Pack;
      ghost var L, m, lo, hi := layout, Words(), heapListp + 2, brk;
      KeptSame(L, m);
      var size := if words % 2 == 1 then words + 1 else words;
      IncrementInWords(size);
      var p := Sbrk(Increment(4 * size) / 4);
      if p == -1 {
        return 0;
      }
      AppendTiles(L, lo, hi, size);
      AppendPairs(L, lo, hi, size);
      AppendTags(m, L, lo, hi, size);
      PutTags(p, size, false);
      Put(p + size - 1, Pack(0, true));
      layout := layout[p := Block(size, false)];
      assert Words() == WriteTags(m, hi, Block(size, false))[hi + size - 1 := Pack(0, true)];
      ghost var m1 := Words();
      bp := Coalesce(p);
      AppendKeeps(L, hi, size, m, m1, Words());
    }

    /** `place`: split when the rest would still be a block. */
    method PlaceWords(bp: int, n: nat)
      requires 1 <= bp <= mem.Length && 4 <= n <= GetSize(Words()[bp - 1]) < 0x3FFF_FFFF
      requires bp + GetSize(Words()[bp - 1]) <= mem.Length
      modifies mem
      ensures Words() == PlaceWrites(old(Words()), bp, GetSize(old(Words())[bp - 1]), n)
    {
      var csize := GetSize(Get(bp - 1));
      if csize - n >= 4 {
        PutTags(bp, n, true);
        PutTags(bp + n, csize - n, false);
      } else {
        PutTags(bp, csize, true);
      }
    }

    method Place(bp: int, n: nat)
      requires Ready() && Fits(layout, n, bp) && 4 <= n && n % 2 == 0
      modifies this`layout, mem
      ensures Ready()
      ensures layout == HeapLayout.Place(old(layout), bp, n)
      ensures PayloadsKept(old(layout), old(Words()), Words())
    {
      TagRead(Words(), layout, bp);
      assert layout[bp].size <= brk;
      hide Tiles, NoAdjacentFree, Tagged, Bracketed, PayloadsKept, HeapLayout.Place, LiveBlocks;
      PlaceWellFormed(layout, heapListp + 2, brk, bp, n);
      PlaceTags(Words(), layout, heapListp + 2, brk, bp, n);
      layout := HeapLayout.Place(layout, bp, n);
      PlaceWords(bp, n);
    }

    /** First fit: the lowest free block that is big enough, or null exactly when there is none. */
    method FindFit(n: nat) returns (r: int)
      requires Ready() && 4 <= n
      ensures r == 0 <==> NoFit(layout, n)
      ensures r != 0 ==> IsFirstFit(layout, n, r)
    {
      var bp := heapListp;
      while GetSize(Get(bp - 1)) > 0
        invariant bp == heapListp || bp in layout || bp == brk
        invariant forall q :: q in layout && q < bp ==> !Fits(layout, n, q)
        decreases brk - bp
      {
        if bp in layout {
          TagRead(Words(), layout, bp);
          Next(layout, heapListp + 2, brk, bp);
        }
        if !GetAlloc(Get(bp - 1)) && n <= GetSize(Get(bp - 1)) {
          return bp;
        }
        bp := bp + GetSize(Get(bp - 1));
      }
      return 0;
    }

    /** `mm_init` at any even break: 0 with one free chunk, or -1 with an empty heap, or -1 with no
        heap at all. */
    method Init() returns (r: int)
      requires mem.Length == MAX_HEAP && 0 <= brk <= mem.Length && brk % 2 == 0
      modifies this, mem
      ensures r == if old(brk) + 4 + CHUNK <= MAX_HEAP then 0 else -1
      ensures old(brk) + 4 <= MAX_HEAP ==> Ready() && heapListp == old(brk) + 2
      ensures r == 0 ==> layout == map[old(brk) + 4 := Block(CHUNK, false)]
                         && brk == old(brk) + 4 + CHUNK
      ensures r == -1 && old(brk) + 4 <= MAX_HEAP ==> layout == map[] && brk == old(brk) + 4
      ensures old(brk) + 4 > MAX_HEAP ==> heapListp == -1 && brk == old(brk)
    {
      layout := map[];
      heapListp := Sbrk(4);
      if heapListp == -1 {
        return -1;
      }
      Put(heapListp, 0);
      Put(heapListp + 1, Pack(2, true));
      Put(heapListp + 2, Pack(2, true));
      Put(heapListp + 3, Pack(0, true));
      heapListp := heapListp + 2;
      ghost var hi := brk;
      var bp := ExtendHeap(CHUNK);
      if bp == 0 {
        return -1;
      }
      FirstChunk(hi, CHUNK);
      return 0;
    }

    method Malloc(size: nat) returns (r: int)
      requires Valid()
      requires size > 0 ==> AdjustedSize(size) < UINT_RANGE
      modifies this, mem
      ensures Ready() && (old(heapListp) != 0 ==> heapListp == old(heapListp))
      ensures size == 0 ==> r == 0 && layout == old(Blocks()) && brk == old(Break())
      ensures size > 0 ==>
                Allocates(old(Blocks()), old(Break()), MAX_HEAP, WordsFor(size), r, layout, brk)
      ensures size > 0 && !NoFit(old(Blocks()), WordsFor(size)) ==>
                IsFirstFit(old(Blocks()), WordsFor(size), r)
      ensures r != 0 ==> Live(layout, r) && r % 2 == 0 && size <= 4 * (layout[r].size - 2) && 4 * layout[r].size < size + 32
      ensures r == 0 && old(heapListp) != 0 ==> Words() == old(Words())
      ensures PayloadsKept(old(Blocks()), old(Words()), Words())
    {
      hide Tiles, NoAdjacentFree, Tagged, Bracketed, HeapLayout.Place, Extend, CoalescedAt, NoFit, Fits;
      ghost var m0 := Words();
      if heapListp == 0 {
        var _ := Init();
        NothingLive(Blocks(), m0, Words());
      } else {
        KeptSame(layout, m0);
      }
      ghost var L, hi, m := layout, brk, Words();
      assert L == old(Blocks()) && hi == old(Break()) && PayloadsKept(L, m0, m);
      hide Blocks, Break, PayloadsKept, Bracketed;
      if size == 0 {
        return 0;
      }
      var asize := AdjustedSize(size);
      var n := asize / 4;
      var bp := FindFit(n);
      if bp != 0 {
        Place(bp, n);
        KeptThrough(L, m0, m, Words());
        PayloadFits(L, heapListp + 2, hi, MAX_HEAP, size, bp, layout, brk);
        return bp;
      }
      var extendsize := if asize > 4096 then asize else 4096;
      assert extendsize / 4 == Growth(n) && Growth(n) % 2 == 0;
      bp := ExtendHeap(extendsize / 4);
      if bp == 0 {
        return 0;
      }
      ExtendWellFormed(L, heapListp + 2, hi, Growth(n));
      FitsLess(layout, Growth(n), n, bp);
      KeptThrough(L, m0, m, Words());
      ghost var E, m1 := layout, Words();
      Place(bp, n);
      KeptSameLive(L, E, m0, m1, Words());
      PayloadFits(L, heapListp + 2, hi, MAX_HEAP, size, bp, layout, brk);
      return bp;
    }

    method Free(bp: int)
      requires Valid()
      requires bp != 0 ==> heapListp != 0 && Live(layout, bp)
      modifies this`layout, mem
      ensures Valid()
      ensures bp == 0 ==> layout == old(layout) && Words() == old(Words())
      ensures bp != 0 ==> layout == HeapLayout.Free(old(layout), bp)
      ensures PayloadsKept(old(layout) - {bp}, old(Words()), Words())
    {
      if bp == 0 {
        return;
      }
      hide Tiles, NoAdjacentFree, NoAdjacentFreeBut, Tagged, Bracketed, PayloadsKept, LiveBlocks;
      ghost var L, m := layout, Words();
      ClearTiles(L, heapListp + 2, brk, bp);
      ClearTags(m, L, heapListp + 2, brk, bp);
      var size := GetSize(Get(bp - 1));
      PutTags(bp, size, false);
      layout := SetAlloc(layout, bp, false);
      ghost var m1 := Words();
      var _ := Coalesce(bp);
      FreeKeeps(L, bp, m, m1, Words());
    }

    /** A client may write anything into a payload it holds. */
    method ClientWrite(p: int, k: int, w: Word)
      requires Ready() && Live(layout, p) && InPayload(layout, p, k)
      modifies mem
      ensures Ready() && Words() == old(Words())[k := w]
      ensures PayloadsKept(layout - {p}, old(Words()), Words())
    {
      ghost var m := Words();
      assert TaggedAt(m, p, layout[p]);
      Put(k, w);
      PayloadWrites(m, Words(), layout, heapListp + 2, brk, p);
    }

    /** `memcpy` of `n` bytes between word addresses. */
    method MemCpy(dst: nat, src: nat, n: nat)
      requires dst + (n + 3) / 4 <= mem.Length && src + (n + 3) / 4 <= mem.Length
      requires dst + (n + 3) / 4 <= src || src + (n + 3) / 4 <= dst
      modifies mem
      ensures Copied(old(Words()), Words(), dst, src, n)
      ensures forall k :: 0 <= k < mem.Length && !(dst <= k < dst + (n + 3) / 4)
                ==> Words()[k] == old(Words())[k]
    {
      var i := 0;
      while i < n / 4
        invariant 0 <= i <= n / 4
        invariant forall k :: dst <= k < dst + i ==> mem[k] == old(mem[src + (k - dst)])
        invariant forall k :: 0 <= k < mem.Length && !(dst <= k < dst + i) ==> mem[k] == old(mem[k])
      {
        mem[dst + i] := mem[src + i];
        i := i + 1;
      }
      if n % 4 != 0 {
        mem[dst + i] := Blend(mem[src + i], mem[dst + i], n % 4);
      }
    }

    /** The second half of `mm_realloc`: copy to the new block, then free the old one. */
    method MoveAndFree(ptr: int, r: int, size: nat)
      requires Ready() && heapListp > 0 && Live(layout, ptr) && Live(layout, r) && ptr != r
      requires size <= 4 * (layout[r].size - 2) && 4 * layout[r].size < size + 32
      modifies this`layout, mem
      ensures Ready() && layout == HeapLayout.Free(old(layout), ptr)
      ensures SameBytes(old(Words()), ptr, Words(), r, MovedBytes(old(layout), ptr, size))
      ensures PayloadsKept(old(layout) - {ptr, r}, old(Words()), Words())
    {
      ghost var M, m, lo := layout, Words(), heapListp + 2;
      TagRead(m, M, ptr);
      var n := 4 * GetSize(Get(ptr - 1));
      if size < n {
        n := size;
      }
      assert r + (n + 3) / 4 <= r + M[r].size - 2 && ptr + (n + 3) / 4 <= ptr + M[ptr].size;
      assert 4 <= r && 4 <= ptr;
      hide Tiles, NoAdjacentFree, Tagged, TaggedAt, Bracketed, PayloadsKept, SameBytes, LiveBlocks, Copied;
      MemCpy(r, ptr, n);
      ghost var m1 := Words();
      CopiedBytes(m, m1, r, ptr, n);
      PayloadWrites(m, m1, M, lo, brk, r);
      Free(ptr);
      MoveKeeps(M, ptr, r, m, m1, Words());
      SameBytesLess(m, ptr, m1, r, n, MovedBytes(M, ptr, size));
      SameBytesVia(m, m, ptr, m1, Words(), r, MovedBytes(M, ptr, size));
    }

    /** `mm_realloc` of a live block to a positive size.  `M` is the layout between the allocation
        and the release of the old block. */
    method Move(ptr: int, size: nat) returns (r: int, ghost M: Layout)
      requires Ready() && heapListp > 0 && Live(layout, ptr)
      requires size > 0 && AdjustedSize(size) < UINT_RANGE
      modifies this, mem
      ensures Ready() && heapListp == old(heapListp)
      ensures Allocates(old(layout), old(brk), MAX_HEAP, WordsFor(size), r, M, brk)
      ensures r == 0 ==> layout == M && Words() == old(Words())
      ensures r != 0 ==> Live(M, ptr) && layout == HeapLayout.Free(M, ptr)
      ensures r != 0 ==> SameBytes(old(Words()), ptr, Words(), r, MovedBytes(old(layout), ptr, size))
      ensures PayloadsKept(old(layout) - {ptr}, old(Words()), Words())
    {
      ghost var L, hi, m, lo := layout, brk, Words(), heapListp + 2;
      assert TaggedAt(m, ptr, L[ptr]);
      assert L == Blocks() && hi == Break() && WordsFor(size) % 2 == 0;
      assert WellFormed(L, lo, hi) && 4 <= lo && hi % 2 == 0 && Valid();
      hide Ready, Shape, WellFormed, Valid;
      hide Tiles, NoAdjacentFree, Tagged, Bracketed, PayloadsKept, SameBytes, LiveBlocks, Allocates;
      hide HeapLayout.Free, NoFit, TaggedAt, MovedBytes, IsFirstFit, Fits, Blocks, Break, Words, KeepsLive;
      r := Malloc(size);
      M := layout;
      ghost var m1 := Words();
      KeptLess(L, ptr, m, m1);
      if r == 0 {
        return;
      }
      AllocatedApart(L, lo, hi, MAX_HEAP, WordsFor(size), r, M, brk, ptr);
      MoveAndFree(ptr, r, size);
      ReallocKeeps(L, M, ptr, r, m, m1, Words());
      KeptBytes(L, ptr, m, m1, Words(), r, MovedBytes(L, ptr, size));
    }

    method Realloc(ptr: int, size: nat) returns (r: int, ghost M: Layout)
      requires Valid()
      requires size > 0 ==> AdjustedSize(size) < UINT_RANGE
      requires ptr != 0 ==> heapListp != 0 && Live(layout, ptr)
      modifies this, mem
      ensures Valid() && (size > 0 || ptr != 0 ==> Ready())
      ensures size == 0 ==> r == 0
      ensures size == 0 && ptr != 0 ==> layout == HeapLayout.Free(old(layout), ptr) && brk == old(brk)
      ensures size == 0 && ptr == 0 ==> Blocks() == old(Blocks()) && Break() == old(Break()) && Words() == old(Words())
      ensures size > 0 ==>
                Allocates(old(Blocks()), old(Break()), MAX_HEAP, WordsFor(size), r, M, brk)
      ensures size > 0 && (ptr == 0 || r == 0) ==> layout == M
      ensures size > 0 && ptr != 0 && r == 0 ==> Words() == old(Words())
      ensures size > 0 && ptr != 0 && r != 0 ==>
                && Live(M, ptr) && layout == HeapLayout.Free(M, ptr) && Live(old(layout), ptr)
                && 2 <= old(layout)[ptr].size
                && SameBytes(old(Words()), ptr, Words(), r, MovedBytes(old(layout), ptr, size))
      ensures PayloadsKept(old(Blocks()) - {ptr}, old(Words()), Words())
    {
      hide Tiles, NoAdjacentFree, Bracketed, PayloadsKept, SameBytes, LiveBlocks, Allocates;
      hide HeapLayout.Free, NoFit;
      M := layout;
      assert ptr != 0 ==> TaggedAt(Words(), ptr, layout[ptr]);
      KeptSame(Blocks(), Words());
      KeptLess(Blocks(), ptr, Words(), Words());
      if size == 0 {
        Free(ptr);
        r := 0;
      } else if ptr == 0 {
        ghost var L, m := Blocks(), Words();
        r := Malloc(size);
        M := layout;
        KeptLess(L, ptr, m, Words());
      } else {
        r, M := Move(ptr, size);
      }
    }
  }
}
