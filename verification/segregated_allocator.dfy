/** The segregated-fit allocator (flsp.c), with 32-bit pointers.

    Pointers and block sizes are in words as in `ImplicitAllocator`.  This file's mem_sbrk has no
    upper limit: that the region is big enough is a condition on the caller. */
module SegregatedAllocator {
  import opened Words
  import opened HeapLayout
  import opened Requests
  import opened Tags
  import opened SegLists
  import opened SegIndex

  const REGION: nat := 5242880   // 20 MB, in words

  class Heap {
    const mem: array<Word>
    const freeLists: array<Word>
    var brk: int
    var heapListp: int
    ghost var layout: Layout
    ghost var lists: seq<seq<int>>
    ghost var cls: map<int, int>

    /** The heap as a sequence of words. */
    ghost function Words(): (m: seq<Word>)
      reads mem
      ensures |m| == mem.Length
    {
      mem[..]
    }

    ghost function Heads(): (h: seq<Word>)
      reads freeLists
      ensures |h| == freeLists.Length
    {
      freeLists[..]
    }

    /** GET. */
    function Get(p: int): (w: Word)
      requires 0 <= p < mem.Length
      reads mem
      ensures w == Words()[p]
    {
      mem[p]
    }

    /** PUT, and the pointer stores of SET_PRED and SET_SUCC. */
    method Put(p: int, w: Word)
      requires 0 <= p < mem.Length
      modifies mem
      ensures Words() == old(Words())[p := w]
    {
      mem[p] := w;
    }

    /** The heap is well formed and the lists hold each free block exactly once, in the list of its
        size class; no other block is listed. */
    ghost predicate Ready()
      reads this, mem, freeLists
    {
      && WellFormed(layout, heapListp + 2, brk)
      && Shape(layout)
      && Listed()
      && cls == FreeClasses(layout)
    }

    ghost predicate Sized()
      reads this
    {
      && mem.Length == REGION && freeLists.Length == LISTS && mem != freeLists
      && brk % 2 == 0 && 4 <= heapListp + 2 <= brk <= mem.Length
    }

    ghost predicate Shape(L: Layout)
      reads this, mem
    {
      && Sized()
      && Bracketed(Words(), heapListp + 2, brk)
      && Tagged(Words(), L)
    }

    ghost predicate Listed()
      reads this, mem, freeLists
    {
      Chained(Words(), Heads(), lists) && Indexed(cls, lists)
    }

    /** `get_index`. */
    method GetIndex(n: nat) returns (r: nat)
      ensures r == ClassOf(n) && r < LISTS
    {
      var i := 0;
      while i < LISTS - 1
        invariant 0 <= i < LISTS
        invariant ClassFrom(n, i) == ClassOf(n)
      {
        if 4 * n <= 32 * Pow2(i) {
          return i;
        }
        i := i + 1;
      }
      return LISTS - 1;
    }

    method PutTags(bp: int, size: nat, alloc: bool)
      requires 4 <= size < 0x3FFF_FFFF
      requires 1 <= bp && bp + size <= mem.Length
      modifies mem
      ensures Words() == WriteTags(old(Words()), bp, Block(size, alloc))
    {
      Put(bp - 1, Pack(size, alloc));
      Put(bp + size - 2, Pack(size, alloc));
    }

    method InsertWords(bp: int, n: nat)
      requires mem.Length == REGION && freeLists.Length == LISTS && mem != freeLists
      requires 0 < bp && bp + 1 < mem.Length && Heads()[ClassOf(n)] < mem.Length
      modifies mem, freeLists
      ensures Words() == SegLists.InsertWords(old(Words()), old(Heads())[ClassOf(n)], bp)
      ensures Heads() == old(Heads())[ClassOf(n) := bp]
    {
      var index := GetIndex(n);
      Put(bp + 1, freeLists[index]);
      Put(bp, 0);
      if freeLists[index] != 0 {
        Put(freeLists[index], bp);
      }
      freeLists[index] := bp;
    }

    /** `insert_node`: push at the front of the list of its class. */
    method InsertNode(bp: int, n: nat)
      requires Sized() && Listed() && bp !in cls
      requires 0 < bp && bp % 2 == 0 && bp + 1 < mem.Length
      modifies this`lists, this`cls, mem, freeLists
      ensures Listed()
      ensures cls == old(cls)[bp := ClassOf(n)]
      ensures lists == old(lists)[ClassOf(n) := [bp] + old(lists)[ClassOf(n)]]
      ensures LinksOnly(old(Words()), Words(), old(cls).Keys + {bp})
    {
      var i := ClassOf(n);
      InsertChained(Words(), Heads(), lists, cls, bp, i);
      InsertLinksOnly(Words(), Heads(), lists, cls, bp, i);
      InsertIndexed(lists, cls, bp, i);
      hide Chained, Indexed, LinksOnly, SegLists.InsertWords;
      InsertWords(bp, n);
      cls, lists := cls[bp := i], lists[i := [bp] + lists[i]];
    }

    method UnlinkWords(bp: int, ghost i: int)
      requires mem.Length == REGION && freeLists.Length == LISTS && mem != freeLists
      requires 1 <= bp && bp + 1 < mem.Length
      requires Words()[bp] + 1 < mem.Length && Words()[bp + 1] < mem.Length
      requires Words()[bp] != bp - 1
      requires i == ClassOf(GetSize(Words()[bp - 1]))
      modifies mem, freeLists
      ensures Words() == SegLists.UnlinkWords(old(Words()), bp)
      ensures Heads() == old(Heads())[i := UnlinkHead(old(Words()), old(Heads())[i], bp)]
    {
      hide GetSize, ClassOf;
      var index := GetIndex(GetSize(Get(bp - 1)));
      if Get(bp) != 0 {
        Put(Get(bp) + 1, Get(bp + 1));
      } else {
        freeLists[index] := Get(bp + 1);
      }
      if Get(bp + 1) != 0 {
        Put(Get(bp + 1), Get(bp));
      }
    }

    /** `delete_node`: unlink the node at position `k` of the list of its class. */
    method DeleteNode(bp: int, ghost k: int)
      requires Sized() && Listed() && bp in cls && 1 <= bp && bp + 1 < mem.Length
      requires cls[bp] == ClassOf(GetSize(Words()[bp - 1]))
      requires 0 <= k < |lists[cls[bp]]| && lists[cls[bp]][k] == bp
      modifies this`lists, this`cls, mem, freeLists
      ensures Listed() && cls == old(cls) - {bp}
      ensures lists == old(lists)[old(cls)[bp] := Without(old(lists)[old(cls)[bp]], k)]
      ensures LinksOnly(old(Words()), Words(), old(cls).Keys)
    {
      ghost var i := cls[bp];
      UnlinkChained(Words(), Heads(), lists, cls, bp, k);
      UnlinkLinksOnly(Words(), Heads(), lists, cls, bp, k);
      UnlinkIndexed(lists, cls, bp, k);
      UnlinkApart(Words(), Heads(), lists, cls, bp, k);
      hide Chained, Indexed, LinksOnly, SegLists.UnlinkWords, ClassOf, GetSize;
      UnlinkWords(bp, i);
      cls, lists := cls - {bp}, lists[i := Without(lists[i], k)];
    }

    /** Block `bp` is free but not yet listed; everything else is in order. */
    ghost predicate Pending(bp: int)
      reads this, mem, freeLists
    {
      && Tiles(layout, heapListp + 2, brk)
      && Shape(layout) && Listed()
      && bp in layout && !layout[bp].alloc
      && cls == FreeClasses(layout) - {bp}
    }

    /** The front half of `coalesce`. */
    method AbsorbFront(bp: int, size: nat) returns (r: int, total: nat)
      requires Pending(bp) && PredFree(layout, bp) && size == layout[bp].size
      modifies this`layout, this`lists, this`cls, mem, freeLists
      ensures r == PredOf(old(layout), bp) && r in old(layout) && FreePair(old(layout), r)
      ensures layout == Merge(old(layout), r)
      ensures Pending(r) && total == layout[r].size
      ensures PayloadsKept(old(layout), old(Words()), Words())
    {
      hide Tiles, Tagged, TaggedAt, Bracketed, PayloadsKept, Chained, Indexed, FreeNodes, LinksOnly;
      hide Merge, FreeClasses, GetSize, ClassOf, WriteTags, PredFree, PredOf, FreePair, Words, Heads, Get;
      ghost var L, m, lo, nodes := layout, Words(), heapListp + 2, cls.Keys;
      ghost var q, k := FrontReady(m, L, lo, brk, bp, cls, lists);
      r := bp - GetSize(Get(bp - 2));
      DeleteNode(r, k);
      MergeWords(m, Words(), L, lo, brk, r, nodes, Heads(), lists, cls);
      total := size + GetSize(Get(r - 1));
      layout := Merge(layout, r);
      PutTags(r, total, false);
    }

    /** The back half of `coalesce`. */
    method AbsorbBehind(bp: int, size: nat) returns (total: nat)
      requires Pending(bp) && NextFree(layout, bp) && size == layout[bp].size
      modifies this`layout, this`lists, this`cls, mem, freeLists
      ensures FreePair(old(layout), bp) && layout == Merge(old(layout), bp)
      ensures Pending(bp) && total == layout[bp].size
      ensures PayloadsKept(old(layout), old(Words()), Words())
    {
      hide Tiles, Tagged, TaggedAt, Bracketed, PayloadsKept, Chained, Indexed, FreeNodes, LinksOnly;
      hide Merge, FreeClasses, GetSize, ClassOf, WriteTags, NextFree, FreePair, Words, Heads, Get;
      ghost var L, m, lo, nodes := layout, Words(), heapListp + 2, cls.Keys;
      ghost var n, k := BehindReady(m, L, lo, brk, bp, cls, lists);
      var next := bp + GetSize(Get(bp - 1));
      DeleteNode(next, k);
      MergeWords(m, Words(), L, lo, brk, bp, nodes, Heads(), lists, cls);
      total := size + GetSize(Get(next - 1));
      layout := Merge(layout, bp);
      PutTags(bp, total, false);
    }

    /** `insert_node` of the pending block. */
    method Enlist(bp: int, size: nat)
      requires Pending(bp) && size == layout[bp].size
      modifies this`lists, this`cls, mem, freeLists
      ensures Tiles(layout, heapListp + 2, brk) && Shape(layout) && Listed()
      ensures cls == FreeClasses(layout)
      ensures PayloadsKept(layout, old(Words()), Words())
    {
      ghost var m, nodes := Words(), cls.Keys + {bp};
      ListPending(layout, heapListp + 2, brk, bp, cls);
      hide Tiles, Tagged, Bracketed, PayloadsKept, Chained, Indexed, FreeNodes, LinksOnly, FreeClasses;
      hide ClassOf, Words, Heads;
      InsertNode(bp, size);
      LinksSpareTags(m, Words(), layout, heapListp + 2, brk, nodes);
    }

    /** `coalesce` up to its last step: merge with the free neighbours. */
    method Absorb(bp: int) returns (r: int, size: nat)
      requires Pending(bp)
      modifies this`layout, this`lists, this`cls, mem, freeLists
      ensures layout == HeapLayout.Coalesce(old(layout), bp) && r == CoalescedAt(old(layout), bp)
      ensures LiveBlocks(layout) == LiveBlocks(old(layout))
      ensures Pending(r) && size == layout[r].size
      ensures PayloadsKept(old(layout), old(Words()), Words())
    {
      hide Tiles, Tagged, Bracketed, PayloadsKept, Listed;
      hide FreeClasses, GetSize, GetAlloc, PredFree, NextFree, FreePair, PredOf, Merge, Words, Heads, Get;
      hide HeapLayout.Coalesce, CoalescedAt, LiveBlocks;
      ghost var L, m, lo := layout, Words(), heapListp + 2;
      Before(m, L, lo, brk, bp);
      Behind(m, L, lo, brk, bp);
      KeptSame(L, m);
      var prev := bp - GetSize(Get(bp - 2));
      var prevAlloc := GetAlloc(Get(prev + GetSize(Get(prev - 1)) - 2));
      var nextAlloc := GetAlloc(Get(bp + GetSize(Get(bp - 1)) - 1));
      r, size := bp, GetSize(Get(bp - 1));
      if !prevAlloc {
        FrontMerge(L, lo, brk, bp);
        r, size := AbsorbFront(bp, size);
      }
      ghost var L1, m1 := layout, Words();
      if !nextAlloc {
        size := AbsorbBehind(r, size);
      } else {
        KeptSame(L1, m1);
      }
      HalvesKeepLive(L, lo, brk, bp, L1, r, layout);
      KeptSameLive(L, L1, m, m1, Words());
    }

    /** `coalesce`. */
    method Coalesce(bp: int) returns (r: int)
      requires Pending(bp) && NoAdjacentFreeBut(layout, bp)
      modifies this`layout, this`lists, this`cls, mem, freeLists
      ensures layout == HeapLayout.Coalesce(old(layout), bp) && r == CoalescedAt(old(layout), bp)
      ensures Ready()
      ensures PayloadsKept(old(layout), old(Words()), Words())
    {
      hide Tiles, NoAdjacentFree, NoAdjacentFreeBut, Tagged, Bracketed, PayloadsKept, Listed, Shape;
      hide FreeClasses, Words, HeapLayout.Coalesce, CoalescedAt, LiveBlocks;
      ghost var L, m := layout, Words();
      CoalesceWellFormed(layout, heapListp + 2, brk, bp);
      var size;
      r, size := Absorb(bp);
      ghost var L2, m2 := layout, Words();
      Enlist(r, size);
      KeptSameLive(L, L2, m, m2, Words());
    }

    /** `mem_sbrk` of this file: no upper limit of its own. */
    method Sbrk(incr: int) returns (p: int)
      requires 0 <= brk && brk + incr <= mem.Length
      modifies this`brk
      ensures incr < 0 ==> p == -1 && brk == old(brk)
      ensures incr >= 0 ==> p == old(brk) && brk == old(brk) + incr
    {
      if incr < 0 {
        return -1;
      }
      p := brk;
      brk := brk + incr;
    }

    /** The first half of `extend_heap`: a free block at the old break, still unlisted. */
    method Append(size: nat) returns (p: int)
      requires Ready() && size >= 4 && size % 2 == 0 && brk + size <= mem.Length
      modifies this`brk, this`layout, mem
      ensures p == old(brk) && brk == old(brk) + size
      ensures p !in old(layout) && layout == old(layout)[p := Block(size, false)]
      ensures Pending(p) && NoAdjacentFreeBut(layout, p)
      ensures PayloadsKept(old(layout), old(Words()), Words())
    {
      hide Tiles, NoAdjacentFree, NoAdjacentFreeBut, Tagged, Bracketed, PayloadsKept;
      hide Chained, Indexed, FreeClasses, Words, Heads, Pack, WriteTags;
      AppendReady(Words(), layout, heapListp + 2, brk, size, Heads(), lists, cls);
      p := Sbrk(size);
      PutTags(p, size, false);
      Put(p + size - 1, Pack(0, true));
      layout := layout[p := Block(size, false)];
    }

    method ExtendHeap(words: nat) returns (bp: int)
      requires Ready() && words >= 4 && brk + RoundUp(words) <= mem.Length
      modifies this`brk, this`layout, this`lists, this`cls, mem, freeLists
      ensures Ready()
      ensures var n := RoundUp(words);
              && brk == old(brk) + n
              && layout == Extend(old(layout), old(brk), n)
              && bp == CoalescedAt(old(layout)[old(brk) := Block(n, false)], old(brk))
      ensures PayloadsKept(old(layout), old(Words()), Words())
    {
      hide Ready, Pending, NoAdjacentFreeBut, PayloadsKept, HeapLayout.Coalesce, CoalescedAt, Words;
      ghost var L, m, hi := layout, Words(), brk;
      var size := if words % 2 == 1 then words + 1 else words;
      var p := Append(size);
      ghost var m1 := Words();
      bp := Coalesce(p);
      AppendKeeps(L, hi, size, m, m1, Words());
    }

    /** Unlisting a fitting block leaves it pending. */
    method Detach(bp: int, ghost n: nat)
      requires Ready() && Fits(layout, n, bp) && 4 <= n
      modifies this`lists, this`cls, mem, freeLists
      ensures Shape(layout) && Listed() && cls == FreeClasses(layout) - {bp}
      ensures PayloadsKept(layout, old(Words()), Words())
    {
      hide Tiles, NoAdjacentFree, Tagged, Bracketed, PayloadsKept, Chained, Indexed, FreeClasses, FreeNodes;
      hide GetSize, ClassOf, Words, Heads, LinksOnly;
      ghost var m, nodes := Words(), cls.Keys;
      ghost var k := FitListed(m, layout, heapListp + 2, brk, bp, n, cls, lists);
      DeleteNode(bp, k);
      LinksSpareTags(m, Words(), layout, heapListp + 2, brk, nodes);
    }

    /** The tag writes of `place`; `rest` is what remains of the block. */
    method Carve(bp: int, n: nat) returns (rest: nat)
      requires WellFormed(layout, heapListp + 2, brk) && Fits(layout, n, bp) && 4 <= n && n % 2 == 0
      requires Shape(layout) && Listed() && cls == FreeClasses(layout) - {bp}
      modifies this`layout, mem
      ensures layout == HeapLayout.Place(old(layout), bp, n) && rest == old(layout)[bp].size - n
      ensures WellFormed(layout, heapListp + 2, brk) && Shape(layout) && Listed()
      ensures if rest >= 4 then Pending(bp + n) && layout[bp + n].size == rest
              else cls == FreeClasses(layout)
      ensures PayloadsKept(old(layout), old(Words()), Words())
    {
      hide Tiles, NoAdjacentFree, Tagged, Bracketed, PayloadsKept, Chained, Indexed, FreeClasses;
      hide GetSize, HeapLayout.Place, Words, Heads, Get, WriteTags;
      PlaceReady(Words(), layout, heapListp + 2, brk, bp, n, Heads(), lists, cls);
      var csize := GetSize(Get(bp - 1));
      layout := HeapLayout.Place(layout, bp, n);
      rest := csize - n;
      if rest >= 4 {
        PutTags(bp, n, true);
        PutTags(bp + n, rest, false);
      } else {
        PutTags(bp, csize, true);
      }
    }

    /** `place`. */
    method Place(bp: int, n: nat)
      requires Ready() && Fits(layout, n, bp) && 4 <= n && n % 2 == 0
      modifies this`layout, this`lists, this`cls, mem, freeLists
      ensures Ready()
      ensures layout == HeapLayout.Place(old(layout), bp, n)
      ensures PayloadsKept(old(layout), old(Words()), Words())
    {
      hide Tiles, NoAdjacentFree, Tagged, Bracketed, PayloadsKept, Chained, Indexed, FreeClasses;
      hide HeapLayout.Place, Words, Heads, Listed;
      ghost var L, m := layout, Words();
      Detach(bp, n);
      ghost var m1 := Words();
      var rest := Carve(bp, n);
      ghost var m2 := Words();
      if rest >= 4 {
        Enlist(bp + n, rest);
      } else {
        KeptSame(layout, m2);
      }
      PlaceKeeps(L, heapListp + 2, brk, bp, n, m, m1, m2, Words());
    }

    /** The search of `mm_malloc`: through the lists from the request's class on. */
    method FindFit(n: nat) returns (r: int)
      requires Ready() && 4 <= n
      ensures r == 0 <==> NoFit(layout, n)
      ensures r != 0 ==> Fits(layout, n, r) && FirstListed(layout, lists, n, r)
      ensures r != 0 ==> forall q :: Fits(layout, n, q) ==> q in cls && r in cls && cls[r] <= cls[q]
    {
      hide Tiles, NoAdjacentFree, Tagged, Bracketed, FreeClasses;
      var i := GetIndex(n);
      FitsAbove(layout, cls, n);
      while i < LISTS
        invariant 0 <= i <= LISTS
        invariant forall q :: Fits(layout, n, q) ==> q in cls && i <= cls[q] < LISTS
      {
        ghost var s, k := lists[i], 0;
        assert Chain(Words(), Heads()[i], s);
        var bp: int := freeLists[i];
        while bp != 0
          invariant 0 <= k <= |s|
          invariant bp == if k < |s| then s[k] else 0
          invariant forall j :: 0 <= j < k ==> !Fits(layout, n, s[j])
          decreases |s| - k
        {
          assert NodeAt(Words(), s, k) && s[k] in s;
          ListedBlock(Words(), layout, heapListp + 2, brk, cls, lists, bp);
          if n <= GetSize(Get(bp - 1)) {
            FoundFirst(layout, lists, cls, n, bp, i, k);
            return bp;
          }
          bp := Get(bp + 1);
          k := k + 1;
        }
        assert k < |s| ==> NodeAt(Words(), s, k);
        forall q | Fits(layout, n, q)
          ensures q in cls && i + 1 <= cls[q] < LISTS
        {
          assert q in lists[cls[q]];
        }
        i := i + 1;
      }
      return 0;
    }

    /** The end of `mm_malloc`, when no listed block fits. */
    method GrowAndPlace(n: nat) returns (bp: int)
      requires Ready() && 4 <= n && n % 2 == 0 && brk + Growth(n) <= mem.Length
      modifies this`brk, this`layout, this`lists, this`cls, mem, freeLists
      ensures Ready() && bp != 0 && brk == old(brk) + Growth(n)
      ensures var E := Extend(old(layout), old(brk), Growth(n));
              Fits(E, n, bp) && layout == HeapLayout.Place(E, bp, n)
      ensures bp == CoalescedAt(old(layout)[old(brk) := Block(Growth(n), false)], old(brk))
      ensures PayloadsKept(old(layout), old(Words()), Words())
    {
      assert Sized();
      ghost var L, m, hi, lo := layout, Words(), brk, heapListp + 2;
      assert WellFormed(L, lo, hi);
      var words := Growth(n);
      assert RoundUp(words) == words && words >= 4;
      hide RoundUp, Ready, WellFormed, PayloadsKept, Words, HeapLayout.Place, Extend, CoalescedAt, Fits, LiveBlocks;
      hide Growth, Live;
      bp := ExtendHeap(words);
      ghost var E, m1 := layout, Words();
      ExtendedFits(L, lo, hi, n, bp);
      Place(bp, n);
      KeptSameLive(L, E, m, m1, Words());
    }

    /** `mm_malloc` on an initialised heap. */
    method Malloc(size: nat) returns (r: int)
      requires Ready()
      requires size > 0 && NoFit(layout, WordsFor(size)) ==>
                 brk + Growth(WordsFor(size)) <= mem.Length
      modifies this`brk, this`layout, this`lists, this`cls, mem, freeLists
      ensures Ready()
      ensures size == 0 ==> r == 0 && layout == old(layout) && brk == old(brk) && Words() == old(Words())
      ensures size > 0 ==>
                r != 0 && Allocates(old(layout), old(brk), REGION, WordsFor(size), r, layout, brk)
      ensures size > 0 && !NoFit(old(layout), WordsFor(size)) ==>
                FirstListed(old(layout), old(lists), WordsFor(size), r)
      ensures size > 0 ==> Live(layout, r) && r % 2 == 0 && size <= 4 * (layout[r].size - 2) && 4 * layout[r].size < size + 32
      ensures PayloadsKept(old(layout), old(Words()), Words())
    {
      assert Sized();
      hide Ready, PayloadsKept, Words, HeapLayout.Place, Extend, CoalescedAt, NoFit, Fits, FirstListed;
      KeptSame(layout, Words());
      if size == 0 {
        return 0;
      }
      var asize := AdjustedSize(size);
      var n := asize / 4;
      r := FindFit(n);
      ghost var L, lo, hi := layout, heapListp + 2, brk;
      if r != 0 {
        Place(r, n);
      } else {
        r := GrowAndPlace(n);
      }
      PayloadFits(L, lo, hi, REGION, size, r, layout, brk);
    }

    /** `mm_free` of a live block. */
    method Free(bp: int)
      requires Ready() && Live(layout, bp)
      modifies this`layout, this`lists, this`cls, mem, freeLists
      ensures Ready() && layout == HeapLayout.Free(old(layout), bp)
      ensures PayloadsKept(old(layout) - {bp}, old(Words()), Words())
    {
      hide Tiles, NoAdjacentFree, NoAdjacentFreeBut, Tagged, Bracketed, PayloadsKept, LiveBlocks;
      hide Chained, Indexed, FreeClasses, GetSize, WriteTags, Words, Heads, Get;
      hide HeapLayout.Coalesce, CoalescedAt;
      ghost var L, m := layout, Words();
      ClearReady(m, L, heapListp + 2, brk, bp, Heads(), lists, cls);
      var size := GetSize(Get(bp - 1));
      PutTags(bp, size, false);
      layout := SetAlloc(layout, bp, false);
      ghost var m1 := Words();
      var _ := Coalesce(bp);
      FreeKeeps(L, bp, m, m1, Words());
    }

    /** A client may write anything into a payload it holds. */
    method ClientWrite(p: int, k: int, w: Word)
      requires Ready() && Live(layout, p) && InPayload(layout, p, k)
      modifies mem
      ensures Ready() && Words() == old(Words())[k := w]
      ensures PayloadsKept(layout - {p}, old(Words()), Words())
    {
      ghost var m := Words();
      assert TaggedAt(m, p, layout[p]);
      hide Tagged, Bracketed, Chained, Indexed, PayloadsKept, NoAdjacentFree, FreeClasses;
      Put(k, w);
      PayloadWrites(m, Words(), layout, heapListp + 2, brk, p);
      ClientSparesLists(m, Words(), layout, heapListp + 2, brk, p, Heads(), lists, cls);
    }

    constructor ()
      ensures mem.Length == REGION && freeLists.Length == LISTS && mem != freeLists && brk == 0
      ensures fresh(mem) && fresh(freeLists) && 4 * mem.Length == 20 * 1024 * 1024
    {
      mem := new Word[REGION];
      freeLists := new Word[LISTS];
      brk, heapListp, layout, lists, cls := 0, 0, map[], [], map[];
    }

    method ClearLists()
      requires freeLists.Length == LISTS
      modifies freeLists
      ensures forall i :: 0 <= i < LISTS ==> Heads()[i] == 0
    {
      var i := 0;
      while i < LISTS
        invariant 0 <= i <= LISTS
        invariant forall j :: 0 <= j < i ==> freeLists[j] == 0
      {
        freeLists[i] := 0;
        i := i + 1;
      }
    }

    /** The prologue and epilogue of an empty heap at an even break. */
    method Prologue()
      requires mem.Length == REGION && freeLists.Length == LISTS && mem != freeLists
      requires 0 <= brk && brk % 2 == 0 && brk + 4 <= REGION
      modifies this, mem, freeLists
      ensures Ready() && layout == map[] && brk == old(brk) + 4 && heapListp == old(brk) + 2
    {
      ClearLists();
      heapListp := Sbrk(4);
      Put(heapListp, 0);
      Put(heapListp + 1, Pack(2, true));
      Put(heapListp + 2, Pack(2, true));
      Put(heapListp + 3, Pack(0, true));
      heapListp := heapListp + 2;
      layout, lists, cls := map[], seq(LISTS, _ => []), map[];
    }

    /** `mm_init`: one free chunk, listed. */
    method Init() returns (r: int)
      requires mem.Length == REGION && freeLists.Length == LISTS && mem != freeLists
      requires 0 <= brk && brk % 2 == 0 && brk + 4 + CHUNK <= REGION
      modifies this, mem, freeLists
      ensures r == 0 && Ready()
      ensures layout == map[old(brk) + 4 := Block(CHUNK, false)] && brk == old(brk) + 4 + CHUNK
    {
      Prologue();
      FirstChunk(brk, CHUNK);
      hide Ready, Extend, CoalescedAt, PayloadsKept;
      var _ := ExtendHeap(CHUNK);
      return 0;
    }
  }
}
