/** The free lists against the block layout: which blocks are listed, and why list surgery and tag
    writes do not disturb each other. */
module SegIndex {
  import opened Words
  import opened HeapLayout
  import opened Tags
  import opened SegLists

  /** Every free block with the list it belongs in. */
  ghost function FreeClasses(L: Layout): map<int, int> {
    map p | p in L && !L[p].alloc :: ClassOf(L[p].size)
  }

  ghost predicate FreeNodes(L: Layout, nodes: set<int>) {
    forall x :: x in nodes ==> x in L && !L[x].alloc
  }

  /** Link words lie inside free payloads, so list surgery spares tags and live payloads. */
  lemma LinksSpareTags(m: seq<Word>, m': seq<Word>, L: Layout, lo: int, hi: int, nodes: set<int>)
    requires Tagged(m, L) && Bracketed(m, lo, hi) && Tiles(L, lo, hi)
    requires LinksOnly(m, m', nodes) && FreeNodes(L, nodes)
    ensures Tagged(m', L) && Bracketed(m', lo, hi) && PayloadsKept(L, m, m')
  {
    hide Linked, Aligned;
    forall q | q in L
      ensures TaggedAt(m', q, L[q])
    {
      assert TaggedAt(m, q, L[q]);
      TagNotLink(L, lo, hi, nodes, q);
    }
    LinksSparePayloads(m, m', L, lo, hi, nodes);
    assert hi - 1 !in nodes && hi - 2 !in nodes;
    assert lo - 2 !in nodes && lo - 3 !in nodes && lo - 4 !in nodes;
  }

  lemma TagNotLink(L: Layout, lo: int, hi: int, nodes: set<int>, q: int)
    requires Bounded(L, lo, hi) && Disjoint(L) && FreeNodes(L, nodes) && q in L
    ensures q - 1 !in nodes && q - 2 !in nodes
    ensures q + L[q].size - 2 !in nodes && q + L[q].size - 3 !in nodes
  {
  }

  lemma LinksSparePayloads(m: seq<Word>, m': seq<Word>, L: Layout, lo: int, hi: int, nodes: set<int>)
    requires Bounded(L, lo, hi) && Disjoint(L)
    requires LinksOnly(m, m', nodes) && FreeNodes(L, nodes)
    ensures PayloadsKept(L, m, m')
  {
    forall p, k | Live(L, p) && InPayload(L, p, k) && 0 <= k < |m|
      ensures m'[k] == m[k]
    {
      assert k !in nodes && k - 1 !in nodes;
    }
  }

  /** ... and the tags of block `p` spare the links of every other free block. */
  lemma TagsSpareLinks(m: seq<Word>, M: Layout, lo: int, hi: int, p: int, x: int)
    requires Bounded(M, lo, hi) && Disjoint(M) && 1 <= lo && hi <= |m| < 0x3FFF_FFFF
    requires p in M && x in M && x != p
    ensures Spared(m, WriteTags(m, p, M[p]), x)
  {
  }

  lemma TagsSpareLists(m: seq<Word>, M: Layout, lo: int, hi: int, p: int, heads: seq<int>,
                       lists: seq<seq<int>>, cls: map<int, int>)
    requires Bounded(M, lo, hi) && Disjoint(M) && 1 <= lo && hi <= |m| < 0x3FFF_FFFF
    requires p in M && p !in cls && FreeNodes(M, cls.Keys)
    requires Chained(m, heads, lists) && Indexed(cls, lists)
    ensures Chained(WriteTags(m, p, M[p]), heads, lists)
  {
    forall x | x in cls
      ensures Spared(m, WriteTags(m, p, M[p]), x)
    {
      assert x in cls.Keys;
      TagsSpareLinks(m, M, lo, hi, p, x);
    }
    ChainsKept(m, WriteTags(m, p, M[p]), heads, lists, cls);
  }

  // ----- the index through each change of layout

  lemma MergeClasses(L: Layout, lo: int, hi: int, p: int)
    requires Tiles(L, lo, hi) && p in L && FreePair(L, p)
    ensures FreeClasses(Merge(L, p)) - {p} == FreeClasses(L) - {p} - {p + L[p].size}
  {
  }

  lemma PlaceClasses(L: Layout, lo: int, hi: int, p: int, n: nat)
    requires Tiles(L, lo, hi) && Fits(L, n, p) && 4 <= n && n % 2 == 0
    ensures FreeClasses(Place(L, p, n)) ==
            if L[p].size - n >= 4 then (FreeClasses(L) - {p})[p + n := ClassOf(L[p].size - n)]
            else FreeClasses(L) - {p}
    ensures L[p].size - n >= 4 ==> p + n !in FreeClasses(L)
  {
    if L[p].size - n >= 4 {
      SplitTiles(L, lo, hi, p, n);
    }
  }

  lemma ClearClasses(L: Layout, p: int)
    requires Live(L, p)
    ensures FreeClasses(SetAlloc(L, p, false)) - {p} == FreeClasses(L)
  {
  }

  lemma AppendClasses(L: Layout, hi: int, n: nat)
    requires hi !in L
    ensures FreeClasses(L[hi := Block(n, false)]) - {hi} == FreeClasses(L)
  {
  }

  /** `coalesce` of flsp.c merges with the block in front first ... */
  lemma FrontMerge(L: Layout, lo: int, hi: int, p: int)
    requires Tiles(L, lo, hi) && p in L && !L[p].alloc && PredFree(L, p)
    ensures var q := PredOf(L, p); EndsAt(L, q, p) && q < p && FreePair(L, q)
    ensures var q := PredOf(L, p); NextFree(Merge(L, q), q) <==> NextFree(L, p)
    ensures CoalescedAt(L, p) == PredOf(L, p)
  {
    var q := PredOf(L, p);
    var f :| EndsAt(L, f, p) && !L[f].alloc;
    assert EndsAt(L, q, p) && EndsAt(L, f, p);
    PredUnique(L, lo, hi, q, f, p);
    hide Aligned, Linked;
  }

  /** ... and then with the one behind, which comes to the same layout. */
  lemma CoalesceFrontFirst(L: Layout, lo: int, hi: int, p: int)
    requires Tiles(L, lo, hi) && p in L && !L[p].alloc && PredFree(L, p)
    requires FreePair(L, PredOf(L, p)) && EndsAt(L, PredOf(L, p), p)
    requires NextFree(Merge(L, PredOf(L, p)), PredOf(L, p)) <==> NextFree(L, p)
    ensures var M := Merge(L, PredOf(L, p));
            Coalesce(L, p) == if NextFree(L, p) then Merge(M, PredOf(L, p)) else M
  {
    hide Tiles;
  }

  lemma CoalesceBehind(L: Layout, lo: int, hi: int, p: int)
    requires Tiles(L, lo, hi) && p in L && !L[p].alloc && !PredFree(L, p)
    ensures Coalesce(L, p) == if NextFree(L, p) then Merge(L, p) else L
    ensures CoalescedAt(L, p) == p
  {
    hide Tiles;
  }

  lemma MergeChanges(L: Layout, lo: int, hi: int, p: int)
    requires Tiles(L, lo, hi) && p in L && FreePair(L, p)
    ensures Tiles(Merge(L, p), lo, hi) && LiveBlocks(Merge(L, p)) == LiveBlocks(L)
    ensures ChangesOnly(L, Merge(L, p), p)
    ensures p in Merge(L, p) && Merge(L, p)[p] == Block(L[p].size + L[p + L[p].size].size, false)
  {
    MergeTiles(L, lo, hi, p);
    MergeKeepsLive(L, lo, hi, p);
  }

  lemma ListedFree(L: Layout, cls: map<int, int>, p: int)
    requires cls == FreeClasses(L) - {p}
    ensures FreeNodes(L, cls.Keys) && p !in cls
  {
  }

  /** Where a listed block stands in its list. */
  lemma Position(cls: map<int, int>, lists: seq<seq<int>>, p: int) returns (k: int)
    requires Indexed(cls, lists) && p in cls
    ensures 0 <= cls[p] < LISTS == |lists|
    ensures 0 <= k < |lists[cls[p]]| && lists[cls[p]][k] == p
  {
    k :| 0 <= k < |lists[cls[p]]| && lists[cls[p]][k] == p;
  }

  /** Merging free block `p` with the free block behind it, on words and lists: the tags of the
      merged block are written after whatever list surgery led from `m` to `m1`. */
  lemma MergeWords(m: seq<Word>, m1: seq<Word>, L: Layout, lo: int, hi: int, p: int, nodes: set<int>,
                   heads: seq<int>, lists: seq<seq<int>>, cls: map<int, int>)
    requires Tagged(m, L) && Bracketed(m, lo, hi) && Tiles(L, lo, hi) && |m| < 0x3FFF_FFFF
    requires p in L && FreePair(L, p)
    requires LinksOnly(m, m1, nodes) && FreeNodes(L, nodes)
    requires Chained(m1, heads, lists) && Indexed(cls, lists)
    requires cls == FreeClasses(L) - {p} - {p + L[p].size}
    ensures Tiles(Merge(L, p), lo, hi) && cls == FreeClasses(Merge(L, p)) - {p}
    ensures p in Merge(L, p) && 1 <= p && p + Merge(L, p)[p].size <= |m|
    ensures 4 <= Merge(L, p)[p].size < 0x3FFF_FFFF
    ensures Merge(L, p)[p] == Block(L[p].size + L[p + L[p].size].size, false)
    ensures GetSize(m1[p - 1]) == L[p].size
    ensures GetSize(m1[p + L[p].size - 1]) == L[p + L[p].size].size
    ensures var w := WriteTags(m1, p, Merge(L, p)[p]);
            && Tagged(w, Merge(L, p)) && Bracketed(w, lo, hi) && PayloadsKept(L, m, w)
            && Chained(w, heads, lists)
  {
    assert hi <= |m| && 4 <= lo;
    MergeChanges(L, lo, hi, p);
    MergeClasses(L, lo, hi, p);
    var M := Merge(L, p);
    assert lo <= p && 4 <= M[p].size && p + M[p].size <= hi;
    ListedFree(M, cls, p);
    hide Linked, Aligned, Tagged, Bracketed, LiveBlocks, ChangesOnly, PayloadsKept, Chained, Indexed;
    hide FreeClasses, FreeNodes, LinksOnly, Merge, WriteTags;
    LinksSpareTags(m, m1, L, lo, hi, nodes);
    TagRead(m1, L, p);
    TagRead(m1, L, p + L[p].size);
    RetagFree(m1, L, M, lo, hi, p);
    TagsSpareLists(m1, M, lo, hi, p, heads, lists, cls);
    KeptThrough(L, m, m1, WriteTags(m1, p, M[p]));
  }

  /** Finding the free block in front of the pending block `p`, in memory and in its list. */
  lemma FrontReady(m: seq<Word>, L: Layout, lo: int, hi: int, p: int, cls: map<int, int>, lists: seq<seq<int>>)
    returns (q: int, k: int)
    requires Tagged(m, L) && Bracketed(m, lo, hi) && Tiles(L, lo, hi)
    requires p in L && !L[p].alloc && PredFree(L, p)
    requires Indexed(cls, lists) && cls == FreeClasses(L) - {p}
    ensures q == PredOf(L, p) && q in L && q + L[q].size == p && FreePair(L, q)
    ensures 1 <= q && q + 1 < |m| && 2 <= p <= |m| && q == p - GetSize(m[p - 2])
    ensures GetSize(m[q - 1]) == L[q].size
    ensures q in cls && cls[q] == ClassOf(L[q].size) && cls[q] < LISTS
    ensures |lists| == LISTS && 0 <= k < |lists[cls[q]]| && lists[cls[q]][k] == q
    ensures FreeNodes(L, cls.Keys) && cls - {q} == FreeClasses(L) - {q} - {p}
  {
    FrontMerge(L, lo, hi, p);
    Before(m, L, lo, hi, p);
    q := PredOf(L, p);
    TagRead(m, L, q);
    ListedFree(L, cls, p);
    hide Tiles, Tagged, Bracketed, Merge, GetSize;
    k := Position(cls, lists, q);
  }

  /** Finding the free block behind the pending block `p`, in memory and in its list. */
  lemma BehindReady(m: seq<Word>, L: Layout, lo: int, hi: int, p: int, cls: map<int, int>, lists: seq<seq<int>>)
    returns (n: int, k: int)
    requires Tagged(m, L) && Bracketed(m, lo, hi) && Tiles(L, lo, hi)
    requires p in L && !L[p].alloc && NextFree(L, p)
    requires Indexed(cls, lists) && cls == FreeClasses(L) - {p}
    ensures n == p + L[p].size && n in L && FreePair(L, p)
    ensures 1 <= p < |m| && GetSize(m[p - 1]) == L[p].size
    ensures 1 <= n && n + 1 < |m| && GetSize(m[n - 1]) == L[n].size
    ensures n in cls && cls[n] == ClassOf(L[n].size) && cls[n] < LISTS
    ensures |lists| == LISTS && 0 <= k < |lists[cls[n]]| && lists[cls[n]][k] == n
    ensures FreeNodes(L, cls.Keys) && cls - {n} == FreeClasses(L) - {p} - {n}
  {
    n := p + L[p].size;
    Behind(m, L, lo, hi, p);
    ListedFree(L, cls, p);
    hide Tiles, Tagged, Bracketed, GetSize;
    k := Position(cls, lists, n);
  }

  lemma ListPending(L: Layout, lo: int, hi: int, p: int, cls: map<int, int>)
    requires Bounded(L, lo, hi) && Aligned(L) && 4 <= lo
    requires p in L && !L[p].alloc && cls == FreeClasses(L) - {p}
    ensures p !in cls && 0 < p && p % 2 == 0 && p + 1 < hi
    ensures cls[p := ClassOf(L[p].size)] == FreeClasses(L)
    ensures FreeNodes(L, cls.Keys + {p})
  {
  }

  /** The live blocks through the two halves of `coalesce`. */
  lemma HalvesKeepLive(L: Layout, lo: int, hi: int, p: int, L1: Layout, q: int, L2: Layout)
    requires Tiles(L, lo, hi) && p in L && !L[p].alloc
    requires if PredFree(L, p) then q == PredOf(L, p) && q in L && FreePair(L, q) && L1 == Merge(L, q)
             else q == p && L1 == L
    requires Tiles(L1, lo, hi)
    requires if NextFree(L, p) then q in L1 && FreePair(L1, q) && L2 == Merge(L1, q) else L2 == L1
    ensures LiveBlocks(L1) == LiveBlocks(L) && LiveBlocks(L2) == LiveBlocks(L)
    ensures L2 == Coalesce(L, p) && q == CoalescedAt(L, p)
  {
    if PredFree(L, p) {
      MergeKeepsLive(L, lo, hi, q);
      FrontMerge(L, lo, hi, p);
      CoalesceFrontFirst(L, lo, hi, p);
    } else {
      CoalesceBehind(L, lo, hi, p);
    }
    if NextFree(L, p) {
      MergeKeepsLive(L1, lo, hi, q);
    }
  }

  /** The writes of `extend_heap` lie behind every listed block. */
  lemma AppendSparesLists(m: seq<Word>, L: Layout, lo: int, hi: int, n: nat, heads: seq<int>,
                          lists: seq<seq<int>>, cls: map<int, int>)
    requires Bounded(L, lo, hi) && 4 <= lo <= hi && 4 <= n && hi + n <= |m| < 0x3FFF_FFFF
    requires FreeNodes(L, cls.Keys) && Chained(m, heads, lists) && Indexed(cls, lists)
    ensures Chained(WriteTags(m, hi, Block(n, false))[hi + n - 1 := Pack(0, true)], heads, lists)
  {
    var m' := WriteTags(m, hi, Block(n, false))[hi + n - 1 := Pack(0, true)];
    forall x | x in cls
      ensures Spared(m, m', x)
    {
      assert x in cls.Keys;
    }
    ChainsKept(m, m', heads, lists, cls);
  }

  /** The tag writes of `place` spare every block still listed. */
  lemma PlaceSparesLists(m: seq<Word>, L: Layout, lo: int, hi: int, p: int, n: nat, heads: seq<int>,
                         lists: seq<seq<int>>, cls: map<int, int>)
    requires Bounded(L, lo, hi) && Disjoint(L) && 4 <= lo && hi <= |m| < 0x3FFF_FFFF
    requires p in L && 4 <= n <= L[p].size && p !in cls
    requires FreeNodes(L, cls.Keys) && Chained(m, heads, lists) && Indexed(cls, lists)
    ensures Chained(PlaceWrites(m, p, L[p].size, n), heads, lists)
  {
    var m' := PlaceWrites(m, p, L[p].size, n);
    forall x | x in cls
      ensures Spared(m, m', x)
    {
      assert x in cls.Keys;
      assert x + L[x].size <= p || p + L[p].size <= x;
    }
    ChainsKept(m, m', heads, lists, cls);
  }

  lemma AppendReady(m: seq<Word>, L: Layout, lo: int, hi: int, n: nat, heads: seq<int>,
                    lists: seq<seq<int>>, cls: map<int, int>)
    requires Tagged(m, L) && Bracketed(m, lo, hi) && WellFormed(L, lo, hi) && hi % 2 == 0
    requires Chained(m, heads, lists) && Indexed(cls, lists) && cls == FreeClasses(L)
    requires 4 <= n && n % 2 == 0 && 4 <= lo && hi + n <= |m| < 0x3FFF_FFFF
    ensures hi !in L
    ensures var A, m' := L[hi := Block(n, false)], WriteTags(m, hi, Block(n, false))[hi + n - 1 := Pack(0, true)];
            && Tiles(A, lo, hi + n) && NoAdjacentFreeBut(A, hi)
            && Tagged(m', A) && Bracketed(m', lo, hi + n) && Chained(m', heads, lists)
            && cls == FreeClasses(A) - {hi} && PayloadsKept(L, m, m')
  {
    AppendTiles(L, lo, hi, n);
    ListedFree(L, cls, hi);
    assert Bounded(L, lo, hi);
    hide Tiles, NoAdjacentFree, NoAdjacentFreeBut, Tagged, Bracketed, PayloadsKept, LiveBlocks, Bounded;
    hide Chained, Indexed, FreeClasses, FreeNodes, WriteTags, Pack;
    AppendPairs(L, lo, hi, n);
    AppendTags(m, L, lo, hi, n);
    AppendSparesLists(m, L, lo, hi, n, heads, lists, cls);
    AppendClasses(L, hi, n);
  }

  lemma FitListed(m: seq<Word>, L: Layout, lo: int, hi: int, p: int, n: nat, cls: map<int, int>, lists: seq<seq<int>>)
    returns (k: int)
    requires Tagged(m, L) && Bracketed(m, lo, hi) && Tiles(L, lo, hi) && Fits(L, n, p) && 4 <= n
    requires Indexed(cls, lists) && cls == FreeClasses(L)
    ensures p in cls && cls[p] == ClassOf(L[p].size) && cls[p] < LISTS && FreeNodes(L, cls.Keys)
    ensures 1 <= p && p + L[p].size <= hi <= |m| && n <= L[p].size && GetSize(m[p - 1]) == L[p].size
    ensures |lists| == LISTS && 0 <= k < |lists[cls[p]]| && lists[cls[p]][k] == p
    ensures cls - {p} == FreeClasses(L) - {p}
  {
    TagRead(m, L, p);
    hide Tagged, GetSize, Linked, Disjoint, Aligned;
    k := Position(cls, lists, p);
  }

  lemma PlaceReady(m: seq<Word>, L: Layout, lo: int, hi: int, p: int, n: nat, heads: seq<int>,
                   lists: seq<seq<int>>, cls: map<int, int>)
    requires Tagged(m, L) && Bracketed(m, lo, hi) && WellFormed(L, lo, hi) && |m| < 0x3FFF_FFFF
    requires Fits(L, n, p) && 4 <= n && n % 2 == 0
    requires Chained(m, heads, lists) && Indexed(cls, lists) && cls == FreeClasses(L) - {p}
    ensures 1 <= p && n <= L[p].size < 0x3FFF_FFFF && p + L[p].size <= hi <= |m|
    ensures GetSize(m[p - 1]) == L[p].size
    ensures var M, w := Place(L, p, n), PlaceWrites(m, p, L[p].size, n);
            && WellFormed(M, lo, hi) && Tagged(w, M) && Bracketed(w, lo, hi)
            && Chained(w, heads, lists) && PayloadsKept(L, m, w)
            && if L[p].size - n >= 4 then
                 p + n in M && M[p + n] == Block(L[p].size - n, false) && cls == FreeClasses(M) - {p + n}
               else cls == FreeClasses(M)
  {
    TagRead(m, L, p);
    ListedFree(L, cls, p);
    assert p + L[p].size <= hi <= |m| && 4 <= lo;
    PlaceTags(m, L, lo, hi, p, n);
    PlaceWellFormed(L, lo, hi, p, n);
    PlaceClasses(L, lo, hi, p, n);
    PlaceSparesLists(m, L, lo, hi, p, n, heads, lists, cls);
    hide Tiles, NoAdjacentFree, Tagged, Bracketed, PayloadsKept, LiveBlocks, Chained, Indexed, FreeNodes;
    hide PlaceWrites, GetSize, FreeClasses;
  }

  /** Placing keeps what is live, whatever list surgery came before and after. */
  lemma PlaceKeeps(L: Layout, lo: int, hi: int, p: int, n: nat, m: seq<Word>, m1: seq<Word>, m2: seq<Word>, m3: seq<Word>)
    requires WellFormed(L, lo, hi) && Fits(L, n, p) && 4 <= n && n % 2 == 0
    requires PayloadsKept(L, m, m1) && PayloadsKept(L, m1, m2) && PayloadsKept(Place(L, p, n), m2, m3)
    ensures PayloadsKept(L, m, m3)
  {
    PlaceWellFormed(L, lo, hi, p, n);
    forall q, k | Live(L, q) && InPayload(L, q, k) && 0 <= k < |m|
      ensures m3[k] == m[k]
    {
      assert q in LiveBlocks(L) && p !in LiveBlocks(L);
      assert q in LiveBlocks(Place(L, p, n)) && LiveBlocks(Place(L, p, n))[q] == L[q].size;
      assert Live(Place(L, p, n), q) && InPayload(Place(L, p, n), q, k);
    }
  }

  lemma ClearReady(m: seq<Word>, L: Layout, lo: int, hi: int, p: int, heads: seq<int>,
                   lists: seq<seq<int>>, cls: map<int, int>)
    requires Tagged(m, L) && Bracketed(m, lo, hi) && WellFormed(L, lo, hi) && |m| < 0x3FFF_FFFF
    requires Live(L, p) && Chained(m, heads, lists) && Indexed(cls, lists) && cls == FreeClasses(L)
    ensures 1 <= p && p + L[p].size <= |m| && 4 <= L[p].size < 0x3FFF_FFFF
    ensures GetSize(m[p - 1]) == L[p].size
    ensures var F, w := SetAlloc(L, p, false), WriteTags(m, p, Block(L[p].size, false));
            && Tiles(F, lo, hi) && NoAdjacentFreeBut(F, p)
            && Tagged(w, F) && Bracketed(w, lo, hi) && Chained(w, heads, lists)
            && cls == FreeClasses(F) - {p} && PayloadsKept(L - {p}, m, w)
  {
    ClearTags(m, L, lo, hi, p);
    ClearTiles(L, lo, hi, p);
    ClearClasses(L, p);
    assert 4 <= lo && hi <= |m|;
    var F := SetAlloc(L, p, false);
    ListedFree(F, cls, p);
    assert Bounded(F, lo, hi) && Disjoint(F);
    hide Tiles, NoAdjacentFree, NoAdjacentFreeBut, Tagged, Bracketed, PayloadsKept, LiveBlocks;
    hide Chained, Indexed, FreeNodes, FreeClasses, Bounded, Disjoint, GetSize, WriteTags;
    TagsSpareLists(m, F, lo, hi, p, heads, lists, cls);
  }

  /** A client's write in a live payload spares every link. */
  lemma ClientSparesLists(m: seq<Word>, m': seq<Word>, L: Layout, lo: int, hi: int, p: int, heads: seq<int>,
                          lists: seq<seq<int>>, cls: map<int, int>)
    requires Bounded(L, lo, hi) && Disjoint(L) && Live(L, p) && cls == FreeClasses(L)
    requires |m'| == |m| && forall k :: 0 <= k < |m| && !InPayload(L, p, k) ==> m'[k] == m[k]
    requires Chained(m, heads, lists) && Indexed(cls, lists)
    ensures Chained(m', heads, lists)
  {
    forall x | x in cls
      ensures Spared(m, m', x)
    {
      assert x in L && x != p && !InPayload(L, p, x) && !InPayload(L, p, x + 1);
    }
    hide Chained, Indexed;
    ChainsKept(m, m', heads, lists, cls);
  }

  /** Every fitting block is in the list of the request's class or a later one. */
  lemma FitsAbove(L: Layout, cls: map<int, int>, n: nat)
    requires cls == FreeClasses(L)
    ensures forall q :: Fits(L, n, q) ==> q in cls && ClassOf(n) <= cls[q] < LISTS
  {
    forall q | Fits(L, n, q)
      ensures q in cls && ClassOf(n) <= cls[q] < LISTS
    {
      assert q in FreeClasses(L);
      ClassMonotone(n, L[q].size);
    }
  }

  /** The block at place `k` of list `i` is the first that fits, list by list from the heads. */
  ghost predicate FirstAt(L: Layout, lists: seq<seq<int>>, n: nat, r: int, i: nat, k: nat) {
    && i < |lists| && k < |lists[i]| && lists[i][k] == r && Fits(L, n, r)
    && (forall h, j :: 0 <= h < i && 0 <= j < |lists[h]| ==> !Fits(L, n, lists[h][j]))
    && (forall j :: 0 <= j < k ==> !Fits(L, n, lists[i][j]))
  }

  ghost predicate FirstListed(L: Layout, lists: seq<seq<int>>, n: nat, r: int) {
    exists i, k :: FirstAt(L, lists, n, r, i, k)
  }

  lemma FoundFirst(L: Layout, lists: seq<seq<int>>, cls: map<int, int>, n: nat, r: int, i: nat, k: nat)
    requires Indexed(cls, lists) && i < |lists| && k < |lists[i]| && lists[i][k] == r && Fits(L, n, r)
    requires forall q :: Fits(L, n, q) ==> q in cls && i <= cls[q] < LISTS
    requires forall j :: 0 <= j < k ==> !Fits(L, n, lists[i][j])
    ensures FirstListed(L, lists, n, r)
  {
    forall h, j | 0 <= h < i && 0 <= j < |lists[h]|
      ensures !Fits(L, n, lists[h][j])
    {
      assert lists[h][j] in lists[h];
    }
    hide Fits;
    assert FirstAt(L, lists, n, r, i, k);
  }

  lemma ListedBlock(m: seq<Word>, L: Layout, lo: int, hi: int, cls: map<int, int>, lists: seq<seq<int>>, p: int)
    requires Tagged(m, L) && Tiles(L, lo, hi) && 1 <= lo && hi <= |m|
    requires cls == FreeClasses(L) && p in cls
    ensures p in L && !L[p].alloc && 1 <= p && p + 1 < |m| && GetSize(m[p - 1]) == L[p].size
  {
    TagRead(m, L, p);
  }

  lemma ExtendedFits(L: Layout, lo: int, hi: int, n: nat, p: int)
    requires WellFormed(L, lo, hi) && hi % 2 == 0 && 4 <= lo && 4 <= n && n % 2 == 0
    requires p == CoalescedAt(L[hi := Block(Growth(n), false)], hi)
    ensures p != 0 && Fits(Extend(L, hi, Growth(n)), n, p)
    ensures LiveBlocks(Extend(L, hi, Growth(n))) == LiveBlocks(L)
  {
    ExtendWellFormed(L, lo, hi, Growth(n));
    FitsLess(Extend(L, hi, Growth(n)), Growth(n), n, p);
  }

  /** Place `k` of list `i` holds block `p`. */
  predicate Occurs(lists: seq<seq<int>>, p: int, i: nat, k: nat) {
    i < |lists| && k < |lists[i]| && lists[i][k] == p
  }

  /** What the index promises: every free block is listed exactly once, in the list of its size, and no
      allocated block is listed. */
  lemma ListedExactlyOnce(L: Layout, lists: seq<seq<int>>, p: int)
    requires Indexed(FreeClasses(L), lists)
    ensures (p in L && !L[p].alloc) <==> exists i, k :: Occurs(lists, p, i, k)
    ensures forall i, k :: Occurs(lists, p, i, k) ==> p in L && i == ClassOf(L[p].size)
    ensures forall i, k, j, l :: Occurs(lists, p, i, k) && Occurs(lists, p, j, l) ==> i == j && k == l
  {
    var cls := FreeClasses(L);
    if p in L && !L[p].alloc {
      assert p in cls;
      var k :| 0 <= k < |lists[cls[p]]| && lists[cls[p]][k] == p;
      assert Occurs(lists, p, cls[p], k);
    }
    forall i: nat, k: nat | Occurs(lists, p, i, k)
      ensures p in cls && i == cls[p]
    {
      assert p in lists[i];
    }
    forall i: nat, k: nat, j: nat, l: nat | Occurs(lists, p, i, k) && Occurs(lists, p, j, l)
      ensures i == j && k == l
    {
      assert p in lists[i] && p in lists[j];
      assert NoDuplicates(lists[i]);
    }
    hide ClassOf;
  }
}
