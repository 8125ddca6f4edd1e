/** How a block layout is written into the words of the heap. */
module Tags {
  import opened Words
  import opened HeapLayout

  function Tag(b: Block): Word
    requires b.size < 0x3FFF_FFFF
  {
    Pack(b.size, b.alloc)
  }

  /** Every block carries its tag in its header and its footer. */
  ghost predicate Tagged(m: seq<Word>, L: Layout) {
    forall p :: p in L ==> TaggedAt(m, p, L[p])
  }

  ghost predicate TaggedAt(m: seq<Word>, p: int, b: Block) {
    && 4 <= b.size < 0x3FFF_FFFF
    && 1 <= p && p + b.size <= |m|
    && m[p - 1] == Tag(b) && m[p + b.size - 2] == Tag(b)
  }

  /** The prologue block in front of `lo` and the epilogue header at the break. */
  ghost predicate Bracketed(m: seq<Word>, lo: int, hi: int) {
    && 4 <= lo <= hi <= |m|
    && m[lo - 3] == Pack(2, true) && m[lo - 2] == Pack(2, true)
    && m[hi - 1] == Pack(0, true)
  }

  /** No word of a live payload differs. */
  ghost predicate PayloadsKept(L: Layout, before: seq<Word>, after: seq<Word>) {
    && |before| == |after|
    && forall p, k :: Live(L, p) && InPayload(L, p, k) && 0 <= k < |before| ==> after[k] == before[k]
  }

  /** The header and footer writes of a block. */
  function WriteTags(m: seq<Word>, p: int, b: Block): (r: seq<Word>)
    requires 4 <= b.size < 0x3FFF_FFFF
    requires 1 <= p && p + b.size <= |m|
    ensures |r| == |m| && TaggedAt(r, p, b)
  {
    m[p - 1 := Tag(b)][p + b.size - 2 := Tag(b)]
  }

  /** Writing the two tags of the one new block is enough to pass from one layout to the next. */
  lemma Retag(m: seq<Word>, L: Layout, M: Layout, lo: int, hi: int, p: int)
    requires Tagged(m, L) && Bracketed(m, lo, hi)
    requires Bounded(M, lo, hi) && Disjoint(M)
    requires p in M && ChangesOnly(L, M, p) && M[p].size < 0x3FFF_FFFF
    ensures Tagged(WriteTags(m, p, M[p]), M)
    ensures Bracketed(WriteTags(m, p, M[p]), lo, hi)
  {
    var m' := WriteTags(m, p, M[p]);
    forall q | q in M && q != p
      ensures TaggedAt(m', q, M[q])
    {
      assert TaggedAt(m, q, L[q]);
    }
  }

  /** ... and it spares the payload of every other block. */
  lemma RetagSpares(m: seq<Word>, L: Layout, M: Layout, lo: int, hi: int, p: int)
    requires Bounded(M, lo, hi) && Disjoint(M)
    requires 1 <= lo && hi <= |m|
    requires p in M && M[p].size < 0x3FFF_FFFF
    requires KeepsLive(L, M, p)
    ensures PayloadsKept(L, m, WriteTags(m, p, M[p]))
  {
    forall q, k | Live(L, q) && InPayload(L, q, k) && 0 <= k < |m|
      ensures WriteTags(m, p, M[p])[k] == m[k]
    {
      assert q in M;
    }
  }

  lemma TagRead(m: seq<Word>, L: Layout, p: int)
    requires Tagged(m, L) && Aligned(L) && p in L
    ensures TaggedAt(m, p, L[p])
    ensures GetSize(m[p - 1]) == GetSize(m[p + L[p].size - 2]) == L[p].size
    ensures GetAlloc(m[p - 1]) == GetAlloc(m[p + L[p].size - 2]) == L[p].alloc
  {
    assert TaggedAt(m, p, L[p]);
    Unpack(L[p].size, L[p].alloc);
  }

  /** What the header behind block `p` says. */
  lemma Behind(m: seq<Word>, L: Layout, lo: int, hi: int, p: int)
    requires Tagged(m, L) && Bracketed(m, lo, hi) && Tiles(L, lo, hi) && p in L
    ensures 1 <= p < |m| && GetSize(m[p - 1]) == L[p].size
    ensures 4 <= L[p].size && p + L[p].size <= hi
    ensures GetAlloc(m[p + L[p].size - 1]) <==> !NextFree(L, p)
    ensures NextFree(L, p) ==>
              var n := p + L[p].size;
              && n + L[n].size <= hi && 4 <= L[n].size && GetSize(m[n - 1]) == L[n].size
              && GetSize(m[n + L[n].size - 2]) == L[n].size
  {
    Next(L, lo, hi, p);
    TagRead(m, L, p);
    Unpack(0, true);
    if p + L[p].size in L {
      TagRead(m, L, p + L[p].size);
    }
  }

  /** What the footer in front of block `p` says, the prologue's if `p` is the first block. */
  lemma Before(m: seq<Word>, L: Layout, lo: int, hi: int, p: int)
    requires Tagged(m, L) && Bracketed(m, lo, hi) && Tiles(L, lo, hi) && p in L
    ensures 4 <= p <= |m|
    ensures var q := p - GetSize(m[p - 2]);
            && 2 <= q < p && GetSize(m[q - 1]) == p - q
            && (PredFree(L, p) ==> q == PredOf(L, p) && p - q == L[q].size)
    ensures GetAlloc(m[p - 2]) <==> !PredFree(L, p)
  {
    if p != lo {
      PredExists(L, lo, hi, lo, p);
      var q := PredOf(L, p);
      TagRead(m, L, q);
      forall f | EndsAt(L, f, p)
        ensures f == q
      {
        PredUnique(L, lo, hi, q, f, p);
      }
    } else {
      assert forall q :: !EndsAt(L, q, p);
      Unpack(2, true);
    }
  }

  /** Layouts with the same live blocks agree on them. */
  lemma LiveKept(L: Layout, M: Layout, p: int)
    requires LiveBlocks(L) == LiveBlocks(M)
    requires p !in LiveBlocks(M)
    ensures KeepsLive(L, M, p)
  {
    forall q | Live(L, q)
      ensures q in M && q != p && M[q] == L[q]
    {
      assert q in LiveBlocks(L) && LiveBlocks(L)[q] == LiveBlocks(M)[q];
    }
  }

  /** The memory after one block of a layout has been rewritten and no live block has changed. */
  lemma RetagFree(m: seq<Word>, L: Layout, M: Layout, lo: int, hi: int, p: int)
    requires Tagged(m, L) && Bracketed(m, lo, hi)
    requires Tiles(M, lo, hi) && hi < 0x3FFF_FFFF
    requires p in M && !M[p].alloc && ChangesOnly(L, M, p)
    requires LiveBlocks(L) == LiveBlocks(M)
    ensures TaggedAt(WriteTags(m, p, M[p]), p, M[p])
    ensures Tagged(WriteTags(m, p, M[p]), M) && Bracketed(WriteTags(m, p, M[p]), lo, hi)
    ensures PayloadsKept(L, m, WriteTags(m, p, M[p]))
  {
    Retag(m, L, M, lo, hi, p);
    LiveKept(L, M, p);
    RetagSpares(m, L, M, lo, hi, p);
  }

  /** The memory after `place`: one pair of tags, or two when the block is split. */
  function PlaceWrites(m: seq<Word>, p: int, size: nat, n: nat): (r: seq<Word>)
    requires 4 <= n <= size < 0x3FFF_FFFF
    requires 1 <= p && p + size <= |m|
    ensures |r| == |m|
  {
    if size - n >= 4 then
      WriteTags(WriteTags(m, p, Block(n, true)), p + n, Block(size - n, false))
    else
      WriteTags(m, p, Block(size, true))
  }

  lemma KeptSame(L: Layout, m: seq<Word>)
    ensures PayloadsKept(L, m, m)
  {
  }

  lemma KeptThrough(L: Layout, m: seq<Word>, m1: seq<Word>, m2: seq<Word>)
    requires PayloadsKept(L, m, m1) && PayloadsKept(L, m1, m2)
    ensures PayloadsKept(L, m, m2)
  {
  }

  /** The layout between the two pairs of writes of a splitting `place`. */
  lemma FrontOnly(L: Layout, lo: int, hi: int, p: int, n: nat)
    requires Tiles(L, lo, hi)
    requires p in L && !L[p].alloc && 4 <= n && n + 4 <= L[p].size
    ensures var L1 := L[p := Block(n, true)];
            && Bounded(L1, lo, hi) && Disjoint(L1)
            && ChangesOnly(L, L1, p) && KeepsLive(L, L1, p)
            && ChangesOnly(L1, Place(L, p, n), p + n) && KeepsLive(L, Place(L, p, n), p + n)
  {
  }

  lemma PlaceSplitTags(m: seq<Word>, L: Layout, lo: int, hi: int, p: int, n: nat)
    requires Tagged(m, L) && Bracketed(m, lo, hi) && Tiles(L, lo, hi)
    requires p in L && !L[p].alloc && 4 <= n && n % 2 == 0 && n + 4 <= L[p].size < 0x3FFF_FFFF
    ensures TaggedAt(m, p, L[p])
    ensures Tagged(PlaceWrites(m, p, L[p].size, n), Place(L, p, n))
    ensures Bracketed(PlaceWrites(m, p, L[p].size, n), lo, hi)
    ensures PayloadsKept(L, m, PlaceWrites(m, p, L[p].size, n))
  {
    var M := Place(L, p, n);
    var L1 := L[p := Block(n, true)];
    assert TaggedAt(m, p, L[p]);
    assert lo <= p && 4 <= lo && p + L[p].size <= hi <= |m|;
    SplitTiles(L, lo, hi, p, n);
    SetAllocTiles(Split(L, p, n), lo, hi, p, true);
    FrontOnly(L, lo, hi, p, n);
    hide PayloadsKept, Linked, Aligned, Bounded, Disjoint, Tagged, Bracketed, ChangesOnly, KeepsLive;
    Retag(m, L, L1, lo, hi, p);
    RetagSpares(m, L, L1, lo, hi, p);
    var m1 := WriteTags(m, p, L1[p]);
    Retag(m1, L1, M, lo, hi, p + n);
    RetagSpares(m1, L, M, lo, hi, p + n);
    assert M[p + n] == Block(L[p].size - n, false);
    KeptThrough(L, m, m1, WriteTags(m1, p + n, M[p + n]));
  }

  lemma PlaceTags(m: seq<Word>, L: Layout, lo: int, hi: int, p: int, n: nat)
    requires Tagged(m, L) && Bracketed(m, lo, hi) && WellFormed(L, lo, hi)
    requires Fits(L, n, p) && 4 <= n && n % 2 == 0 && hi < 0x3FFF_FFFF
    ensures TaggedAt(m, p, L[p])
    ensures Tagged(PlaceWrites(m, p, L[p].size, n), Place(L, p, n))
    ensures Bracketed(PlaceWrites(m, p, L[p].size, n), lo, hi)
    ensures PayloadsKept(L, m, PlaceWrites(m, p, L[p].size, n))
  {
    assert TaggedAt(m, p, L[p]);
    if L[p].size - n >= 4 {
      PlaceSplitTags(m, L, lo, hi, p, n);
    } else {
      var M := Place(L, p, n);
      SetAllocTiles(L, lo, hi, p, true);
      hide PayloadsKept, Linked, Tagged, Bracketed;
      Retag(m, L, M, lo, hi, p);
      RetagSpares(m, L, M, lo, hi, p);
    }
  }

  /** The memory after `extend_heap` has written the new block and the new epilogue. */
  lemma AppendTags(m: seq<Word>, L: Layout, lo: int, hi: int, n: nat)
    requires Tagged(m, L) && Bracketed(m, lo, hi) && WellFormed(L, lo, hi)
    requires 4 <= n && n % 2 == 0 && hi % 2 == 0 && hi + n <= |m| < 0x3FFF_FFFF
    ensures var m' := WriteTags(m, hi, Block(n, false))[hi + n - 1 := Pack(0, true)];
            && Tagged(m', L[hi := Block(n, false)]) && Bracketed(m', lo, hi + n)
            && PayloadsKept(L, m, m')
  {
    var m' := WriteTags(m, hi, Block(n, false))[hi + n - 1 := Pack(0, true)];
    forall q | q in L
      ensures TaggedAt(m', q, L[q])
    {
      assert TaggedAt(m, q, L[q]);
    }
  }

  lemma AppendKeeps(L: Layout, hi: int, n: nat, m: seq<Word>, m1: seq<Word>, m2: seq<Word>)
    requires hi !in L
    requires PayloadsKept(L, m, m1) && PayloadsKept(L[hi := Block(n, false)], m1, m2)
    ensures PayloadsKept(L, m, m2)
  {
    forall p, k | Live(L, p) && InPayload(L, p, k) && 0 <= k < |m|
      ensures m2[k] == m[k]
    {
      assert Live(L[hi := Block(n, false)], p) && InPayload(L[hi := Block(n, false)], p, k);
    }
  }

  /** Writing inside a live payload disturbs neither the tags nor any other payload. */
  lemma PayloadWrites(m: seq<Word>, m': seq<Word>, L: Layout, lo: int, hi: int, p: int)
    requires Tagged(m, L) && Bracketed(m, lo, hi) && Tiles(L, lo, hi) && Live(L, p)
    requires |m'| == |m| && forall k :: 0 <= k < |m| && !InPayload(L, p, k) ==> m'[k] == m[k]
    ensures Tagged(m', L) && Bracketed(m', lo, hi)
    ensures PayloadsKept(L - {p}, m, m')
  {
    assert TaggedAt(m, p, L[p]);
    forall q | q in L
      ensures TaggedAt(m', q, L[q])
    {
      assert TaggedAt(m, q, L[q]);
    }
  }

  /** The memory after `free` has cleared the allocated bit of block `p`. */
  lemma ClearTags(m: seq<Word>, L: Layout, lo: int, hi: int, p: int)
    requires Tagged(m, L) && Bracketed(m, lo, hi) && WellFormed(L, lo, hi) && Live(L, p)
    ensures TaggedAt(m, p, L[p]) && GetSize(m[p - 1]) == L[p].size
    ensures var m' := WriteTags(m, p, Block(L[p].size, false));
            && Tagged(m', SetAlloc(L, p, false)) && Bracketed(m', lo, hi)
            && PayloadsKept(L - {p}, m, m')
  {
    var F := SetAlloc(L, p, false);
    TagRead(m, L, p);
    SetAllocTiles(L, lo, hi, p, false);
    Retag(m, L, F, lo, hi, p);
    RetagSpares(m, L - {p}, F, lo, hi, p);
  }

  /** `free`: the payloads of the other blocks survive both writes. */
  lemma FreeKeeps(L: Layout, p: int, m: seq<Word>, m1: seq<Word>, m2: seq<Word>)
    requires p in L
    requires PayloadsKept(L - {p}, m, m1) && PayloadsKept(SetAlloc(L, p, false), m1, m2)
    ensures PayloadsKept(L - {p}, m, m2)
  {
    forall q, k | Live(L - {p}, q) && InPayload(L - {p}, q, k) && 0 <= k < |m|
      ensures m2[k] == m[k]
    {
      assert Live(SetAlloc(L, p, false), q) && InPayload(SetAlloc(L, p, false), q, k);
    }
  }

  lemma NothingLive(L: Layout, m: seq<Word>, m': seq<Word>)
    requires |m| == |m'| && forall p :: !Live(L, p)
    ensures PayloadsKept(L, m, m')
  {
  }

  /** What is kept for one layout is kept for every layout with the same live blocks. */
  lemma KeptSameLive(L: Layout, E: Layout, m: seq<Word>, m1: seq<Word>, m2: seq<Word>)
    requires LiveBlocks(L) == LiveBlocks(E)
    requires PayloadsKept(L, m, m1) && PayloadsKept(E, m1, m2)
    ensures PayloadsKept(L, m, m2)
  {
    forall p, k | Live(L, p) && InPayload(L, p, k) && 0 <= k < |m|
      ensures m2[k] == m[k]
    {
      assert p in LiveBlocks(L) && LiveBlocks(L)[p] == LiveBlocks(E)[p];
      assert Live(E, p) && InPayload(E, p, k);
    }
  }

  // ----- coalescing on words

  /** The tag reads around block `p` stay inside the heap and describe block-sized pieces. */
  ghost predicate Readable(m: seq<Word>, p: int) {
    && 2 <= p < |m| && PrevOf(m, p) >= 2 && GetSize(m[PrevOf(m, p) - 1]) == p - PrevOf(m, p)
    && 4 <= GetSize(m[p - 1]) && NextOf(m, p) <= |m| < 0x3FFF_FFFF
    && (!GetAlloc(m[NextOf(m, p) - 1]) ==>
          && 4 <= GetSize(m[NextOf(m, p) - 1]) && NextOf(m, NextOf(m, p)) <= |m|
          && GetSize(m[NextOf(m, NextOf(m, p)) - 2]) == GetSize(m[NextOf(m, p) - 1]))
  }

  function PrevOf(m: seq<Word>, p: int): int
    requires 2 <= p < |m| + 2
  {
    p - GetSize(m[p - 2])
  }

  function NextOf(m: seq<Word>, p: int): int
    requires 1 <= p <= |m|
  {
    p + GetSize(m[p - 1])
  }

  /** The block `coalesce` writes, computed from the tags alone. */
  ghost function RunStart(m: seq<Word>, p: int): int
    requires Readable(m, p)
  {
    if GetAlloc(m[p - 2]) then p else PrevOf(m, p)
  }

  ghost function RunEnd(m: seq<Word>, p: int): int
    requires Readable(m, p)
  {
    var n := NextOf(m, p);
    if GetAlloc(m[n - 1]) then n else NextOf(m, n)
  }

  ghost function CoalesceWrites(m: seq<Word>, p: int): (r: seq<Word>)
    requires Readable(m, p)
    ensures |r| == |m|
  {
    if GetAlloc(m[p - 2]) && GetAlloc(m[NextOf(m, p) - 1]) then m
    else WriteTags(m, RunStart(m, p), Block(RunEnd(m, p) - RunStart(m, p), false))
  }

  /** On a tagged heap the reads find the free run around block `p`. */
  lemma CoalesceReads(m: seq<Word>, L: Layout, lo: int, hi: int, p: int)
    requires Tagged(m, L) && Bracketed(m, lo, hi) && Tiles(L, lo, hi)
    requires p in L && |m| < 0x3FFF_FFFF
    ensures Readable(m, p)
    ensures RunStart(m, p) == CoalescedAt(L, p) >= 4
    ensures RunEnd(m, p) == CoalescedAt(L, p) + CoalescedSize(L, p)
    ensures GetAlloc(m[p - 2]) <==> !PredFree(L, p)
    ensures GetAlloc(m[NextOf(m, p) - 1]) <==> !NextFree(L, p)
  {
    Behind(m, L, lo, hi, p);
    Before(m, L, lo, hi, p);
    Inside(L, lo, hi, p);
    hide Tiles, Tagged, Bracketed, GetSize, GetAlloc;
  }

  /** ... and the writes are `Coalesce` on the layout. */
  lemma CoalesceTags(m: seq<Word>, L: Layout, lo: int, hi: int, p: int)
    requires Tagged(m, L) && Bracketed(m, lo, hi) && Tiles(L, lo, hi)
    requires NoAdjacentFreeBut(L, p) && p in L && !L[p].alloc && |m| < 0x3FFF_FFFF
    ensures Readable(m, p)
    ensures RunStart(m, p) == CoalescedAt(L, p) >= 4
    ensures Tagged(CoalesceWrites(m, p), Coalesce(L, p)) && Bracketed(CoalesceWrites(m, p), lo, hi)
    ensures PayloadsKept(L, m, CoalesceWrites(m, p))
  {
    assert hi <= |m|;
    CoalesceReads(m, L, lo, hi, p);
    if !PredFree(L, p) && !NextFree(L, p) {
      assert CoalesceWrites(m, p) == m && Coalesce(L, p) == L by {
        CoalesceWellFormed(L, lo, hi, p);
      }
      KeptSame(L, m);
    } else {
      hide Tiles, NoAdjacentFree, NoAdjacentFreeBut, Tagged, Bracketed, PayloadsKept, LiveBlocks;
      hide GetSize, GetAlloc, Coalesce, ChangesOnly, Readable, RunStart, RunEnd, CoalescedAt, CoalescedSize;
      hide PredFree, NextFree, WriteTags, Tag, NextOf, PrevOf;
      CoalesceWellFormed(L, lo, hi, p);
      RetagFree(m, L, Coalesce(L, p), lo, hi, RunStart(m, p));
      assert CoalesceWrites(m, p) == WriteTags(m, RunStart(m, p), Coalesce(L, p)[RunStart(m, p)]);
    }
  }

  lemma KeptLess(L: Layout, p: int, m: seq<Word>, m': seq<Word>)
    requires PayloadsKept(L, m, m')
    ensures PayloadsKept(L - {p}, m, m')
  {
    forall q, k | Live(L - {p}, q) && InPayload(L - {p}, q, k) && 0 <= k < |m|
      ensures m'[k] == m[k]
    {
      assert Live(L, q) && InPayload(L, q, k);
    }
  }

  /** `realloc`: the copy into `r` and the release of `p` spare every other payload, and the
      release spares the copy. */
  lemma MoveKeeps(M: Layout, p: int, r: int, m: seq<Word>, m1: seq<Word>, m2: seq<Word>)
    requires PayloadsKept(M - {r}, m, m1) && PayloadsKept(M - {p}, m1, m2)
    ensures PayloadsKept(M - {p, r}, m, m2)
    ensures p != r && Live(M, r) ==>
              forall k :: InPayload(M, r, k) && 0 <= k < |m| ==> m2[k] == m1[k]
  {
    forall q, k | Live(M - {p, r}, q) && InPayload(M - {p, r}, q, k) && 0 <= k < |m|
      ensures m2[k] == m[k]
    {
      assert Live(M - {r}, q) && InPayload(M - {r}, q, k);
      assert Live(M - {p}, q) && InPayload(M - {p}, q, k);
    }
    if p != r && Live(M, r) {
      forall k | InPayload(M, r, k) && 0 <= k < |m|
        ensures m2[k] == m1[k]
      {
        assert Live(M - {p}, r) && InPayload(M - {p}, r, k);
      }
    }
  }

  /** Composition of an allocation, which keeps all of `L`, with a move that spares the rest. */
  lemma ReallocKeeps(L: Layout, M: Layout, p: int, r: int, m: seq<Word>, m1: seq<Word>, m2: seq<Word>)
    requires KeepsLive(L, M, r)
    requires PayloadsKept(L, m, m1) && PayloadsKept(M - {p, r}, m1, m2)
    ensures PayloadsKept(L - {p}, m, m2)
  {
    forall q, k | Live(L - {p}, q) && InPayload(L - {p}, q, k) && 0 <= k < |m|
      ensures m2[k] == m[k]
    {
      assert Live(L, q) && InPayload(L, q, k);
      assert Live(M - {p, r}, q) && InPayload(M - {p, r}, q, k);
    }
  }

  /** Bytes taken from a payload that an earlier call kept are the earlier bytes. */
  lemma KeptBytes(L: Layout, p: int, m0: seq<Word>, m1: seq<Word>, m2: seq<Word>, q: int, n: nat)
    requires Live(L, p) && 2 <= L[p].size && n <= 4 * (L[p].size - 2)
    requires PayloadsKept(L, m0, m1) && SameBytes(m1, p, m2, q, n)
    ensures SameBytes(m0, p, m2, q, n)
  {
    forall k | p <= k < p + (n + 3) / 4 && 0 <= k < |m0|
      ensures m1[k] == m0[k]
    {
      assert InPayload(L, p, k);
    }
    SameBytesVia(m0, m1, p, m2, m2, q, n);
  }
}
