/** Whole runs of an allocator, on layouts. */
module HeapRuns {
  import opened HeapLayout

  /** A request for a block of `n` words answered with `result`, or a release.  A reallocation is
      an allocation followed by a release. */
  datatype Call = Malloc(n: nat, result: int) | Release(p: int)

  ghost predicate Step(L: Layout, hi: int, cap: int, c: Call, L': Layout, hi': int) {
    match c
    case Malloc(n, r) => 4 <= n && n % 2 == 0 && Allocates(L, hi, cap, n, r, L', hi')
    case Release(p) => Live(L, p) && L' == Free(L, p) && hi' == hi
  }

  ghost predicate Run(L: Layout, hi: int, cap: int, calls: seq<Call>, L': Layout, hi': int)
    decreases |calls|
  {
    if calls == [] then L' == L && hi' == hi
    else exists M, h :: Step(L, hi, cap, calls[0], M, h) && Run(M, h, cap, calls[1..], L', hi')
  }

  /** What the clients still hold after `calls`, from their own point of view. */
  function Held(held: set<int>, calls: seq<Call>): set<int>
    decreases |calls|
  {
    if calls == [] then held
    else
      var next := match calls[0]
                  case Malloc(_, r) => if r == 0 then held else held + {r}
                  case Release(p) => held - {p};
      Held(next, calls[1..])
  }

  lemma StepKeeps(L: Layout, lo: int, hi: int, cap: int, c: Call, L': Layout, hi': int)
    requires WellFormed(L, lo, hi) && 2 <= lo && hi % 2 == 0
    requires Step(L, hi, cap, c, L', hi')
    ensures WellFormed(L', lo, hi') && hi' % 2 == 0 && hi <= hi'
    ensures LiveBlocks(L').Keys == Held(LiveBlocks(L).Keys, [c])
  {
    hide WellFormed, Free, Allocates, LiveBlocks;
    match c
    case Malloc(n, r) =>
      AllocatesWellFormed(L, lo, hi, cap, n, r, L', hi');
      assert r != 0 ==> LiveBlocks(L').Keys == LiveBlocks(L).Keys + {r};
    case Release(p) =>
      FreeWellFormed(L, lo, hi, p);
  }

  /** Every run keeps the heap well formed, and its live blocks are exactly the results handed out
      and not yet released. */
  lemma {:induction false} RunKeeps(L: Layout, lo: int, hi: int, cap: int, calls: seq<Call>, L': Layout, hi': int)
    requires WellFormed(L, lo, hi) && 2 <= lo && hi % 2 == 0
    requires Run(L, hi, cap, calls, L', hi')
    ensures WellFormed(L', lo, hi') && hi <= hi' && hi' % 2 == 0
    ensures LiveBlocks(L').Keys == Held(LiveBlocks(L).Keys, calls)
    decreases |calls|
  {
    hide WellFormed, Step, LiveBlocks;
    if calls != [] {
      var M, h :| Step(L, hi, cap, calls[0], M, h) && Run(M, h, cap, calls[1..], L', hi');
      StepKeeps(L, lo, hi, cap, calls[0], M, h);
      RunKeeps(M, lo, h, cap, calls[1..], L', hi');
    }
  }

  /** No run hands out two overlapping payloads. */
  lemma PayloadsApart(L: Layout, lo: int, hi: int, p: int, q: int, k: int)
    requires WellFormed(L, lo, hi) && Live(L, p) && Live(L, q)
    requires InPayload(L, p, k) && InPayload(L, q, k)
    ensures p == q
  {
    assert Owns(L, p, k) && Owns(L, q, k);
    BlocksPartitionHeap(L, lo, hi, k);
  }

  /** No run fragments for good: when the clients hold nothing, the heap is one free block. */
  lemma RunsReclaimAll(L: Layout, lo: int, hi: int, cap: int, calls: seq<Call>, L': Layout, hi': int)
    requires WellFormed(L, lo, hi) && 2 <= lo < hi && hi % 2 == 0
    requires Run(L, hi, cap, calls, L', hi') && Held(LiveBlocks(L).Keys, calls) == {}
    ensures hi <= hi' && L' == map[lo := Block(hi' - lo, false)]
  {
    RunKeeps(L, lo, hi, cap, calls, L', hi');
    assert LiveBlocks(L') == map[];
    AllFreeIsOneBlock(L', lo, hi');
  }

  // ----- runs from the first chunk, one step at a time

  const FIRST: Layout := map[4 := Block(CHUNK, false)]

  lemma FirstWellFormed()
    ensures WellFormed(FIRST, 4, 4 + CHUNK) && LiveBlocks(FIRST) == map[]
  {
  }

  /** A run and one more step. */
  lemma {:induction false} RunAppend(L: Layout, hi: int, cap: int, calls: seq<Call>, M: Layout, h: int,
                                     c: Call, L': Layout, hi': int)
    requires Run(L, hi, cap, calls, M, h) && Step(M, h, cap, c, L', hi')
    ensures Run(L, hi, cap, calls + [c], L', hi')
    decreases |calls|
  {
    hide Step;
    if calls == [] {
      assert [c][1..] == [];
      assert Step(L, hi, cap, [c][0], L', hi') && Run(L', hi', cap, [c][1..], L', hi');
      assert calls + [c] == [c];
    } else {
      var N, k :| Step(L, hi, cap, calls[0], N, k) && Run(N, k, cap, calls[1..], M, h);
      RunAppend(N, k, cap, calls[1..], M, h, c, L', hi');
      assert (calls + [c])[0] == calls[0] && (calls + [c])[1..] == calls[1..] + [c];
    }
  }

  lemma HeldOne(held: set<int>, c: Call)
    ensures c.Malloc? ==> Held(held, [c]) == if c.result == 0 then held else held + {c.result}
    ensures c.Release? ==> Held(held, [c]) == held - {c.p}
  {
    assert [c][1..] == [];
  }

  lemma {:induction false} HeldAppend(held: set<int>, calls: seq<Call>, c: Call)
    ensures Held(held, calls + [c]) == Held(Held(held, calls), [c])
    decreases |calls|
  {
    if calls == [] {
      assert calls + [c] == [c];
    } else {
      assert (calls + [c])[1..] == calls[1..] + [c];
      HeldOne(held, calls[0]);
      HeldAppend(Held(held, [calls[0]]), calls[1..], c);
    }
  }

  /** The heap after `calls`, from its first chunk, and what the client then holds. */
  ghost predicate After(cap: int, calls: seq<Call>, L: Layout, hi: int, held: set<int>) {
    Run(FIRST, 4 + CHUNK, cap, calls, L, hi) && held == Held({}, calls)
  }

  lemma AfterIs(cap: int, calls: seq<Call>, L: Layout, hi: int, held: set<int>)
    requires After(cap, calls, L, hi, held)
    ensures WellFormed(L, 4, hi) && LiveBlocks(L).Keys == held && hi % 2 == 0
    ensures forall p :: p in held ==> Live(L, p) && p >= 4
  {
    FirstWellFormed();
    assert LiveBlocks(FIRST).Keys == {};
    hide Run;
    RunKeeps(FIRST, 4, 4 + CHUNK, cap, calls, L, hi);
    assert forall p :: p in held ==> p in LiveBlocks(L);
  }

  lemma AfterMalloc(cap: int, calls: seq<Call>, L: Layout, hi: int, held: set<int>, n: nat, r: int, L': Layout, hi': int)
    requires After(cap, calls, L, hi, held) && 4 <= n && n % 2 == 0
    requires Allocates(L, hi, cap, n, r, L', hi')
    ensures After(cap, calls + [Malloc(n, r)], L', hi', if r == 0 then held else held + {r})
  {
    var c := Malloc(n, r);
    assert Step(L, hi, cap, c, L', hi');
    hide Step, Run, Held, Allocates;
    RunAppend(FIRST, 4 + CHUNK, cap, calls, L, hi, c, L', hi');
    HeldAppend({}, calls, c);
    HeldOne(held, c);
  }

  lemma AfterRelease(cap: int, calls: seq<Call>, L: Layout, hi: int, held: set<int>, p: int)
    requires After(cap, calls, L, hi, held) && Live(L, p)
    ensures After(cap, calls + [Release(p)], Free(L, p), hi, held - {p})
  {
    var c := Release(p);
    assert Step(L, hi, cap, c, Free(L, p), hi);
    hide Step, Run, Held, Free;
    RunAppend(FIRST, 4 + CHUNK, cap, calls, L, hi, c, Free(L, p), hi);
    HeldAppend({}, calls, c);
    HeldOne(held, c);
  }
}
