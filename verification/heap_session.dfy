/** Clients of the mm.c allocator: any program of mm_malloc, mm_free and mm_realloc calls and of writes
    that touches only what it holds is a run of `HeapRuns`, and keeps what it has written. */
module HeapSession {

  import opened Words
  import opened HeapLayout
  import opened Tags
  import opened Requests
  import opened HeapRuns
  import opened Clients
  import opened ImplicitAllocator

  /** Requests that the allocator's 32-bit sizes can carry. */
  predicate InRange(op: Op) {
    && (op.Request? && op.size > 0 ==> AdjustedSize(op.size) < UINT_RANGE)
    && (op.Resize? && op.size > 0 ==> AdjustedSize(op.size) < UINT_RANGE)
  }

  /** The heap is well formed after `calls`, and has what the client holds and knows. */
  ghost predicate Serving(h: Heap, calls: seq<Call>, V: View)
    reads h, h.mem
  {
    h.Valid() && Serves(MAX_HEAP, calls, V, h.Words(), h.Blocks(), h.Break())
  }

  lemma StartsServing(h: Heap)
    requires h.Valid() && h.heapListp == 0
    ensures Serving(h, [], map[])
  {
  }

  lemma ReadyIs(h: Heap)
    requires h.Valid() && h.heapListp != 0
    ensures h.Ready() && h.Blocks() == h.layout && h.Break() == h.brk <= |h.Words()|
  {
  }

  lemma ReadyServes(h: Heap, calls: seq<Call>, V: View)
    requires h.Ready() && Serves(MAX_HEAP, calls, V, h.Words(), h.layout, h.brk)
    ensures Serving(h, calls, V)
  {
  }

  lemma SameServes(h: Heap, calls: seq<Call>, V: View, m: seq<Word>, L: Layout, hi: int)
    requires h.Valid() && h.Words() == m && h.Blocks() == L && h.Break() == hi
    requires Serves(MAX_HEAP, calls, V, m, L, hi)
    ensures Serving(h, calls, V)
  {
  }

  lemma Served(h: Heap, ops: seq<Op>, answers: seq<int>)
    requires |answers| == |ops| && Serving(h, Calls(ops, answers), Seen(ops, answers))
    ensures h.Valid() && WellFormed(h.Blocks(), 4, h.Break())
    ensures After(MAX_HEAP, Calls(ops, answers), h.Blocks(), h.Break(), Seen(ops, answers).Keys)
    ensures LiveBlocks(h.Blocks()).Keys == Seen(ops, answers).Keys
    ensures Backed(Seen(ops, answers), h.Words(), h.Blocks())
  {
    ServesIs(MAX_HEAP, Calls(ops, answers), Seen(ops, answers), h.Words(), h.Blocks(), h.Break());
  }

  /** A heap that some client has a live block in is initialised. */
  lemma HolderIs(h: Heap, calls: seq<Call>, V: View, p: int)
    requires Serving(h, calls, V) && p in V
    ensures h.Ready() && h.heapListp > 0 && Live(h.layout, p) && p >= 4
    ensures Serves(MAX_HEAP, calls, V, h.Words(), h.layout, h.brk) && h.Blocks() == h.layout && h.Break() == h.brk
  {
    ServesIs(MAX_HEAP, calls, V, h.Words(), h.Blocks(), h.Break());
  }

  method Ask(h: Heap, size: nat, V: View, ghost calls: seq<Call>) returns (r: int)
    requires Serving(h, calls, V) && InRange(Request(size))
    modifies h, h.mem
    ensures Serving(h, calls + Issued(V, Request(size), r), Updated(V, Request(size), r))
  {
    assert h.Valid() && (size > 0 ==> AdjustedSize(size) < UINT_RANGE);
    ghost var L, hi, m := h.Blocks(), h.Break(), h.Words();
    assert Serves(MAX_HEAP, calls, V, m, L, hi);
    hide *;
    r := h.Malloc(size);
    BreakInside(h);
    if size > 0 {
      ServesMalloc(MAX_HEAP, calls, V, m, L, hi, size, r, h.Words(), h.layout, h.brk);
    } else {
      ServesNothing(MAX_HEAP, calls, V, m, L, hi, Request(size), r, h.Words());
    }
    ReadyServes(h, calls + Issued(V, Request(size), r), Updated(V, Request(size), r));
  }

  lemma BreakInside(h: Heap)
    requires h.Ready()
    ensures h.brk <= |h.Words()| && |h.Words()| == MAX_HEAP
  {
  }

  lemma IssuedNothing(calls: seq<Call>, V: View, op: Op, r: int)
    requires op == Resize(0, 0)
    ensures calls + Issued(V, op, r) == calls && Updated(V, op, r) == V
  {
  }

  /** `mm_realloc` of a null pointer. */
  method AskByResize(h: Heap, size: nat, V: View, ghost calls: seq<Call>) returns (r: int)
    requires Serving(h, calls, V) && InRange(Resize(0, size))
    modifies h, h.mem
    ensures Serving(h, calls + Issued(V, Resize(0, size), r), Updated(V, Resize(0, size), r))
  {
    assert h.Valid() && (size > 0 ==> AdjustedSize(size) < UINT_RANGE);
    ghost var L, hi, m := h.Blocks(), h.Break(), h.Words();
    ghost var op := Resize(0, size);
    assert Serves(MAX_HEAP, calls, V, m, L, hi);
    ServesNotNull(MAX_HEAP, calls, V, m, L, hi);
    hide *;
    ghost var M;
    r, M := h.Realloc(0, size);
    assert L - {0} == L;
    if size > 0 {
      BreakInside(h);
      ServesMalloc(MAX_HEAP, calls, V, m, L, hi, size, r, h.Words(), h.layout, h.brk);
      ReadyServes(h, calls + Issued(V, op, r), Updated(V, op, r));
    } else {
      SameServes(h, calls, V, m, L, hi);
      IssuedNothing(calls, V, op, r);
    }
  }

  method Return(h: Heap, p: int, V: View, ghost calls: seq<Call>)
    requires Serving(h, calls, V) && p in V
    modifies h, h.mem
    ensures Serving(h, calls + [Release(p)], V - {p})
  {
    HolderIs(h, calls, V, p);
    assert h.Valid();
    ghost var L, hi, m := h.layout, h.brk, h.Words();
    hide *;
    h.Free(p);
    ReadyIs(h);
    ServesFree(MAX_HEAP, calls, V, m, L, hi, p, h.Words());
    ReadyServes(h, calls + [Release(p)], V - {p});
  }

  method Retry(h: Heap, p: int, size: nat, V: View, ghost calls: seq<Call>) returns (r: int)
    requires Serving(h, calls, V) && InRange(Resize(p, size)) && p in V
    modifies h, h.mem
    ensures Serving(h, calls + Issued(V, Resize(p, size), r), Updated(V, Resize(p, size), r))
  {
    assert size > 0 ==> AdjustedSize(size) < UINT_RANGE;
    HolderIs(h, calls, V, p);
    assert h.Valid();
    ghost var L, hi, m := h.layout, h.brk, h.Words();
    ghost var op := Resize(p, size);
    hide *;
    ghost var M;
    r, M := h.Realloc(p, size);
    ReadyIs(h);
    ServesResize(calls, V, m, L, hi, p, size, r, h.Words(), M, h.layout, h.brk);
    ReadyServes(h, calls + Issued(V, op, r), Updated(V, op, r));
  }

  /** The outcomes of `mm_realloc` of a live block. */
  lemma ServesResize(calls: seq<Call>, V: View, m: seq<Word>, L: Layout, hi: int, p: int, size: nat, r: int,
                     m': seq<Word>, M: Layout, L': Layout, hi': int)
    requires Serves(MAX_HEAP, calls, V, m, L, hi) && p in V && p >= 4 && Live(L, p)
    requires PayloadsKept(L - {p}, m, m') && hi' <= |m'|
    requires size == 0 ==> L' == Free(L, p) && hi' == hi
    requires size > 0 ==> Allocates(L, hi, MAX_HEAP, WordsFor(size), r, M, hi')
    requires size > 0 && r == 0 ==> L' == M && m' == m
    requires size > 0 && r != 0 ==> && Live(M, p) && L' == Free(M, p) && 2 <= L[p].size
                                    && SameBytes(m, p, m', r, MovedBytes(L, p, size))
    ensures Serves(MAX_HEAP, calls + Issued(V, Resize(p, size), r), Updated(V, Resize(p, size), r), m', L', hi')
  {
    assert |m'| == |m|;
    hide Serves, SameBytes, Allocates, PayloadsKept;
    if size == 0 {
      ServesFree(MAX_HEAP, calls, V, m, L, hi, p, m');
    } else if r == 0 {
      KeptSame(L, m);
      ServesMalloc(MAX_HEAP, calls, V, m, L, hi, size, r, m', L', hi');
    } else {
      ServesMove(MAX_HEAP, calls, V, m, L, hi, p, size, r, m', M, hi');
    }
  }

  /** A byte written by the client itself. */
  method Write(h: Heap, p: int, i: nat, b: Byte, V: View, ghost calls: seq<Call>)
    requires Serving(h, calls, V) && p in V && i < V[p].size
    modifies h.mem
    ensures Serving(h, calls + Issued(V, Store(p, i, b), 0), Updated(V, Store(p, i, b), 0))
  {
    HolderIs(h, calls, V, p);
    ghost var L, hi, m := h.layout, h.brk, h.Words();
    ghost var op := Store(p, i, b);
    hide *;
    ServesStore(MAX_HEAP, calls, V, m, L, hi, p, i, b);
    SizeIs(h);
    var k := p + i / 4;
    h.ClientWrite(p, k, SetByte(h.Get(k), i % 4, b));
    StoredIs(m, p, i, b);
    ReadyServes(h, calls + Issued(V, op, 0), Updated(V, op, 0));
  }

  lemma SizeIs(h: Heap)
    ensures |h.Words()| == h.mem.Length
  {
  }

  /** One operation of the client; one on memory that it does not hold is left alone. */
  method Perform(h: Heap, op: Op, V: View, ghost calls: seq<Call>) returns (r: int)
    requires Serving(h, calls, V) && InRange(op)
    modifies h, h.mem
    ensures Serving(h, calls + Issued(V, op, r), Updated(V, op, r))
  {
    r := 0;
    hide Serving, InRange;
    if op.Request? {
      r := Ask(h, op.size, V, calls);
    } else if op.GiveBack? && op.p in V {
      Return(h, op.p, V, calls);
    } else if op.Resize? && op.p in V {
      r := Retry(h, op.p, op.size, V, calls);
    } else if op.Resize? && op.p == 0 {
      r := AskByResize(h, op.size, V, calls);
    } else if op.Store? && op.p in V && op.at < V[op.p].size {
      Write(h, op.p, op.at, op.value, V, calls);
    } else {
      assert Issued(V, op, r) == [] && Updated(V, op, r) == V;
      assert calls + [] == calls;
    }
  }

  /** Any program of a client on a fresh allocator.  What the allocator was asked is `Calls(ops, answers)`,
      a run after which the heap is well formed and its live blocks are what the client holds; and each
      of them is big enough and has every byte the client last wrote there, wherever it was moved. */
  method Session(ops: seq<Op>) returns (h: Heap, answers: seq<int>)
    requires forall i :: 0 <= i < |ops| ==> InRange(ops[i])
    ensures |answers| == |ops| && h.Valid() && WellFormed(h.Blocks(), 4, h.Break())
    ensures After(MAX_HEAP, Calls(ops, answers), h.Blocks(), h.Break(), Seen(ops, answers).Keys)
    ensures LiveBlocks(h.Blocks()).Keys == Seen(ops, answers).Keys
    ensures Backed(Seen(ops, answers), h.Words(), h.Blocks())
  {
    h := new Heap();
    StartsServing(h);
    answers := [];
    var V: View := map[];
    hide *;
    var i := 0;
    assert ops[..0] == [];
    while i < |ops|
      invariant 0 <= i <= |ops| && fresh(h) && fresh(h.mem) && |answers| == i && V == Seen(ops[..i], answers)
      invariant Serving(h, Calls(ops[..i], answers), V)
    {
      var r := Perform(h, ops[i], V, Calls(ops[..i], answers));
      V := Updated(V, ops[i], r);
      OneMore(ops, answers, i, r);
      answers := answers + [r];
      i := i + 1;
    }
    assert ops[..i] == ops;
    Served(h, ops, answers);
  }
}

/** Clients of the flsp.c allocator, which has no realloc: the same runs. */
module SegregatedSession {

  import opened Words
  import opened HeapLayout
  import opened Tags
  import opened Requests
  import opened HeapRuns
  import opened Clients
  import opened SegregatedAllocator

  /** The heap and its lists are in order after `calls`, and it has what the client holds and knows. */
  ghost predicate Serving(h: Heap, calls: seq<Call>, V: View)
    reads h, h.mem, h.freeLists
  {
    h.Ready() && Serves(REGION, calls, V, h.Words(), h.layout, h.brk)
  }

  lemma StartsServing(h: Heap)
    requires h.Ready() && h.layout == map[0 + 4 := Block(CHUNK, false)] && h.brk == 0 + 4 + CHUNK
    ensures Serving(h, [], map[])
  {
  }

  lemma BreakInside(h: Heap)
    requires h.Ready()
    ensures h.brk <= |h.Words()| && |h.Words()| == h.mem.Length == REGION
  {
  }

  lemma Served(h: Heap, calls: seq<Call>, V: View)
    requires Serving(h, calls, V)
    ensures h.Ready() && WellFormed(h.layout, 4, h.brk) && LiveBlocks(h.layout).Keys == V.Keys
    ensures After(REGION, calls, h.layout, h.brk, V.Keys) && Backed(V, h.Words(), h.layout)
  {
    ServesIs(REGION, calls, V, h.Words(), h.layout, h.brk);
  }

  lemma ServingIs(h: Heap, calls: seq<Call>, V: View)
    requires Serving(h, calls, V)
    ensures h.Ready() && Serves(REGION, calls, V, h.Words(), h.layout, h.brk)
    ensures h.brk <= |h.Words()| && |h.Words()| == h.mem.Length == REGION
  {
  }

  /** The region has room for the request: a block that fits, or space behind the break. */
  ghost predicate Room(h: Heap, op: Op)
    reads h
  {
    op.Request? && op.size > 0 ==> !NoFit(h.layout, WordsFor(op.size)) || h.brk + Growth(WordsFor(op.size)) <= REGION
  }

  method HasRoom(h: Heap, op: Op) returns (room: bool)
    requires h.Ready()
    ensures room == Room(h, op)
  {
    room := true;
    if op.Request? && op.size > 0 && h.brk + Growth(WordsFor(op.size)) > REGION {
      var fit := h.FindFit(WordsFor(op.size));
      room := fit != 0;
    }
  }

  method Ask(h: Heap, size: nat, V: View, ghost calls: seq<Call>) returns (r: int)
    requires Serving(h, calls, V) && Room(h, Request(size))
    modifies h`brk, h`layout, h`lists, h`cls, h.mem, h.freeLists
    ensures Serving(h, calls + Issued(V, Request(size), r), Updated(V, Request(size), r))
  {
    ServingIs(h, calls, V);
    ghost var L, hi, m, op := h.layout, h.brk, h.Words(), Request(size);
    assert size > 0 && NoFit(L, WordsFor(size)) ==> hi + Growth(WordsFor(size)) <= h.mem.Length;
    hide *;
    r := h.Malloc(size);
    BreakInside(h);
    if size > 0 {
      ServesMalloc(REGION, calls, V, m, L, hi, size, r, h.Words(), h.layout, h.brk);
    } else {
      ServesNothing(REGION, calls, V, m, L, hi, op, r, h.Words());
    }
    ReadyServes(h, calls + Issued(V, op, r), Updated(V, op, r));
  }

  lemma ReadyServes(h: Heap, calls: seq<Call>, V: View)
    requires h.Ready() && Serves(REGION, calls, V, h.Words(), h.layout, h.brk)
    ensures Serving(h, calls, V)
  {
  }

  method Return(h: Heap, p: int, V: View, ghost calls: seq<Call>)
    requires Serving(h, calls, V) && p in V
    modifies h`layout, h`lists, h`cls, h.mem, h.freeLists
    ensures Serving(h, calls + [Release(p)], V - {p})
  {
    hide *;
    ServingIs(h, calls, V);
    ghost var L, hi, m := h.layout, h.brk, h.Words();
    ServesIs(REGION, calls, V, m, L, hi);
    h.Free(p);
    ServesFree(REGION, calls, V, m, L, hi, p, h.Words());
    ReadyServes(h, calls + [Release(p)], V - {p});
  }

  /** A byte written by the client itself. */
  method Write(h: Heap, p: int, i: nat, b: Byte, V: View, ghost calls: seq<Call>)
    requires Serving(h, calls, V) && p in V && i < V[p].size
    modifies h.mem
    ensures Serving(h, calls + Issued(V, Store(p, i, b), 0), Updated(V, Store(p, i, b), 0))
  {
    hide *;
    ServingIs(h, calls, V);
    ghost var L, hi, m, op := h.layout, h.brk, h.Words(), Store(p, i, b);
    ServesStore(REGION, calls, V, m, L, hi, p, i, b);
    var k := p + i / 4;
    h.ClientWrite(p, k, SetByte(h.Get(k), i % 4, b));
    StoredIs(m, p, i, b);
    ReadyServes(h, calls + Issued(V, op, 0), Updated(V, op, 0));
  }

  /** One operation of the client; one on memory that it does not hold is left alone. */
  method Perform(h: Heap, op: Op, V: View, ghost calls: seq<Call>) returns (r: int)
    requires Serving(h, calls, V) && Room(h, op) && !op.Resize?
    modifies h`brk, h`layout, h`lists, h`cls, h.mem, h.freeLists
    ensures Serving(h, calls + Issued(V, op, r), Updated(V, op, r))
  {
    r := 0;
    hide Serving, Room;
    if op.Request? {
      r := Ask(h, op.size, V, calls);
    } else if op.GiveBack? && op.p in V {
      Return(h, op.p, V, calls);
    } else if op.Store? && op.p in V && op.at < V[op.p].size {
      Write(h, op.p, op.at, op.value, V, calls);
    } else {
      assert Issued(V, op, r) == [] && Updated(V, op, r) == V;
      assert calls + [] == calls;
    }
  }

  /** Any program of a client, up to the first request that the region has no room for.  After it the
      heap and its lists are in order, the live blocks are what the client holds, and each of them is
      big enough and has every byte the client last wrote there. */
  method Session(ops: seq<Op>) returns (h: Heap, answers: seq<int>, done: nat)
    requires forall i :: 0 <= i < |ops| ==> !ops[i].Resize?
    ensures |answers| == done <= |ops| && h.Ready() && WellFormed(h.layout, 4, h.brk)
    ensures done < |ops| ==> !Room(h, ops[done])
    ensures After(REGION, Calls(ops[..done], answers), h.layout, h.brk, Seen(ops[..done], answers).Keys)
    ensures LiveBlocks(h.layout).Keys == Seen(ops[..done], answers).Keys
    ensures Backed(Seen(ops[..done], answers), h.Words(), h.layout)
  {
    assert 4 + CHUNK <= REGION && 0 % 2 == 0;
    h := new Heap();
    var ready := h.Init();
    StartsServing(h);
    answers, done := [], 0;
    var V: View := map[];
    hide *;
    assert ops[..0] == [];
    var room := true;
    while done < |ops| && room
      invariant 0 <= done <= |ops| && fresh(h) && fresh(h.mem) && fresh(h.freeLists)
      invariant |answers| == done && V == Seen(ops[..done], answers)
      invariant Serving(h, Calls(ops[..done], answers), V)
      invariant !room ==> done < |ops| && !Room(h, ops[done])
      decreases |ops| - done, room
    {
      Served(h, Calls(ops[..done], answers), V);
      room := HasRoom(h, ops[done]);
      if room {
        var r := Perform(h, ops[done], V, Calls(ops[..done], answers));
        V := Updated(V, ops[done], r);
        OneMore(ops, answers, done, r);
        answers, done := answers + [r], done + 1;
      }
    }
    Served(h, Calls(ops[..done], answers), V);
  }
}
