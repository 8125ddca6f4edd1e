/** What a client of an allocator does and knows: the pointers it holds, how many bytes it asked for, and
    the bytes it has written. */
module Clients {

  import opened Words
  import opened HeapLayout
  import opened Tags
  import opened Requests
  import opened HeapRuns

  /** The calls of a client, and its own writes.  It leaves alone a pointer it does not hold and a byte
      behind those it asked for. */
  datatype Op = Request(size: nat) | GiveBack(p: int) | Resize(p: int, size: nat) | Store(p: int, at: nat, value: Byte)

  /** A piece of memory: the bytes asked for, and those written so far. */
  datatype Piece = Piece(size: nat, bytes: map<nat, Byte>)

  type View = map<int, Piece>

  function FirstBytes(bytes: map<nat, Byte>, n: nat): (kept: map<nat, Byte>)
    ensures forall i :: i in kept <==> i in bytes && i < n
    ensures forall i :: i in kept ==> kept[i] == bytes[i]
  {
    map i | i in bytes && i < n :: bytes[i]
  }

  /** What the client holds and knows after an operation answered with `r`.  A resize keeps the bytes that
      still fit. */
  function Updated(V: View, op: Op, r: int): View {
    match op
    case Request(size) => if size == 0 || r == 0 then V else V[r := Piece(size, map[])]
    case GiveBack(p) => V - {p}
    case Resize(p, size) =>
      if p == 0 then (if size == 0 || r == 0 then V else V[r := Piece(size, map[])])
      else if p !in V then V
      else if size == 0 then V - {p}
      else if r == 0 then V
      else (V - {p})[r := Piece(size, FirstBytes(V[p].bytes, size))]
    case Store(p, i, b) =>
      if p in V && i < V[p].size then V[p := Piece(V[p].size, V[p].bytes[i := b])] else V
  }

  /** The calls an operation is for the allocator: a resize allocates, and if that succeeds releases. */
  function Issued(V: View, op: Op, r: int): seq<Call> {
    match op
    case Request(size) => if size == 0 then [] else [Malloc(WordsFor(size), r)]
    case GiveBack(p) => if p in V then [Release(p)] else []
    case Resize(p, size) =>
      if p == 0 then (if size == 0 then [] else [Malloc(WordsFor(size), r)])
      else if p !in V then []
      else if size == 0 then [Release(p)]
      else if r == 0 then [Malloc(WordsFor(size), r)]
      else [Malloc(WordsFor(size), r), Release(p)]
    case Store(_, _, _) => []
  }

  /** ... and after a whole program with its answers. */
  function Seen(ops: seq<Op>, answers: seq<int>): View
    requires |answers| == |ops|
    decreases |ops|
  {
    if ops == [] then map[]
    else
      var n := |ops| - 1;
      Updated(Seen(ops[..n], answers[..n]), ops[n], answers[n])
  }

  function Calls(ops: seq<Op>, answers: seq<int>): seq<Call>
    requires |answers| == |ops|
    decreases |ops|
  {
    if ops == [] then []
    else
      var n := |ops| - 1;
      Calls(ops[..n], answers[..n]) + Issued(Seen(ops[..n], answers[..n]), ops[n], answers[n])
  }

  lemma OneMore(ops: seq<Op>, answers: seq<int>, n: nat, r: int)
    requires n < |ops| && |answers| == n
    ensures Seen(ops[..n + 1], answers + [r]) == Updated(Seen(ops[..n], answers), ops[n], r)
    ensures Calls(ops[..n + 1], answers + [r])
         == Calls(ops[..n], answers) + Issued(Seen(ops[..n], answers), ops[n], r)
  {
    assert ops[..n + 1][..n] == ops[..n] && (answers + [r])[..n] == answers;
  }

  /** The operation neither gives `p` away nor is answered with it. */
  predicate Keeps(op: Op, r: int, p: int) {
    match op
    case Request(size) => size == 0 || r != p
    case GiveBack(q) => q != p
    case Resize(q, size) => q != p && (size == 0 || r != p)
    case Store(_, _, _) => true
  }

  /** A piece is as big as the request or resize that was answered with it asked for. */
  lemma {:induction false} AsBigAsAsked(ops: seq<Op>, answers: seq<int>, k: nat, p: int)
    requires |answers| == |ops| && k < |ops| && answers[k] == p != 0
    requires ops[k].Request? || (ops[k].Resize? && ops[k].p in Seen(ops[..k], answers[..k]))
    requires ops[k].size > 0 && forall j :: k < j < |ops| ==> Keeps(ops[j], answers[j], p)
    ensures p in Seen(ops, answers) && Seen(ops, answers)[p].size == ops[k].size
    decreases |ops|
  {
    var n := |ops| - 1;
    if k < n {
      assert ops[..n][..k] == ops[..k] && answers[..n][..k] == answers[..k];
      AsBigAsAsked(ops[..n], answers[..n], k, p);
      assert Keeps(ops[n], answers[n], p);
    }
  }

  /** What a program knows of a byte is what it last wrote there. */
  lemma {:induction false} LastWritten(ops: seq<Op>, answers: seq<int>, k: nat, p: int, i: nat, b: Byte)
    requires |answers| == |ops| && k < |ops| && ops[k] == Store(p, i, b)
    requires p in Seen(ops[..k], answers[..k]) && i < Seen(ops[..k], answers[..k])[p].size
    requires forall j :: k < j < |ops| ==> Keeps(ops[j], answers[j], p)
    requires forall j :: k < j < |ops| && ops[j].Store? ==> ops[j].p != p || ops[j].at != i
    ensures p in Seen(ops, answers) && i in Seen(ops, answers)[p].bytes && Seen(ops, answers)[p].bytes[i] == b
    decreases |ops|
  {
    var n := |ops| - 1;
    if k < n {
      assert ops[..n][..k] == ops[..k] && answers[..n][..k] == answers[..k];
      LastWritten(ops[..n], answers[..n], k, p, i, b);
      assert Keeps(ops[n], answers[n], p);
    }
  }

  /** A successful resize takes along the bytes written that still fit, and no other piece is touched. */
  lemma ResizeKeeps(V: View, p: int, size: nat, r: int, i: nat)
    requires p in V && p != 0 && size > 0 && r != 0
    ensures var W := Updated(V, Resize(p, size), r);
            && r in W && W[r].size == size && (r != p ==> p !in W)
            && (i in W[r].bytes <==> i < size && i in V[p].bytes) && (i in W[r].bytes ==> W[r].bytes[i] == V[p].bytes[i])
            && (forall q :: q in V && q != p && q != r ==> q in W && W[q] == V[q])
  {
  }

  // ----- the heap holds what the client knows

  /** The block at `p` is the client's and big enough, and has the bytes last written to it. */
  ghost predicate PieceAt(c: Piece, p: int, m: seq<Word>, L: Layout) {
    && Live(L, p) && 0 <= p && c.size <= 4 * (L[p].size - 2) && p + L[p].size - 2 <= |m|
    && forall i :: i in c.bytes ==> i < c.size && (4 * p + i) / 4 < |m| && ByteAt(m, 4 * p + i) == c.bytes[i]
  }

  ghost predicate Backed(V: View, m: seq<Word>, L: Layout) {
    forall p :: p in V ==> PieceAt(V[p], p, m, L)
  }

  /** The heap after `calls`, as the client sees it. */
  ghost predicate Serves(cap: int, calls: seq<Call>, V: View, m: seq<Word>, L: Layout, hi: int) {
    After(cap, calls, L, hi, V.Keys) && Backed(V, m, L)
  }

  lemma ByteInWord(p: int, i: nat, n: int)
    requires 0 <= p && i < 4 * n
    ensures (4 * p + i) / 4 == p + i / 4 && (4 * p + i) % 4 == i % 4 && p <= p + i / 4 < p + n
  {
  }

  /** A piece whose payload is spared. */
  lemma PieceKept(c: Piece, p: int, m: seq<Word>, L: Layout, m': seq<Word>, L': Layout)
    requires PieceAt(c, p, m, L) && Live(L', p) && L'[p].size == L[p].size && |m'| == |m|
    requires forall k :: InPayload(L, p, k) ==> m'[k] == m[k]
    ensures PieceAt(c, p, m', L')
  {
    forall i | i in c.bytes
      ensures i < c.size && (4 * p + i) / 4 < |m'| && ByteAt(m', 4 * p + i) == c.bytes[i]
    {
      ByteInWord(p, i, L[p].size - 2);
    }
  }

  /** Block `p` is live in both layouts, and of the same size. */
  ghost predicate StaysLive(L: Layout, L': Layout, p: int) {
    p in LiveBlocks(L') && p in LiveBlocks(L) && LiveBlocks(L')[p] == LiveBlocks(L)[p]
  }

  /** Pieces other than `q` are where they were, in blocks that are still live, and spared. */
  lemma OthersKept(V: View, m: seq<Word>, L: Layout, m': seq<Word>, L': Layout, q: int)
    requires Backed(V, m, L) && PayloadsKept(L - {q}, m, m')
    requires forall p :: p in V && p != q ==> StaysLive(L, L', p)
    ensures Backed(V - {q}, m', L')
  {
    forall p | p in V - {q}
      ensures PieceAt((V - {q})[p], p, m', L')
    {
      assert PieceAt(V[p], p, m, L);
      forall k | InPayload(L, p, k)
        ensures m'[k] == m[k]
      {
        assert Live(L - {q}, p) && InPayload(L - {q}, p, k);
      }
      PieceKept(V[p], p, m, L, m', L');
    }
  }

  lemma AllKept(V: View, m: seq<Word>, L: Layout, m': seq<Word>, L': Layout)
    requires Backed(V, m, L) && PayloadsKept(L, m, m')
    requires forall p :: p in V ==> StaysLive(L, L', p)
    ensures Backed(V, m', L')
  {
    forall p | p in V
      ensures PieceAt(V[p], p, m', L')
    {
      assert PieceAt(V[p], p, m, L);
      PieceKept(V[p], p, m, L, m', L');
    }
  }

  lemma ServesIs(cap: int, calls: seq<Call>, V: View, m: seq<Word>, L: Layout, hi: int)
    requires Serves(cap, calls, V, m, L, hi)
    ensures WellFormed(L, 4, hi) && hi % 2 == 0 && LiveBlocks(L).Keys == V.Keys
    ensures forall p :: p in V ==> Live(L, p) && p >= 4 && PieceAt(V[p], p, m, L)
  {
    AfterIs(cap, calls, L, hi, V.Keys);
  }

  lemma ServesNotNull(cap: int, calls: seq<Call>, V: View, m: seq<Word>, L: Layout, hi: int)
    requires Serves(cap, calls, V, m, L, hi)
    ensures 0 !in L && 0 !in V
  {
    ServesIs(cap, calls, V, m, L, hi);
  }

  // ----- each operation keeps that so

  /** One that is nothing to the allocator, which may have initialised its heap. */
  lemma ServesNothing(cap: int, calls: seq<Call>, V: View, m: seq<Word>, L: Layout, hi: int,
                      op: Op, r: int, m': seq<Word>)
    requires Serves(cap, calls, V, m, L, hi) && Issued(V, op, r) == [] && Updated(V, op, r) == V
    requires PayloadsKept(L, m, m')
    ensures Serves(cap, calls + Issued(V, op, r), Updated(V, op, r), m', L, hi)
  {
    ServesIs(cap, calls, V, m, L, hi);
    hide After, PayloadsKept, PieceAt;
    AllKept(V, m, L, m', L);
    assert calls + [] == calls;
  }

  /** An allocation. */
  lemma ServesMalloc(cap: int, calls: seq<Call>, V: View, m: seq<Word>, L: Layout, hi: int, size: nat, r: int,
                     m': seq<Word>, L': Layout, hi': int)
    requires Serves(cap, calls, V, m, L, hi) && size > 0 && hi' <= |m|
    requires Allocates(L, hi, cap, WordsFor(size), r, L', hi') && PayloadsKept(L, m, m')
    ensures var op := Request(size);
            Serves(cap, calls + Issued(V, op, r), Updated(V, op, r), m', L', hi')
  {
    ServesIs(cap, calls, V, m, L, hi);
    hide After, WellFormed, Allocates, PayloadsKept, PieceAt, WordsFor;
    AfterMalloc(cap, calls, L, hi, V.Keys, WordsFor(size), r, L', hi');
    AllocatesWellFormed(L, 4, hi, cap, WordsFor(size), r, L', hi');
    AllKept(V, m, L, m', L');
    if r != 0 {
      FreshPiece(L, hi, cap, size, r, m, m', L', hi');
      assert V[r := Piece(size, map[])].Keys == V.Keys + {r};
    }
  }

  lemma FreshPiece(L: Layout, hi: int, cap: int, size: nat, r: int, m: seq<Word>, m': seq<Word>, L': Layout, hi': int)
    requires WellFormed(L, 4, hi) && hi % 2 == 0 && size > 0 && hi' <= |m| && PayloadsKept(L, m, m')
    requires Allocates(L, hi, cap, WordsFor(size), r, L', hi') && r != 0
    ensures PieceAt(Piece(size, map[]), r, m', L')
  {
    PayloadFits(L, 4, hi, cap, size, r, L', hi');
    AllocatesWellFormed(L, 4, hi, cap, WordsFor(size), r, L', hi');
  }

  /** A release. */
  lemma ServesFree(cap: int, calls: seq<Call>, V: View, m: seq<Word>, L: Layout, hi: int, p: int, m': seq<Word>)
    requires Serves(cap, calls, V, m, L, hi) && p in V && PayloadsKept(L - {p}, m, m')
    ensures Serves(cap, calls + [Release(p)], V - {p}, m', Free(L, p), hi)
  {
    ServesIs(cap, calls, V, m, L, hi);
    hide After, WellFormed, PayloadsKept, PieceAt, Free;
    AfterRelease(cap, calls, L, hi, V.Keys, p);
    FreeWellFormed(L, 4, hi, p);
    OthersKept(V, m, L, m', Free(L, p), p);
    assert (V - {p}).Keys == V.Keys - {p};
  }

  /** A successful resize: `M` is the layout between the allocation and the release. */
  lemma ServesMove(cap: int, calls: seq<Call>, V: View, m: seq<Word>, L: Layout, hi: int, p: int, size: nat, r: int,
                   m': seq<Word>, M: Layout, hi': int)
    requires Serves(cap, calls, V, m, L, hi) && size > 0 && hi' <= |m| && p in V && r != 0
    requires Allocates(L, hi, cap, WordsFor(size), r, M, hi') && Live(L, p) && Live(M, p) && 2 <= L[p].size
    requires PayloadsKept(L - {p}, m, m') && SameBytes(m, p, m', r, MovedBytes(L, p, size))
    ensures var op := Resize(p, size);
            Serves(cap, calls + Issued(V, op, r), Updated(V, op, r), m', Free(M, p), hi')
  {
    ServesIs(cap, calls, V, m, L, hi);
    hide After, WellFormed, Allocates, PayloadsKept, PieceAt, WordsFor, Free, SameBytes, MovedBytes, LiveBlocks, Backed;
    MovedCalls(cap, calls, V, m, L, hi, p, size, r, M, hi');
    MovedBlocks(L, hi, cap, p, size, r, M, hi', |m|);
    MovedBacked(V, m, L, p, size, r, m', Free(M, p));
  }

  lemma MovedBacked(V: View, m: seq<Word>, L: Layout, p: int, size: nat, r: int, m': seq<Word>, F: Layout)
    requires Backed(V, m, L) && p in V && PieceAt(V[p], p, m, L) && 2 <= L[p].size && |m'| == |m|
    requires PayloadsKept(L - {p}, m, m') && SameBytes(m, p, m', r, MovedBytes(L, p, size))
    requires Live(F, r) && 4 <= r && size <= 4 * (F[r].size - 2) && r + F[r].size - 2 <= |m|
    requires forall q :: q in V && q != p ==> StaysLive(L, F, q)
    ensures Backed((V - {p})[r := Piece(size, FirstBytes(V[p].bytes, size))], m', F)
  {
    hide PayloadsKept, PieceAt, SameBytes, MovedBytes, LiveBlocks, Backed;
    OthersKept(V, m, L, m', F, p);
    MovedPiece(V[p], L, p, size, r, m, m', F);
    AndOne(V - {p}, r, Piece(size, FirstBytes(V[p].bytes, size)), m', F);
  }

  lemma AndOne(V: View, r: int, c: Piece, m: seq<Word>, L: Layout)
    requires Backed(V, m, L) && PieceAt(c, r, m, L)
    ensures Backed(V[r := c], m, L)
  {
    hide PieceAt;
  }

  lemma MovedCalls(cap: int, calls: seq<Call>, V: View, m: seq<Word>, L: Layout, hi: int, p: int, size: nat, r: int,
                   M: Layout, hi': int)
    requires Serves(cap, calls, V, m, L, hi) && size > 0 && p in V && r != 0 && p >= 4
    requires Allocates(L, hi, cap, WordsFor(size), r, M, hi') && Live(M, p)
    ensures var op := Resize(p, size);
            After(cap, calls + Issued(V, op, r), Free(M, p), hi', Updated(V, op, r).Keys)
  {
    hide After, Allocates, WordsFor, Free;
    AfterMalloc(cap, calls, L, hi, V.Keys, WordsFor(size), r, M, hi');
    AfterRelease(cap, calls + [Malloc(WordsFor(size), r)], M, hi', V.Keys + {r}, p);
    assert r != p by {
      ServesIs(cap, calls, V, m, L, hi);
      AllocatedApart(L, 4, hi, cap, WordsFor(size), r, M, hi', p);
    }
    assert Updated(V, Resize(p, size), r).Keys == V.Keys + {r} - {p};
    assert calls + Issued(V, Resize(p, size), r) == calls + [Malloc(WordsFor(size), r)] + [Release(p)];
  }

  lemma MovedBlocks(L: Layout, hi: int, cap: int, p: int, size: nat, r: int, M: Layout, hi': int, n: int)
    requires WellFormed(L, 4, hi) && hi % 2 == 0 && size > 0 && hi' <= n && r != 0
    requires Allocates(L, hi, cap, WordsFor(size), r, M, hi') && Live(L, p) && Live(M, p)
    ensures var F := Free(M, p);
            && Live(F, r) && 4 <= r && size <= 4 * (F[r].size - 2) && r + F[r].size - 2 <= n
            && forall q :: Live(L, q) && q != p ==> StaysLive(L, F, q)
  {
    var F := Free(M, p);
    hide Allocates, WordsFor, Free, Tiles, NoAdjacentFree;
    PayloadFits(L, 4, hi, cap, size, r, M, hi');
    AllocatesWellFormed(L, 4, hi, cap, WordsFor(size), r, M, hi');
    AllocatedApart(L, 4, hi, cap, WordsFor(size), r, M, hi', p);
    FreeWellFormed(M, 4, hi', p);
    assert r in LiveBlocks(M) && r in LiveBlocks(F) && LiveBlocks(F)[r] == LiveBlocks(M)[r];
    Inside(F, 4, hi', r);
  }

  /** The copy holds the bytes of the old piece that still fit. */
  lemma MovedPiece(c: Piece, L: Layout, p: int, size: nat, r: int, m: seq<Word>, m': seq<Word>, F: Layout)
    requires PieceAt(c, p, m, L) && 2 <= L[p].size
    requires Live(F, r) && 0 <= r && size <= 4 * (F[r].size - 2) && r + F[r].size - 2 <= |m'|
    requires SameBytes(m, p, m', r, MovedBytes(L, p, size))
    ensures PieceAt(Piece(size, FirstBytes(c.bytes, size)), r, m', F)
  {
    var kept := FirstBytes(c.bytes, size);
    forall i | i in kept
      ensures i < size && (4 * r + i) / 4 < |m'| && ByteAt(m', 4 * r + i) == kept[i]
    {
      assert i in c.bytes && i < c.size;
      ByteInWord(p, i, L[p].size - 2);
      ByteInWord(r, i, F[r].size - 2);
      assert 4 * r <= 4 * r + i < 4 * r + MovedBytes(L, p, size);
      assert ByteAt(m', 4 * r + i) == ByteAt(m, 4 * p + (4 * r + i - 4 * r));
    }
  }

  /** A write of one byte. */
  function Stored(m: seq<Word>, p: nat, i: nat, b: Byte): seq<Word>
    requires p + i / 4 < |m|
  {
    m[p + i / 4 := SetByte(m[p + i / 4], i % 4, b)]
  }

  lemma StoredIs(m: seq<Word>, p: nat, i: nat, b: Byte)
    requires p + i / 4 < |m|
    ensures Stored(m, p, i, b) == m[p + i / 4 := SetByte(m[p + i / 4], i % 4, b)]
  {
  }

  lemma ServesStore(cap: int, calls: seq<Call>, V: View, m: seq<Word>, L: Layout, hi: int, p: int, i: nat, b: Byte)
    requires Serves(cap, calls, V, m, L, hi) && p in V && i < V[p].size
    ensures 4 <= p && Live(L, p) && InPayload(L, p, p + i / 4) && p + i / 4 < |m|
    ensures PayloadsKept(L - {p}, m, Stored(m, p, i, b)) ==>
              Serves(cap, calls + Issued(V, Store(p, i, b), 0), Updated(V, Store(p, i, b), 0),
                     Stored(m, p, i, b), L, hi)
  {
    ServesIs(cap, calls, V, m, L, hi);
    ByteInWord(p, i, L[p].size - 2);
    var m' := Stored(m, p, i, b);
    if PayloadsKept(L - {p}, m, m') {
      hide After, WellFormed, PayloadsKept;
      OthersKept(V, m, L, m', L, p);
      StoredPiece(V[p], p, m, L, i, b);
      AndOne(V - {p}, p, Piece(V[p].size, V[p].bytes[i := b]), m', L);
      assert (V - {p})[p := Piece(V[p].size, V[p].bytes[i := b])] == Updated(V, Store(p, i, b), 0);
      assert Updated(V, Store(p, i, b), 0).Keys == V.Keys;
      assert calls + [] == calls;
    }
  }

  lemma StoredPiece(c: Piece, p: int, m: seq<Word>, L: Layout, i: nat, b: Byte)
    requires PieceAt(c, p, m, L) && i < c.size && p + i / 4 < |m|
    ensures PieceAt(Piece(c.size, c.bytes[i := b]), p, Stored(m, p, i, b), L)
  {
    var m' := Stored(m, p, i, b);
    ByteInWord(p, i, L[p].size - 2);
    forall j | j == i || j in c.bytes
      ensures j < c.size && (4 * p + j) / 4 < |m'|
      ensures ByteAt(m', 4 * p + j) == if j == i then b else c.bytes[j]
    {
      ByteInWord(p, j, L[p].size - 2);
      if i / 4 == j / 4 && i % 4 == j % 4 {
        Digits(i, j);
      }
    }
  }

  lemma Digits(i: nat, j: nat)
    requires i / 4 == j / 4 && i % 4 == j % 4
    ensures i == j
  {
  }
}
