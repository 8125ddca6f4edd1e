/** SimpleSharedPtr (simple_shared_ptr.h), used by one thread: the count of a control block is the
    number of handles on it, and a block deletes its object once, when the last of them leaves.

    Handles, control blocks and objects are numbered, blocks in the order in which they are made; the
    memory they live in is a class of maps. */
module SharedPtr {

  import opened Options

  /** The two fields of a handle. */
  datatype Handle = Handle(ptr: Option<nat>, control: Option<nat>)

  const NULL := Handle(None, None)

  type Handles = map<nat, Handle>

  function Without(hs: Handles, h: nat): Handles {
    hs - {h}
  }

  /** The handles on a control block. */
  function Users(hs: Handles, c: nat): (s: set<nat>)
    ensures forall h :: h in s <==> h in hs && hs[h].control == Some(c)
  {
    set h | h in hs && hs[h].control == Some(c)
  }

  lemma UsersLess(hs: Handles, h: nat, c: nat)
    requires h in hs
    ensures Users(hs - {h}, c) == Users(hs, c) - {h}
    ensures |Users(hs - {h}, c)| == |Users(hs, c)| - if hs[h].control == Some(c) then 1 else 0
  {
    assert Users(hs - {h}, c) == Users(hs, c) - {h};
  }

  lemma UsersMore(hs: Handles, h: nat, x: Handle, c: nat)
    requires h !in hs
    ensures Users(hs[h := x], c) == Users(hs, c) + if x.control == Some(c) then {h} else {}
    ensures |Users(hs[h := x], c)| == |Users(hs, c)| + if x.control == Some(c) then 1 else 0
  {
    assert Users(hs[h := x], c) == Users(hs, c) + if x.control == Some(c) then {h} else {};
  }

  /** The handles in use, the live control blocks with their counts, the object handed over to each block
      made so far, and the blocks gone, in the order in which they deleted their objects. */
  datatype Store = Store(handles: Handles, counts: map<nat, int>, handed: seq<nat>, gone: seq<nat>)

  const NOTHING := Store(map[], map[], [], [])

  /** Null, or on a live block and its object. */
  ghost predicate Fits(s: Store, x: Handle) {
    if x.control.None? then x.ptr == None
    else
      var c := x.control.value;
      c in s.counts && c < |s.handed| && x.ptr == Some(s.handed[c])
  }

  ghost predicate HandleFits(s: Store, h: nat)
    requires h in s.handles
  {
    Fits(s, s.handles[h])
  }

  ghost predicate Counted(s: Store, c: nat)
    requires c in s.counts
  {
    s.counts[c] == |Users(s.handles, c)| && s.counts[c] > 0
  }

  /** Every block made is either live or gone, and none has gone twice. */
  ghost predicate Accounted(s: Store) {
    && (forall c :: c in s.counts ==> c < |s.handed|)
    && (forall c :: c in s.gone ==> c < |s.handed|)
    && (forall c :: 0 <= c < |s.handed| ==> (c in s.counts <==> c !in s.gone))
    && (forall i, j :: 0 <= i < j < |s.gone| ==> s.gone[i] != s.gone[j])
  }

  /** Every handle is null, or on a live block and its object; every count is the number of handles; and
      every block is accounted for. */
  ghost predicate Exact(s: Store) {
    && (forall h :: h in s.handles ==> HandleFits(s, h))
    && (forall c :: c in s.counts ==> Counted(s, c))
    && Accounted(s)
  }

  /** `h` leaves; the last handle on a block takes the block and its object along. */
  function Drop(s: Store, h: nat): Store
    requires h in s.handles
  {
    match s.handles[h].control
    case None => s.(handles := s.handles - {h})
    case Some(c) =>
      if c !in s.counts then s
      else if Users(s.handles, c) == {h} then
        Store(s.handles - {h}, s.counts - {c}, s.handed, s.gone + [c])
      else
        Store(s.handles - {h}, s.counts[c := s.counts[c] - 1], s.handed, s.gone)
  }

  /** The count says whether a handle is the last one. */
  lemma LastUser(s: Store, h: nat, c: nat)
    requires h in s.handles && s.handles[h].control == Some(c) && c in s.counts && Counted(s, c)
    ensures s.counts[c] == 1 <==> Users(s.handles, c) == {h}
  {
    var users := Users(s.handles, c);
    assert h in users;
    assert |users| == |users - {h}| + 1;
    assert users - {h} == {} <==> users == {h};
  }

  lemma DropBlock(s: Store, h: nat, c: nat)
    requires h in s.handles && c in s.counts && Counted(s, c) && HandleFits(s, h)
    ensures c in Drop(s, h).counts ==> Counted(Drop(s, h), c)
  {
    UsersLess(s.handles, h, c);
    if s.handles[h].control == Some(c) {
      LastUser(s, h, c);
    }
    hide Users;
  }

  lemma DropHandle(s: Store, h: nat, x: nat)
    requires h in s.handles && x in s.handles && x != h && HandleFits(s, x)
    ensures x in Drop(s, h).handles ==> HandleFits(Drop(s, h), x)
  {
    if s.handles[x].control.Some? {
      assert x in Users(s.handles, s.handles[x].control.value);
    }
    hide Users;
  }

  lemma DropAccounted(s: Store, h: nat)
    requires h in s.handles && HandleFits(s, h) && Accounted(s)
    ensures Drop(s, h).handles == s.handles - {h} && Accounted(Drop(s, h))
  {
    hide Users;
  }

  lemma DropExact(s: Store, h: nat)
    requires Exact(s) && h in s.handles
    ensures Exact(Drop(s, h)) && Drop(s, h).handles == s.handles - {h}
  {
    hide Users, Counted, HandleFits, Accounted;
    var s' := Drop(s, h);
    assert HandleFits(s, h);
    DropAccounted(s, h);
    forall c | c in s'.counts
      ensures Counted(s', c)
    {
      DropBlock(s, h, c);
    }
    forall x | x in s'.handles
      ensures HandleFits(s', x)
    {
      DropHandle(s, h, x);
    }
  }

  /** `release` by the count: it deletes when the count falls to zero. */
  lemma DropByCount(s: Store, h: nat)
    requires Exact(s) && h in s.handles
    ensures var x := s.handles[h];
            if x.control.None? then Drop(s, h) == s.(handles := s.handles - {h})
            else
              var c := x.control.value;
              && c in s.counts
              && var less := s.counts[c := s.counts[c] - 1];
              Drop(s, h) == if less[c] == 0
                            then Store(s.handles - {h}, less - {c}, s.handed, s.gone + [c])
                            else Store(s.handles - {h}, less, s.handed, s.gone)
  {
    assert HandleFits(s, h);
    if s.handles[h].control.Some? {
      var c := s.handles[h].control.value;
      assert Counted(s, c);
      LastUser(s, h, c);
      assert s.counts[c := s.counts[c] - 1] - {c} == s.counts - {c};
    }
    hide Users, Counted, HandleFits, Accounted;
  }

  /** A new handle on what another one is on, if anything. */
  function Share(s: Store, h: nat, x: Handle): Store {
    var counts := match x.control
                  case Some(c) => if c in s.counts then s.counts[c := s.counts[c] + 1] else s.counts
                  case None => s.counts;
    s.(handles := s.handles[h := x], counts := counts)
  }

  lemma ShareExact(s: Store, h: nat, x: Handle)
    requires Exact(s) && h !in s.handles && Fits(s, x)
    ensures Exact(Share(s, h, x))
  {
    var s' := Share(s, h, x);
    assert Accounted(s') by {
      hide HandleFits, Counted;
    }
    hide Accounted;
    forall c | c in s'.counts
      ensures Counted(s', c)
    {
      assert Counted(s, c);
      UsersMore(s.handles, h, x, c);
    }
    forall y | y in s'.handles
      ensures HandleFits(s', y)
    {
      assert y != h ==> HandleFits(s, y);
    }
    hide Users, Counted, HandleFits;
  }

  /** A new handle on an object handed over, with a new block. */
  function Adopt(s: Store, h: nat, p: nat): Store {
    var c := |s.handed|;
    s.(handles := s.handles[h := Handle(Some(p), Some(c))], counts := s.counts[c := 1], handed := s.handed + [p])
  }

  lemma AdoptExact(s: Store, h: nat, p: nat)
    requires Exact(s) && h !in s.handles
    ensures Exact(Adopt(s, h, p))
  {
    var s' := Adopt(s, h, p);
    assert Accounted(s') by {
      hide HandleFits, Counted;
    }
    forall d | d in s'.counts
      ensures Counted(s', d)
    {
      AdoptCounted(s, h, p, d);
    }
    forall y | y in s'.handles
      ensures HandleFits(s', y)
    {
      assert y != h ==> HandleFits(s, y);
    }
    hide Users, Counted, HandleFits, Accounted;
  }

  lemma AdoptCounted(s: Store, h: nat, p: nat, d: nat)
    requires Exact(s) && h !in s.handles && d in Adopt(s, h, p).counts
    ensures Counted(Adopt(s, h, p), d)
  {
    var c := |s.handed|;
    UsersMore(s.handles, h, Handle(Some(p), Some(c)), d);
    if d == c {
      NoUsers(s, c);
    } else {
      assert Counted(s, d);
    }
    hide Users;
  }

  /** A new handle from a pointer, null or not. */
  function Construct(s: Store, h: nat, p: Option<nat>): Store {
    if p.None? then Share(s, h, NULL) else Adopt(s, h, p.value)
  }

  lemma NoUsers(s: Store, c: nat)
    requires Exact(s) && c >= |s.handed|
    ensures Users(s.handles, c) == {}
  {
    forall h | h in s.handles
      ensures s.handles[h].control != Some(c)
    {
      assert HandleFits(s, h);
    }
  }

  // ----- the operations

  /** The memory a program's handles live in.  The real fields are those of the handles and the blocks;
      the two ghost sequences record what has been handed over and what has been deleted. */
  class Memory {
    var handles: Handles
    var counts: map<nat, int>
    var blocks: nat
    ghost var handed: seq<nat>
    ghost var gone: seq<nat>

    ghost function Value(): Store
      reads this
    {
      Store(handles, counts, handed, gone)
    }

    ghost predicate Valid()
      reads this
    {
      Exact(Value()) && blocks == |handed|
    }

    constructor ()
      ensures Valid() && Value() == NOTHING
    {
      handles, counts, blocks, handed, gone := map[], map[], 0, [], [];
    }

    /** `release`, and the destructor. */
    method Release(h: nat)
      requires Valid() && h in handles
      modifies this
      ensures Valid() && Value() == Drop(old(Value()), h)
    {
      DropExact(Value(), h);
      DropByCount(Value(), h);
      hide Drop, Exact;
      var control := handles[h].control;
      if control.Some? {
        var c := control.value;
        counts := counts[c := counts[c] - 1];
        if counts[c] == 0 {
          gone := gone + [c];
          counts := counts - {c};
        }
      }
      handles := handles - {h};
    }

    /** The default constructor. */
    method Null(h: nat)
      requires Valid() && h !in handles
      modifies this
      ensures Valid() && Value() == Share(old(Value()), h, NULL)
    {
      ShareExact(Value(), h, NULL);
      handles := handles[h := NULL];
    }

    /** The constructor from a pointer. */
    method FromRaw(h: nat, p: Option<nat>)
      requires Valid() && h !in handles
      modifies this
      ensures Valid()
      ensures Value() == Construct(old(Value()), h, p)
    {
      if p.None? {
        Null(h);
      } else {
        AdoptExact(Value(), h, p.value);
        handles := handles[h := Handle(p, Some(blocks))];
        counts, blocks, handed := counts[blocks := 1], blocks + 1, handed + [p.value];
      }
    }

    /** The copy constructor. */
    method Copy(h: nat, other: nat)
      requires Valid() && h !in handles && other in handles
      modifies this
      ensures Valid() && Value() == Share(old(Value()), h, old(handles)[other])
    {
      assert HandleFits(Value(), other);
      ShareExact(Value(), h, handles[other]);
      handles := handles[h := handles[other]];
      if handles[h].control.Some? {
        var c := handles[h].control.value;
        counts := counts[c := counts[c] + 1];
      }
    }

    /** Copy assignment: assigning a handle to itself does nothing. */
    method Assign(h: nat, other: nat)
      requires Valid() && h in handles && other in handles
      modifies this
      ensures Valid()
      ensures Value() == if h == other then old(Value()) else Share(Drop(old(Value()), h), h, old(handles)[other])
    {
      if h != other {
        DropExact(Value(), h);
        hide Drop, Share, Exact;
        Release(h);
        Copy(h, other);
      }
    }

    /** The move constructor: the other handle gives its place up. */
    method Move(h: nat, other: nat)
      requires Valid() && h !in handles && other in handles
      modifies this
      ensures Valid() && Value() == TakeOver(old(Value()), h, other, old(handles)[other])
    {
      MoveExact(Value(), h, other);
      handles := handles[h := handles[other]];
      handles := handles[other := NULL];
    }

    /** Move assignment. */
    method MoveAssign(h: nat, other: nat)
      requires Valid() && h in handles && other in handles
      modifies this
      ensures Valid()
      ensures Value() == if h == other then old(Value())
                         else TakeOver(Drop(old(Value()), h), h, other, old(handles)[other])
    {
      if h != other {
        DropExact(Value(), h);
        hide Drop, Exact;
        Release(h);
        Move(h, other);
      }
    }

    /** `reset`; with the pointer the handle already has it does nothing. */
    method Reset(h: nat, p: Option<nat>)
      requires Valid() && h in handles
      modifies this
      ensures Valid()
      ensures var s := old(Value());
              Value() == if s.handles[h].ptr == p then s else Construct(Drop(s, h), h, p)
    {
      if handles[h].ptr == p {
        return;
      }
      DropExact(Value(), h);
      hide Drop, Exact;
      Release(h);
      FromRaw(h, p);
    }

    /** `use_cnt`. */
    method UseCount(h: nat) returns (n: int)
      requires Valid() && h in handles
      ensures n == match handles[h].control case Some(c) => |Users(handles, c)| case None => 0
    {
      n := 0;
      assert HandleFits(Value(), h);
      if handles[h].control.Some? {
        assert Counted(Value(), handles[h].control.value);
        n := counts[handles[h].control.value];
      }
    }
  }

  /** A new handle takes the place of another one, `x`, which becomes null. */
  function TakeOver(s: Store, h: nat, other: nat, x: Handle): Store {
    s.(handles := s.handles[h := x][other := NULL])
  }

  /** Moving is sharing and then leaving. */
  lemma MoveIs(s: Store, h: nat, other: nat)
    requires Exact(s) && h !in s.handles && other in s.handles
    ensures Share(Drop(Share(s, h, s.handles[other]), other), other, NULL) == TakeOver(s, h, other, s.handles[other])
  {
    var x := s.handles[other];
    var t := Share(s, h, x);
    assert HandleFits(s, other);
    var less: Handles := Without(t.handles, other);
    assert less[other := NULL] == s.handles[h := x][other := NULL];
    if x.control.Some? {
      assert h in Users(t.handles, x.control.value);
      assert t.counts[x.control.value := s.counts[x.control.value]] == s.counts;
    }
    hide Users, Counted;
  }

  lemma MoveExact(s: Store, h: nat, other: nat)
    requires Exact(s) && h !in s.handles && other in s.handles
    ensures Exact(TakeOver(s, h, other, s.handles[other]))
  {
    MoveIs(s, h, other);
    assert HandleFits(s, other);
    hide Drop, Users, Counted, Accounted;
    var t := Share(s, h, s.handles[other]);
    ShareExact(s, h, s.handles[other]);
    DropExact(t, other);
    ShareExact(Drop(t, other), other, NULL);
  }

  // ----- runs

  datatype Call = FromRaw(h: nat, p: Option<nat>) | Copy(h: nat, other: nat) | Assign(h: nat, other: nat)
                | Move(h: nat, other: nat) | MoveAssign(h: nat, other: nat) | Reset(h: nat, p: Option<nat>)
                | Destroy(h: nat)

  /** A program constructs a handle under a new name, and uses those it has. */
  predicate Possible(s: Store, call: Call) {
    match call
    case FromRaw(h, _) => h !in s.handles
    case Copy(h, other) => h !in s.handles && other in s.handles
    case Assign(h, other) => h in s.handles && other in s.handles
    case Move(h, other) => h !in s.handles && other in s.handles
    case MoveAssign(h, other) => h in s.handles && other in s.handles
    case Reset(h, _) => h in s.handles
    case Destroy(h) => h in s.handles
  }

  /** One call of a program; a call that names handles it cannot is none. */
  function Do(s: Store, call: Call): Store {
    if !Possible(s, call) then s
    else
      match call
      case FromRaw(h, p) => Construct(s, h, p)
      case Copy(h, other) => Share(s, h, s.handles[other])
      case Assign(h, other) => if h == other then s else Share(Drop(s, h), h, s.handles[other])
      case Move(h, other) => TakeOver(s, h, other, s.handles[other])
      case MoveAssign(h, other) => if h == other then s else TakeOver(Drop(s, h), h, other, s.handles[other])
      case Reset(h, p) => if s.handles[h].ptr == p then s else Construct(Drop(s, h), h, p)
      case Destroy(h) => Drop(s, h)
  }

  function Run(calls: seq<Call>): Store
    decreases |calls|
  {
    if calls == [] then NOTHING else Do(Run(calls[..|calls| - 1]), calls[|calls| - 1])
  }

  /** Any program, driven on the memory. */
  method Drive(calls: seq<Call>) returns (m: Memory)
    ensures m.Valid() && m.Value() == Run(calls)
  {
    m := new Memory();
    hide Drop, Share, TakeOver, Construct, Exact;
    var i := 0;
    while i < |calls|
      invariant 0 <= i <= |calls| && fresh(m) && m.Valid() && m.Value() == Run(calls[..i])
    {
      assert calls[..i + 1][..i] == calls[..i];
      Perform(m, calls[i]);
      i := i + 1;
    }
    assert calls[..i] == calls;
  }

  method Perform(m: Memory, call: Call)
    requires m.Valid()
    modifies m
    ensures m.Valid() && m.Value() == Do(old(m.Value()), call)
  {
    hide Drop, Share, TakeOver, Construct, Exact;
    match call {
      case FromRaw(h, p) => if h !in m.handles { m.FromRaw(h, p); }
      case Copy(h, other) => if h !in m.handles && other in m.handles { m.Copy(h, other); }
      case Assign(h, other) => if h in m.handles && other in m.handles { m.Assign(h, other); }
      case Move(h, other) => if h !in m.handles && other in m.handles { m.Move(h, other); }
      case MoveAssign(h, other) => if h in m.handles && other in m.handles { m.MoveAssign(h, other); }
      case Reset(h, p) => if h in m.handles { m.Reset(h, p); }
      case Destroy(h) => if h in m.handles { m.Release(h); }
    }
  }

  /** What the handles are on after a call: the object handed over, what the other handle was on, or
      nothing; and no handle that the call does not name has changed. */
  lemma WhatHandlesReach(s: Store, call: Call)
    requires Exact(s) && Possible(s, call)
    ensures var t := Do(s, call);
            && (call.FromRaw? || call.Reset? ==> call.h in t.handles && t.handles[call.h].ptr == call.p)
            && (call.Copy? || call.Assign? ==> call.h in t.handles && t.handles[call.h] == s.handles[call.other])
            && (call.Move? || (call.MoveAssign? && call.h != call.other) ==>
                  && call.h in t.handles && t.handles[call.h] == s.handles[call.other]
                  && call.other in t.handles && t.handles[call.other] == Handle(None, None))
            && (call.MoveAssign? && call.h == call.other ==> t == s)
            && (call.Destroy? ==> call.h !in t.handles)
            && (forall x :: x != call.h && !((call.Move? || call.MoveAssign?) && x == call.other) ==>
                  (x in t.handles <==> x in s.handles) && (x in s.handles ==> t.handles[x] == s.handles[x]))
  {
    if call.h in s.handles {
      DropExact(s, call.h);
    }
    hide Exact, Drop;
  }

  // ----- what a run hands over, keeps and deletes

  /** The pointers a call hands over. */
  function Given(s: Store, call: Call): seq<nat> {
    match call
    case FromRaw(h, Some(p)) => if h in s.handles then [] else [p]
    case Reset(h, Some(p)) => if h !in s.handles || s.handles[h].ptr == Some(p) then [] else [p]
    case _ => []
  }

  lemma ConstructExact(s: Store, h: nat, p: Option<nat>)
    requires Exact(s) && h !in s.handles
    ensures Exact(Construct(s, h, p)) && Construct(s, h, p).gone == s.gone
    ensures Construct(s, h, p).handed == s.handed + if p.None? then [] else [p.value]
  {
    hide Exact;
    if p.None? {
      ShareExact(s, h, NULL);
    } else {
      AdoptExact(s, h, p.value);
    }
  }

  /** `other` is still there, and on something live, when `h` has left. */
  lemma OtherFits(s: Store, h: nat, other: nat)
    requires Exact(s) && h in s.handles && other in s.handles && h != other
    ensures Exact(Drop(s, h)) && h !in Drop(s, h).handles && other in Drop(s, h).handles
    ensures Drop(s, h).handles[other] == s.handles[other] && Fits(Drop(s, h), s.handles[other])
  {
    DropExact(s, h);
    assert HandleFits(Drop(s, h), other);
  }

  lemma DropLog(s: Store, h: nat)
    requires h in s.handles
    ensures Drop(s, h).handed == s.handed && s.gone <= Drop(s, h).gone
  {
  }

  /** Every call keeps all counts exact and every block accounted for: what it hands over is recorded, and
      what was deleted stays deleted. */
  lemma NothingForgotten(s: Store, call: Call)
    requires Exact(s)
    ensures var t := Do(s, call);
            Exact(t) && t.handed == s.handed + Given(s, call) && s.gone <= t.gone
  {
    if Possible(s, call) {
      hide Exact, Drop, Fits;
      match call
      case FromRaw(h, p) => ConstructExact(s, h, p);
      case Copy(h, other) => CopyExact(s, h, other);
      case Assign(h, other) =>
        if h != other {
          OtherFits(s, h, other);
          DropLog(s, h);
          ShareExact(Drop(s, h), h, s.handles[other]);
        }
      case Move(h, other) => MoveExact(s, h, other);
      case MoveAssign(h, other) =>
        if h != other {
          OtherFits(s, h, other);
          DropLog(s, h);
          MoveExact(Drop(s, h), h, other);
        }
      case Reset(h, p) =>
        DropExact(s, h);
        DropLog(s, h);
        ConstructExact(Drop(s, h), h, p);
      case Destroy(h) =>
        DropExact(s, h);
        DropLog(s, h);
    }
  }

  lemma CopyExact(s: Store, h: nat, other: nat)
    requires Exact(s) && h !in s.handles && other in s.handles
    ensures Exact(Share(s, h, s.handles[other]))
  {
    assert HandleFits(s, other);
    ShareExact(s, h, s.handles[other]);
  }

  lemma {:induction false} RunExact(calls: seq<Call>)
    ensures Exact(Run(calls))
    decreases |calls|
  {
    if calls != [] {
      RunExact(calls[..|calls| - 1]);
      NothingForgotten(Run(calls[..|calls| - 1]), calls[|calls| - 1]);
    }
  }

  /** The blocks made for an object, and those of them that are live. */
  function Made(s: Store, p: nat): set<nat> {
    set c: nat | c < |s.handed| && s.handed[c] == p
  }

  function Kept(s: Store, p: nat): set<nat> {
    set c: nat | c in s.counts && c < |s.handed| && s.handed[c] == p
  }

  /** How often `p` has been deleted. */
  function Deletions(handed: seq<nat>, gone: seq<nat>, p: nat): nat {
    if gone == [] then 0
    else
      var c := gone[|gone| - 1];
      Deletions(handed, gone[..|gone| - 1], p) + if c < |handed| && handed[c] == p then 1 else 0
  }

  /** The blocks that deleted it. */
  function Deleted(handed: seq<nat>, gone: seq<nat>, p: nat): set<nat> {
    set c: nat | c in gone && c < |handed| && handed[c] == p
  }

  lemma DeletedMore(handed: seq<nat>, gone: seq<nat>, c: nat, p: nat)
    requires c !in gone
    ensures |Deleted(handed, gone + [c], p)|
         == |Deleted(handed, gone, p)| + if c < |handed| && handed[c] == p then 1 else 0
  {
    assert Deleted(handed, gone + [c], p)
        == Deleted(handed, gone, p) + if c < |handed| && handed[c] == p then {c} else {};
  }

  lemma {:induction false} DeletionsCount(handed: seq<nat>, gone: seq<nat>, p: nat)
    requires forall i, j :: 0 <= i < j < |gone| ==> gone[i] != gone[j]
    ensures Deletions(handed, gone, p) == |Deleted(handed, gone, p)|
  {
    if gone == [] {
      assert Deleted(handed, gone, p) == {};
    } else {
      var before, c := gone[..|gone| - 1], gone[|gone| - 1];
      assert gone == before + [c];
      hide Deleted;
      DeletionsCount(handed, before, p);
      DeletedMore(handed, before, c, p);
    }
  }

  /** After any run, an object has been deleted as often as it was handed over, less the blocks that still
      keep it. */
  lemma HandedKeptDeleted(calls: seq<Call>, p: nat)
    ensures var s := Run(calls);
            |Made(s, p)| == |Kept(s, p)| + Deletions(s.handed, s.gone, p)
  {
    var s := Run(calls);
    RunExact(calls);
    DeletionsCount(s.handed, s.gone, p);
    var deleted := Deleted(s.handed, s.gone, p);
    assert Made(s, p) == Kept(s, p) + deleted && Kept(s, p) !! deleted;
  }

  /** A block is kept exactly as long as a handle is on it. */
  lemma KeptIsReached(s: Store, p: nat)
    requires Exact(s)
    ensures Kept(s, p) != {} <==> exists h :: h in s.handles && s.handles[h].ptr == Some(p)
  {
    if c :| c in Kept(s, p) {
      assert Counted(s, c);
      var h :| h in Users(s.handles, c);
      assert HandleFits(s, h);
    }
    if h :| h in s.handles && s.handles[h].ptr == Some(p) {
      assert HandleFits(s, h);
      assert s.handles[h].control.value in Kept(s, p);
    }
  }

  ghost predicate HandedOverOnce(s: Store) {
    forall i, j :: 0 <= i < j < |s.handed| ==> s.handed[i] != s.handed[j]
  }

  lemma MadeOnce(s: Store, p: nat)
    requires HandedOverOnce(s) && p in s.handed
    ensures |Made(s, p)| == 1
  {
    var c: nat :| c < |s.handed| && s.handed[c] == p;
    assert Made(s, p) == {c};
  }

  /** If no pointer was handed over twice, an object is deleted once, and exactly when no handle reaches
      it any more. */
  lemma DeletedExactlyWhenUnreachable(calls: seq<Call>, p: nat)
    requires HandedOverOnce(Run(calls)) && p in Run(calls).handed
    ensures var s := Run(calls);
            var reached := exists h :: h in s.handles && s.handles[h].ptr == Some(p);
            Deletions(s.handed, s.gone, p) == if reached then 0 else 1
  {
    var s := Run(calls);
    RunExact(calls);
    HandedKeptDeleted(calls, p);
    KeptIsReached(s, p);
    MadeOnce(s, p);
    assert Kept(s, p) <= Made(s, p);
    if Kept(s, p) != {} {
      var c :| c in Kept(s, p);
      assert |Made(s, p) - {c}| == 0;
      assert Kept(s, p) == {c};
    }
  }

  /** Once no handle is left, every object has been deleted as often as it was handed over: none twice, if
      and only if none was handed over twice. */
  lemma AllDeletedAtTheEnd(calls: seq<Call>)
    requires Run(calls).handles == map[]
    ensures var s := Run(calls);
            && (forall p :: Deletions(s.handed, s.gone, p) == |Made(s, p)|)
            && (HandedOverOnce(s) <==> forall p :: Deletions(s.handed, s.gone, p) <= 1)
  {
    var s := Run(calls);
    RunExact(calls);
    forall p
      ensures Deletions(s.handed, s.gone, p) == |Made(s, p)|
      ensures HandedOverOnce(s) ==> |Made(s, p)| <= 1
    {
      HandedKeptDeleted(calls, p);
      KeptIsReached(s, p);
      if HandedOverOnce(s) && p in s.handed {
        MadeOnce(s, p);
      }
      assert p !in s.handed ==> Made(s, p) == {};
    }
    if !HandedOverOnce(s) {
      var i, j :| 0 <= i < j < |s.handed| && s.handed[i] == s.handed[j];
      MadeTwice(s, i, j);
    }
  }

  lemma MadeTwice(s: Store, i: nat, j: nat)
    requires i < j < |s.handed| && s.handed[i] == s.handed[j]
    ensures |Made(s, s.handed[i])| > 1
  {
    var made := Made(s, s.handed[i]);
    assert i in made && j in made - {i};
    assert |made| == |made - {i}| + 1;
  }

  /** A pointer handed over twice: the handle that stays is on an object already deleted. */
  lemma HandedOverTwice(p: nat)
    ensures var s := Run([FromRaw(0, Some(p)), FromRaw(1, Some(p)), Destroy(0)]);
            1 in s.handles && s.handles[1].ptr == Some(p) && Deletions(s.handed, s.gone, p) == 1
  {
    var calls := [FromRaw(0, Some(p)), FromRaw(1, Some(p)), Destroy(0)];
    var first := calls[..2][..1];
    assert first == [FromRaw(0, Some(p))] && first[..0] == [] && Run(first[..0]) == NOTHING;
    var s1 := Run(first);
    assert s1 == Adopt(NOTHING, 0, p);
    var s2 := Run(calls[..2]);
    assert s2 == Adopt(s1, 1, p);
    assert Users(s2.handles, 0) == {0};
    assert Run(calls) == Drop(s2, 0);
    assert Drop(s2, 0).gone == [0] && [0][..0] == [];
  }
}
