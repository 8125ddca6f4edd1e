/** The resizing ring-buffer deque (deque_demo.h): a sequence, whatever the index arithmetic wraps. */
module RingDeque {

  import opened Modular

  /** size_t arithmetic is modulo this. */
  const WORD: nat := 0x1_0000_0000_0000_0000

  /** `(index - 1 + capacity) % capacity`, every step modulo `word`: the subtraction may wrap. */
  function Before(index: nat, capacity: nat, word: nat): nat
    requires capacity > 0 && word > 0
  {
    ((index - 1) % word + capacity) % word % capacity
  }

  /** It is the place before `index`, as long as the buffer is not larger than half the word. */
  lemma BeforeIs(index: nat, capacity: nat, word: nat)
    requires index < capacity && 2 * capacity <= word
    ensures Before(index, capacity, word) == if index == 0 then capacity - 1 else index - 1
  {
    var a := (index - 1) % word;
    if index == 0 {
      RemainderIs(-1, word, -1, word - 1);
      RemainderIs(a + capacity, word, 1, capacity - 1);
      RemainderIs(capacity - 1, capacity, 0, capacity - 1);
    } else {
      RemainderIs(index - 1, word, 0, index - 1);
      RemainderIs(a + capacity, word, 0, a + capacity);
      RemainderIs(a + capacity, capacity, 1, index - 1);
    }
  }

  /** The `n` elements from place `f` on, around the end of the buffer. */
  function Ring(buf: seq<int>, f: nat, n: nat): (s: seq<int>)
    requires |buf| > 0
    ensures |s| == n && forall i {:trigger s[i]} :: 0 <= i < n ==> s[i] == buf[Place(f, i, |buf|)]
  {
    seq(n, (i: nat) => buf[Place(f, i, |buf|)])
  }

  lemma Wraps(x: nat, m: nat)
    requires m > 0 && x < 2 * m
    ensures x % m == if x < m then x else x - m
  {
    RemainderIs(x, m, if x < m then 0 else 1, if x < m then x else x - m);
  }

  /** The place `n` places after `f`. */
  function Place(f: nat, n: nat, m: nat): nat
    requires m > 0
  {
    (f + n) % m
  }

  lemma RingPushBack(buf: seq<int>, f: nat, n: nat, v: int)
    requires f < |buf| && n < |buf|
    ensures Ring(buf[Place(f, n, |buf|) := v], f, n + 1) == Ring(buf, f, n) + [v]
  {
    var b := Place(f, n, |buf|);
    forall i | 0 <= i < n + 1
      ensures Ring(buf[b := v], f, n + 1)[i] == (Ring(buf, f, n) + [v])[i]
    {
      if i < n {
        Apart(f + i, f + n, |buf|);
      }
    }
    hide Ring;
  }

  lemma RingPushFront(buf: seq<int>, f: nat, g: nat, n: nat, v: int)
    requires f < |buf| && n < |buf| && g == if f == 0 then |buf| - 1 else f - 1
    ensures Ring(buf[g := v], g, n + 1) == [v] + Ring(buf, f, n)
  {
    forall i | 0 <= i < n + 1
      ensures Ring(buf[g := v], g, n + 1)[i] == ([v] + Ring(buf, f, n))[i]
    {
      Wraps(g + i, |buf|);
      if i > 0 {
        Wraps(f + (i - 1), |buf|);
      }
    }
    hide Ring;
  }

  lemma RingPopFront(buf: seq<int>, f: nat, n: nat)
    requires f < |buf| && 0 < n <= |buf|
    ensures Ring(buf, Place(f, 1, |buf|), n - 1) == Ring(buf, f, n)[1..]
  {
    Wraps(f + 1, |buf|);
    forall i | 0 <= i < n - 1
      ensures Ring(buf, Place(f, 1, |buf|), n - 1)[i] == Ring(buf, f, n)[1..][i]
    {
      Wraps(Place(f, 1, |buf|) + i, |buf|);
      Wraps(f + (i + 1), |buf|);
    }
    hide Ring;
  }

  lemma RingPopBack(buf: seq<int>, f: nat, n: nat)
    requires |buf| > 0 && n > 0
    ensures Ring(buf, f, n - 1) == Ring(buf, f, n)[..n - 1]
  {
  }

  lemma RingLinear(lin: seq<int>, buf: seq<int>, f: nat, n: nat)
    requires |buf| > 0 && n <= |lin| && |lin| > 0
    requires forall k :: 0 <= k < n ==> lin[k] == buf[Place(f, k, |buf|)]
    ensures Ring(lin, 0, n) == Ring(buf, f, n)
  {
    forall k | 0 <= k < n
      ensures Ring(lin, 0, n)[k] == Ring(buf, f, n)[k]
    {
      Wraps(k, |lin|);
    }
    hide Ring;
  }

  /** Moving the front back by one and counting one more leaves the back where it is. */
  lemma BackStays(f: nat, n: nat, m: nat)
    requires f < m && n < m
    ensures Place(f, n, m) == Place(if f == 0 then m - 1 else f - 1, n + 1, m)
  {
    Wraps(f + n, m);
    Wraps((if f == 0 then m - 1 else f - 1) + (n + 1), m);
  }

  lemma FrontMoves(f: nat, n: nat, m: nat)
    requires f < m && 0 < n <= m
    ensures Place(f, 1, m) < m && Place(f, n, m) == Place(Place(f, 1, m), n - 1, m)
  {
    Wraps(f + 1, m);
    Wraps(f + n, m);
    Wraps(Place(f, 1, m) + (n - 1), m);
  }

  lemma BackMoves(f: nat, n: nat, m: nat)
    requires f < m && 0 < n <= m
    ensures var b := Place(f, n, m);
            b < m && Place(f, n - 1, m) == if b == 0 then m - 1 else b - 1
  {
    Wraps(f + n, m);
    Wraps(f + (n - 1), m);
  }

  lemma BackSteps(f: nat, n: nat, m: nat)
    requires f < m && n < m
    ensures Place(f, n, m) < m && Place(Place(f, n, m), 1, m) == Place(f, n + 1, m)
  {
    NextIndex(f + n, m);
  }

  /** The two indices meet exactly in an empty or a full deque. */
  lemma MeetExactly(f: nat, n: nat, m: nat)
    requires f < m && n <= m
    ensures f == Place(f, n, m) <==> n == 0 || n == m
  {
    Wraps(f + n, m);
  }

  // ----- what the calls mean

  datatype Call = PushFront(value: int) | PushBack(value: int) | PopFront | PopBack

  /** The sequence a deque stands for and the length of its buffer. */
  datatype State = State(items: seq<int>, capacity: nat)

  /** Whether the call has to resize first.  `push_front` also does so in an empty deque, where its two
      indices meet as they do in a full one. */
  predicate Resizes(d: State, call: Call) {
    (call.PushFront? && (d.items == [] || |d.items| == d.capacity)) || (call.PushBack? && |d.items| == d.capacity)
  }

  /** One call, where `new` grants buffers of up to `most` elements.  A push whose buffer is refused and a
      pop of nothing throw, and leave the deque as it was. */
  function Step(d: State, call: Call, most: nat): State {
    if Resizes(d, call) && 2 * d.capacity > most then d
    else
      var capacity := if Resizes(d, call) then 2 * d.capacity else d.capacity;
      match call
      case PushFront(v) => State([v] + d.items, capacity)
      case PushBack(v) => State(d.items + [v], capacity)
      case PopFront => if d.items == [] then d else State(d.items[1..], capacity)
      case PopBack => if d.items == [] then d else State(d.items[..|d.items| - 1], capacity)
  }

  function Run(d: State, calls: seq<Call>, most: nat): State
    decreases |calls|
  {
    if calls == [] then d else Step(Run(d, calls[..|calls| - 1], most), calls[|calls| - 1], most)
  }

  // ----- the indices alone

  datatype Indices = Indices(capacity: nat, count: nat, front: nat, back: nat)

  function Resized(i: Indices, capacity: nat): Indices {
    Indices(capacity, i.count, 0, i.count)
  }

  function FrontPopped(i: Indices): Indices
    requires i.capacity > 0 && i.count > 0
  {
    i.(front := Place(i.front, 1, i.capacity), count := i.count - 1)
  }

  /** `push_back` writes inside the buffer. */
  predicate PushesInside(i: Indices) {
    if i.count == i.capacity then i.count < 2 * i.capacity else i.back < i.capacity
  }

  /** `resize` to exactly the number of elements leaves the back index behind the buffer: after one
      `pop_front` the next `push_back` writes there.  With one place more it does not. */
  lemma TightResize(i: Indices, capacity: nat)
    requires 0 < i.count <= capacity
    ensures PushesInside(FrontPopped(Resized(i, capacity))) <==> capacity > i.count
  {
  }

  /** Done; refused by `new`, which changes nothing; or a write behind the new buffer. */
  datatype Outcome = Done | Refused | Outside

  class Deque {
    var buffer: array<int>
    var capacity: nat
    var count: nat
    var frontIndex: nat
    var backIndex: nat
    /** `new` grants this many elements and no more; that a doubled capacity does not wrap is part of `Valid`. */
    const most: nat

    ghost predicate Valid()
      reads this
    {
      && capacity == buffer.Length > 0 && count <= capacity <= most && 2 * most < WORD
      && frontIndex < capacity && backIndex == Place(frontIndex, count, capacity)
    }

    /** The sequence the deque stands for. */
    ghost function Contents(): seq<int>
      requires Valid()
      reads this, buffer
    {
      Ring(buffer[..], frontIndex, count)
    }

    ghost function Now(): State
      requires Valid()
      reads this, buffer
    {
      State(Contents(), capacity)
    }

    ghost function Places(): Indices
      reads this
    {
      Indices(capacity, count, frontIndex, backIndex)
    }

    constructor (initialCapacity: nat, most: nat)
      requires 1 <= initialCapacity <= most && 2 * most < WORD
      ensures Valid() && Now() == State([], initialCapacity) && fresh(buffer) && this.most == most
    {
      this.most := most;
      buffer := new int[initialCapacity];
      capacity, count, frontIndex, backIndex := initialCapacity, 0, 0, 0;
    }

    /** The copy loop of `resize`. */
    method Linearise(newCapacity: nat) returns (newBuf: array<int>)
      requires Valid() && newCapacity >= count
      ensures fresh(newBuf) && newBuf.Length == newCapacity
      ensures forall k :: 0 <= k < count ==> newBuf[k] == buffer[Place(frontIndex, k, capacity)]
    {
      newBuf := new int[newCapacity];
      var i := 0;
      while i < count
        invariant 0 <= i <= count
        invariant forall k :: 0 <= k < i ==> newBuf[k] == buffer[Place(frontIndex, k, capacity)]
      {
        newBuf[i] := buffer[Place(frontIndex, i, capacity)];
        i := i + 1;
      }
    }

    /** `resize`. */
    method Resize(newCapacity: nat) returns (outcome: Outcome)
      requires Valid()
      modifies this
      ensures outcome == if newCapacity > most then Refused else if newCapacity < count then Outside else Done
      ensures outcome.Done? ==> Places() == Resized(old(Places()), newCapacity)
      ensures outcome.Done? ==> fresh(buffer) && buffer.Length == newCapacity && buffer[..count] == old(Contents())
      ensures outcome.Done? && newCapacity > count ==> Valid() && Contents() == old(Contents())
      ensures !outcome.Done? ==> Valid() && buffer == old(buffer) && Places() == old(Places())
    {
      hide Ring;
      if newCapacity > most {
        return Refused;
      }
      if newCapacity < count {
        return Outside;
      }
      var newBuf := Linearise(newCapacity);
      if newCapacity > count {
        RingLinear(newBuf[..], buffer[..], frontIndex, count);
        Wraps(count, newCapacity);
      }
      frontIndex := 0;
      backIndex := count;
      buffer := newBuf;
      capacity := newCapacity;
      outcome := Done;
    }

    /** `push_front`; false is the exception of `new`. */
    method PushFront(value: int) returns (ok: bool)
      requires Valid()
      modifies this, buffer
      ensures Valid() && Now() == Step(old(Now()), Call.PushFront(value), most)
      ensures ok == !(Resizes(old(Now()), Call.PushFront(value)) && 2 * old(capacity) > most)
      ensures Contents() == if ok then [value] + old(Contents()) else old(Contents())
      ensures buffer == old(buffer) || fresh(buffer)
    {
      MeetExactly(frontIndex, count, capacity);
      hide Ring, Before, Place;
      if frontIndex == backIndex || count == capacity {
        var outcome := Resize(capacity * 2);
        if outcome.Refused? {
          return false;
        }
      }
      BeforeIs(frontIndex, capacity, WORD);
      RingPushFront(buffer[..], frontIndex, Before(frontIndex, capacity, WORD), count, value);
      BackStays(frontIndex, count, capacity);
      frontIndex := Before(frontIndex, capacity, WORD);
      buffer[frontIndex] := value;
      count := count + 1;
      ok := true;
    }

    /** `push_back`; false is the exception of `new`. */
    method PushBack(value: int) returns (ok: bool)
      requires Valid()
      modifies this, buffer
      ensures Valid() && Now() == Step(old(Now()), Call.PushBack(value), most)
      ensures ok == !(Resizes(old(Now()), Call.PushBack(value)) && 2 * old(capacity) > most)
      ensures Contents() == if ok then old(Contents()) + [value] else old(Contents())
      ensures buffer == old(buffer) || fresh(buffer)
    {
      hide Ring, Place;
      if count == capacity {
        var outcome := Resize(capacity * 2);
        if outcome.Refused? {
          return false;
        }
      }
      RingPushBack(buffer[..], frontIndex, count, value);
      BackSteps(frontIndex, count, capacity);
      buffer[backIndex] := value;
      backIndex := Place(backIndex, 1, capacity);
      count := count + 1;
      ok := true;
    }

    /** `pop_front`; false is the exception. */
    method PopFront() returns (ok: bool)
      requires Valid()
      modifies this
      ensures Valid() && Now() == Step(old(Now()), Call.PopFront, most) && buffer == old(buffer)
      ensures ok == (old(Contents()) != []) && (ok ==> Places() == FrontPopped(old(Places())))
      ensures Contents() == if ok then old(Contents())[1..] else old(Contents())
    {
      hide Ring, Place;
      if count == 0 {
        return false;
      }
      RingPopFront(buffer[..], frontIndex, count);
      FrontMoves(frontIndex, count, capacity);
      frontIndex := Place(frontIndex, 1, capacity);
      count := count - 1;
      ok := true;
    }

    /** `pop_back`; false is the exception. */
    method PopBack() returns (ok: bool)
      requires Valid()
      modifies this
      ensures Valid() && Now() == Step(old(Now()), Call.PopBack, most) && buffer == old(buffer)
      ensures ok == (old(Contents()) != [])
      ensures Contents() == if ok then old(Contents())[..|old(Contents())| - 1] else old(Contents())
    {
      hide Ring, Before, Place;
      if count == 0 {
        return false;
      }
      RingPopBack(buffer[..], frontIndex, count);
      BackMoves(frontIndex, count, capacity);
      BeforeIs(backIndex, capacity, WORD);
      backIndex := Before(backIndex, capacity, WORD);
      count := count - 1;
      ok := true;
    }

    /** `front` and `back`; false is the exception. */
    method Front() returns (ok: bool, value: int)
      requires Valid()
      ensures ok == (Contents() != []) && (ok ==> value == Contents()[0])
    {
      if count == 0 {
        return false, 0;
      }
      Wraps(frontIndex, capacity);
      return true, buffer[frontIndex];
    }

    method Back() returns (ok: bool, value: int)
      requires Valid()
      ensures ok == (Contents() != []) && (ok ==> value == Contents()[|Contents()| - 1])
    {
      if count == 0 {
        return false, 0;
      }
      hide Before, Ring, Place;
      BackMoves(frontIndex, count, capacity);
      BeforeIs(backIndex, capacity, WORD);
      assert Contents()[count - 1] == buffer[..][Place(frontIndex, count - 1, capacity)];
      return true, buffer[Before(backIndex, capacity, WORD)];
    }
  }

  // ----- runs

  /** A deque of any capacity from 1 on, driven by any calls, stays the sequence they describe, in a
      buffer of the length they describe. */
  method Drive(capacity: nat, calls: seq<Call>, most: nat) returns (d: Deque)
    requires 1 <= capacity <= most && 2 * most < WORD
    ensures d.Valid() && d.Now() == Run(State([], capacity), calls, most)
  {
    d := new Deque(capacity, most);
    var i := 0;
    while i < |calls|
      invariant 0 <= i <= |calls| && fresh(d) && fresh(d.buffer) && d.Valid() && d.most == most
      invariant d.Now() == Run(State([], capacity), calls[..i], most)
    {
      assert calls[..i + 1][..i] == calls[..i];
      match calls[i] {
        case PushFront(v) => var _ := d.PushFront(v);
        case PushBack(v) => var _ := d.PushBack(v);
        case PopFront => var _ := d.PopFront();
        case PopBack => var _ := d.PopBack();
      }
      i := i + 1;
    }
    assert calls[..i] == calls;
  }

  /** The calls without regard to capacity. */
  function Meant(s: seq<int>, calls: seq<Call>): seq<int>
    decreases |calls|
  {
    if calls == [] then s
    else
      var t := Meant(s, calls[..|calls| - 1]);
      match calls[|calls| - 1]
      case PushFront(v) => [v] + t
      case PushBack(v) => t + [v]
      case PopFront => if t == [] then t else t[1..]
      case PopBack => if t == [] then t else t[..|t| - 1]
  }

  function Power(n: nat): nat {
    if n == 0 then 1 else 2 * Power(n - 1)
  }

  lemma OneDoublingMore(capacity: nat, n: nat)
    ensures capacity * Power(n + 1) == 2 * (capacity * Power(n)) >= capacity * Power(n) >= 0
  {
  }

  /** The number of pushes that find a full buffer, or an empty deque in front of which they push. */
  function Resizings(d: State, calls: seq<Call>, most: nat): nat
    decreases |calls|
  {
    if calls == [] then 0
    else
      var before := calls[..|calls| - 1];
      Resizings(d, before, most) + if Resizes(Run(d, before, most), calls[|calls| - 1]) then 1 else 0
  }

  /** If `new` grants as many doublings as the run asks for, no call is refused: the buffer has doubled
      that often, and the sequence is the one meant. */
  lemma {:induction false} NothingRefused(d: State, calls: seq<Call>, most: nat)
    requires d.capacity * Power(Resizings(d, calls, most)) <= most
    ensures Run(d, calls, most) == State(Meant(d.items, calls), d.capacity * Power(Resizings(d, calls, most)))
    decreases |calls|
  {
    if calls != [] {
      var before := calls[..|calls| - 1];
      var n := Resizings(d, before, most);
      OneDoublingMore(d.capacity, n);
      hide Power;
      NothingRefused(d, before, most);
    }
  }

  /** The most elements held at any time. */
  function Peak(d: State, calls: seq<Call>, most: nat): nat
    decreases |calls|
  {
    var now := |Run(d, calls, most).items|;
    if calls == [] then now
    else
      var earlier := Peak(d, calls[..|calls| - 1], most);
      if earlier > now then earlier else now
  }

  /** A push that finds a free place leaves the buffer alone, a `push_front` in an empty deque excepted; one
      that finds none doubles it. */
  lemma GrowsExactlyWhenFull(d: State, call: Call, most: nat)
    requires |d.items| <= d.capacity
    requires call.PushFront? ==> d.items != []
    ensures var d' := Step(d, call, most);
            && (|d'.items| > |d.items| && |d.items| < d.capacity ==> d'.capacity == d.capacity)
            && (|d'.items| > |d.items| && |d.items| == d.capacity ==> d'.capacity == 2 * d.capacity <= most)
            && (|d'.items| <= |d.items| ==> d'.capacity == d.capacity)
            && (|d.items| < d.capacity && (call.PushFront? || call.PushBack?) ==> |d'.items| == |d.items| + 1)
  {
  }

  /** Some `push_front` of the run meets an empty deque. */
  predicate FrontOfEmpty(d: State, calls: seq<Call>, most: nat)
    decreases |calls|
  {
    calls != []
    && (|| FrontOfEmpty(d, calls[..|calls| - 1], most)
        || (calls[|calls| - 1].PushFront? && Run(d, calls[..|calls| - 1], most).items == []))
  }

  /** Without one, a buffer that has grown has less than twice the places needed at some time ... */
  lemma {:induction false} BufferFitsPeak(d: State, calls: seq<Call>, most: nat)
    requires !FrontOfEmpty(d, calls, most)
    ensures var capacity := Run(d, calls, most).capacity;
            capacity <= d.capacity || capacity < 2 * Peak(d, calls, most)
    decreases |calls|
  {
    if calls != [] {
      BufferFitsPeak(d, calls[..|calls| - 1], most);
    }
  }

  /** `push_front` and `pop_front`, `n` times. */
  function FrontPairs(v: int, n: nat): seq<Call> {
    if n == 0 then [] else FrontPairs(v, n - 1) + [Call.PushFront(v), Call.PopFront]
  }

  /** ... and with it there is no such bound: `n` pairs that never hold more than one element double the
      buffer `n` times. */
  lemma {:induction false} FrontPairsGrow(capacity: nat, v: int, n: nat, most: nat)
    requires capacity >= 1 && capacity * Power(n) <= most
    ensures Run(State([], capacity), FrontPairs(v, n), most) == State([], capacity * Power(n))
    ensures Peak(State([], capacity), FrontPairs(v, n), most) <= 1
  {
    if n > 0 {
      var calls := FrontPairs(v, n);
      var pushed := calls[..|calls| - 1];
      assert pushed[..|pushed| - 1] == FrontPairs(v, n - 1);
      OneDoublingMore(capacity, n - 1);
      hide Power;
      FrontPairsGrow(capacity, v, n - 1, most);
    }
  }
}
