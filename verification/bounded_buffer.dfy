/** The producer and the consumer around a circular buffer and three semaphores (p_and_c_demo.c), for
    any number of items and any capacity from 1 on. */
module BoundedBuffer {

  import opened Modular

  /** Where a thread is in its loop: before the first wait, before the wait on the mutex, at the buffer
      access, at the index update, before the post of the mutex, before the last post. */
  datatype Pc = First | Lock | Access | Advance | Unlock | Last

  datatype Thread = Producer | Consumer

  /** The globals, the two loops (`made` and `used` rounds finished), and what went in and came out. */
  datatype State = State(buffer: seq<int>, front: nat, rear: nat, mutex: nat, slots: nat, items: nat,
                         p: Pc, made: nat, c: Pc, used: nat, produced: seq<int>, consumed: seq<int>)

  ghost predicate Init(s: State, capacity: nat) {
    && |s.buffer| == capacity && s.front == 0 && s.rear == 0
    && s.mutex == 1 && s.slots == capacity && s.items == 0
    && s.p == First && s.made == 0 && s.c == First && s.used == 0
    && s.produced == [] && s.consumed == []
  }

  predicate Enabled(s: State, t: Thread, n: nat) {
    match t
    case Producer => s.made < n && (s.p == First ==> s.slots > 0) && (s.p == Lock ==> s.mutex > 0)
                     && s.rear < |s.buffer|
    case Consumer => s.used < n && (s.c == First ==> s.items > 0) && (s.c == Lock ==> s.mutex > 0)
                     && s.front < |s.buffer|
  }

  function Step(s: State, t: Thread, n: nat): State
    requires Enabled(s, t, n)
  {
    match t
    case Producer => (
      match s.p
      case First => s.(slots := s.slots - 1, p := Lock)
      case Lock => s.(mutex := s.mutex - 1, p := Access)
      case Access =>
        s.(buffer := s.buffer[s.rear := s.made + 1], produced := s.produced + [s.made + 1], p := Advance)
      case Advance => s.(rear := (s.rear + 1) % |s.buffer|, p := Unlock)
      case Unlock => s.(mutex := s.mutex + 1, p := Last)
      case Last => s.(items := s.items + 1, made := s.made + 1, p := First)
    )
    case Consumer => (
      match s.c
      case First => s.(items := s.items - 1, c := Lock)
      case Lock => s.(mutex := s.mutex - 1, c := Access)
      case Access => s.(consumed := s.consumed + [s.buffer[s.front]], c := Advance)
      case Advance => s.(front := (s.front + 1) % |s.buffer|, c := Unlock)
      case Unlock => s.(mutex := s.mutex + 1, c := Last)
      case Last => s.(slots := s.slots + 1, used := s.used + 1, c := First)
    )
  }

  // ----- the semaphores

  /** Between the first wait and the last post. */
  function Engaged(pc: Pc): nat {
    if pc == First then 0 else 1
  }

  function Inside(pc: Pc): nat {
    if pc in {Access, Advance, Unlock} then 1 else 0
  }

  /** Every slot is free, filled, or in a thread's hands; the mutex is free or with one thread; and the
      items are the rounds the producer is ahead. */
  ghost predicate Balanced(s: State, n: nat) {
    && s.slots + s.items + Engaged(s.p) + Engaged(s.c) == |s.buffer|
    && s.mutex + Inside(s.p) + Inside(s.c) == 1
    && s.items + s.used + Engaged(s.c) == s.made
    && s.made <= n && s.used <= n && (s.made == n ==> s.p == First) && (s.used == n ==> s.c == First)
  }

  lemma BalancedKept(s: State, t: Thread, n: nat)
    requires Balanced(s, n) && Enabled(s, t, n)
    ensures Balanced(Step(s, t, n), n)
  {
  }

  /** Both loops have finished. */
  predicate Finished(s: State, n: nat) {
    s.made == n && s.used == n
  }

  /** Some thread can always step until both have finished, and every step is one of finitely many. */
  lemma Progress(s: State, n: nat)
    requires Balanced(s, n) && s.rear < |s.buffer| && s.front < |s.buffer|
    ensures Finished(s, n) || Enabled(s, Producer, n) || Enabled(s, Consumer, n)
    ensures forall t :: Enabled(s, t, n) ==> ToGo(Step(s, t, n), n) < ToGo(s, n)
  {
  }

  function Rank(pc: Pc): nat {
    match pc case First => 6 case Lock => 5 case Access => 4 case Advance => 3 case Unlock => 2 case Last => 1
  }

  ghost function ToGo(s: State, n: nat): int {
    6 * (n - s.made) + Rank(s.p) + 6 * (n - s.used) + Rank(s.c)
  }

  // ----- the data

  /** Items written and read so far, the current round counted once it has done so. */
  function Written(s: State): nat {
    s.made + if s.p in {Advance, Unlock, Last} then 1 else 0
  }

  function Read(s: State): nat {
    s.used + if s.c in {Advance, Unlock, Last} then 1 else 0
  }

  /** The indices follow the counts, and the items written and not yet read are in their places. */
  ghost predicate Stored(s: State) {
    && |s.buffer| > 0
    && s.rear == (s.made + if s.p in {Unlock, Last} then 1 else 0) % |s.buffer|
    && s.front == (s.used + if s.c in {Unlock, Last} then 1 else 0) % |s.buffer|
    && |s.produced| == Written(s) && (forall k :: 0 <= k < |s.produced| ==> s.produced[k] == k + 1)
    && Read(s) <= Written(s) && s.consumed == s.produced[..Read(s)]
    && (forall k :: Read(s) <= k < Written(s) ==> s.buffer[k % |s.buffer|] == s.produced[k])
  }

  lemma StoredByProducer(s: State, n: nat)
    requires Balanced(s, n) && Stored(s) && Enabled(s, Producer, n)
    ensures Stored(Step(s, Producer, n))
  {
    var s', m := Step(s, Producer, n), |s.buffer|;
    if s.p == Advance {
      NextIndex(s.made, m);
    }
    if s.p == Access {
      forall k | Read(s) <= k < Written(s)
        ensures s'.buffer[k % m] == s'.produced[k]
      {
        Apart(k, s.made, m);
      }
    }
  }

  lemma StoredByConsumer(s: State, n: nat)
    requires Balanced(s, n) && Stored(s) && Enabled(s, Consumer, n)
    ensures Stored(Step(s, Consumer, n))
  {
    NextIndex(s.used, |s.buffer|);
    if s.c == Access {
      assert s.buffer[s.front] == s.produced[s.used];
      assert s.produced[..s.used] + [s.produced[s.used]] == s.produced[..s.used + 1];
    }
  }

  // ----- whole runs

  /** What holds after every step of every interleaving. */
  ghost predicate Sound(s: State, n: nat) {
    Balanced(s, n) && Stored(s)
  }

  ghost function Run(s: State, n: nat, schedule: seq<Thread>): State
    decreases |schedule|
  {
    if schedule == [] then s
    else
      var t := Run(s, n, schedule[..|schedule| - 1]);
      var next := schedule[|schedule| - 1];
      if Enabled(t, next, n) then Step(t, next, n) else t   // a thread that cannot go on waits
  }

  lemma {:induction false} RunSound(s: State, n: nat, capacity: nat, schedule: seq<Thread>)
    requires Init(s, capacity) && capacity >= 1
    ensures Sound(Run(s, n, schedule), n) && |Run(s, n, schedule).buffer| == capacity
    decreases |schedule|
  {
    if schedule != [] {
      var t := Run(s, n, schedule[..|schedule| - 1]);
      var next := schedule[|schedule| - 1];
      RunSound(s, n, capacity, schedule[..|schedule| - 1]);
      if Enabled(t, next, n) {
        BalancedKept(t, next, n);
        if next == Producer {
          StoredByProducer(t, n);
        } else {
          StoredByConsumer(t, n);
        }
      }
      hide Enabled, Balanced, Stored;
    }
  }

  /** In every run: slots, items and engaged threads add up to the capacity, the critical sections
      exclude each other, what was consumed is a prefix of what was produced, which is 1, 2, 3 and so
      on, and some thread can step until both have finished, when every item has been consumed. */
  lemma BoundedBufferIsSafe(s: State, n: nat, capacity: nat, schedule: seq<Thread>)
    requires Init(s, capacity) && capacity >= 1
    ensures var t := Run(s, n, schedule);
            && t.slots + t.items + Engaged(t.p) + Engaged(t.c) == capacity
            && Inside(t.p) + Inside(t.c) <= 1
            && t.consumed <= t.produced && (forall k :: 0 <= k < |t.produced| ==> t.produced[k] == k + 1)
            && (Finished(t, n) || Enabled(t, Producer, n) || Enabled(t, Consumer, n))
            && (Finished(t, n) ==> |t.consumed| == n && t.consumed == t.produced)
  {
    RunSound(s, n, capacity, schedule);
    Progress(Run(s, n, schedule), n);
  }

  /** In every run, at the start of its round the producer waits exactly while it is as many finished rounds
      ahead as the buffer has places, and the consumer exactly while it is not behind; and a thread waits for
      the mutex exactly while the other is inside. */
  lemma WaitsExactlyWhenItMust(s: State, n: nat, capacity: nat, schedule: seq<Thread>)
    requires Init(s, capacity) && capacity >= 1
    ensures var t := Run(s, n, schedule);
            && (t.p == First && t.made < n ==> (Enabled(t, Producer, n) <==> t.made - t.used < capacity))
            && (t.c == First && t.used < n ==> (Enabled(t, Consumer, n) <==> t.used < t.made))
            && (t.p != First && t.p != Lock ==> Enabled(t, Producer, n))
            && (t.c != First && t.c != Lock ==> Enabled(t, Consumer, n))
            && (t.p == Lock ==> (Enabled(t, Producer, n) <==> t.c !in {Access, Advance, Unlock}))
            && (t.c == Lock ==> (Enabled(t, Consumer, n) <==> t.p !in {Access, Advance, Unlock}))
  {
    RunSound(s, n, capacity, schedule);
    hide Run;
  }
}
