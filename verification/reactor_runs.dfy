/** What holds in every run of the reactor (framework_server.cpp), with any number of workers and any
    interleaving. */
module ReactorRuns {

  import opened Options
  import opened ServerConnection
  import opened Reactor
  import opened ReactorOrder

  /** The state a run of steps leads to, if each is enabled in its turn. */
  ghost function Execute(s: State, steps: seq<Step>): Option<State>
    decreases |steps|
  {
    if steps == [] then Some(s)
    else match Execute(s, steps[..|steps| - 1])
         case None => None
         case Some(t) => if Enabled(t, steps[|steps| - 1]) then Some(Apply(t, steps[|steps| - 1])) else None
  }

  ghost predicate Reachable(s: State, count: nat) {
    exists s0, steps :: Init(s0, count) && Execute(s0, steps) == Some(s)
  }

  ghost predicate Sound(s: State) {
    Announced(s) && PoolSound(s) && Conserved(s) && Ordered(s)
  }

  lemma InitSound(s: State, count: nat)
    requires Init(s, count) && count >= 1
    ensures Sound(s)
  {
    GatherIdle(s.workers, Itself);
    GatherIdle(s.workers, ConnOf);
    assert Up(s.workers[0]);
    assert JobIds(s.jobs) == [] && DoneIds(s.done) == [] && DoneIds(Local(s)) == [];
  }

  lemma {:induction false} ExecuteSound(s0: State, count: nat, steps: seq<Step>)
    requires Init(s0, count) && count >= 1 && Execute(s0, steps).Some?
    ensures Sound(Execute(s0, steps).value)
    decreases |steps|
  {
    if steps == [] {
      InitSound(s0, count);
    } else {
      var t, a := Execute(s0, steps[..|steps| - 1]).value, steps[|steps| - 1];
      ExecuteSound(s0, count, steps[..|steps| - 1]);
      AnnouncedKept(t, a);
      PoolSoundKept(t, a);
      ConservedKept(t, a);
      OrderedKept(t, a);
      hide Announced, PoolSound, Conserved, Ordered, Enabled, Apply;
    }
  }

  lemma ReachableSound(s: State, count: nat)
    requires Reachable(s, count) && count >= 1
    ensures Sound(s)
  {
    var s0, steps :| Init(s0, count) && Execute(s0, steps) == Some(s);
    ExecuteSound(s0, count, steps);
  }

  /** No completion is stranded: whenever one waits, the eventfd counts, or a worker is about to write
      it, or the loop is between reading the eventfd and taking the queue.  So once the workers are
      between jobs, a loop back in epoll_wait is woken. */
  lemma NoStrandedCompletion(s: State, count: nat)
    requires Reachable(s, count) && count >= 1 && s.done != []
    ensures s.event > 0 || SomeonePushed(s) || s.loop in {Draining, Swapping}
    ensures s.loop == Waiting && !SomeonePushed(s) ==> Enabled(s, Notified)
  {
    ReachableSound(s, count);
  }

  /** No job is stranded: whenever one waits, the loop is about to notify, or some worker is awake and
      will look at the queue again. */
  lemma NoStrandedJob(s: State, count: nat)
    requires Reachable(s, count) && count >= 1 && s.jobs != []
    ensures s.loop == Notifying || SomeoneUp(s)
  {
    ReachableSound(s, count);
  }

  /** One request in flight per connection at most, exactly one while it is processing. */
  lemma OneRequestInFlight(s: State, count: nat, id: nat)
    requires Reachable(s, count) && count >= 1 && id in s.peers
    ensures InFlight(s)[id] <= 1
    ensures s.peers[id].conn.phase == Processing ==> InFlight(s)[id] == 1
    ensures s.peers[id].conn.phase in {Reading, Writing} ==> InFlight(s)[id] == 0
  {
    ReachableSound(s, count);
    hide InFlight;
  }

  /** What was sent to a connection is a prefix of the responses to its received lines, in order. */
  lemma SentInOrder(s: State, count: nat, id: nat)
    requires Reachable(s, count) && count >= 1 && id in s.peers
    ensures s.peers[id].conn.delivered <= Responses(Lines(Received(s.peers[id].conn)))
  {
    ReachableSound(s, count);
    assert Serves(s.peers[id].conn);
    AnswersInOrder(s.peers[id].conn);
  }

  /** When the pool's destructor has joined, every submitted job has been completed exactly once; until
      then some worker can step, and no run of worker steps goes on for ever. */
  lemma DestructorDrains(s: State, count: nat)
    requires Reachable(s, count) && count >= 1 && s.loop == Joining
    ensures Joined(s) ==> s.jobs == [] && multiset(s.completed) == multiset(s.submitted)
    ensures !Joined(s) ==> exists a :: WorkerStep(a) && Enabled(s, a)
    ensures forall a :: WorkerStep(a) && Enabled(s, a) ==> ToGo(Apply(s, a)) < ToGo(s)
  {
    ReachableSound(s, count);
    JoinProgresses(s);
    if Joined(s) {
      JoinedIsDrained(s);
    }
    hide Enabled, Apply, ToGo, Ordered, PoolSound;
  }

  /** The event loop never meets a connection object it cannot serve. */
  lemma EventsAreServed(s: State, count: nat, fd: int, io: Io)
    requires Reachable(s, count) && count >= 1 && s.loop == Waiting && fd in s.clients
    ensures Enabled(s, Client(fd, io))
  {
    ReachableSound(s, count);
    ClientIs(s, fd);
    SentBound(s.peers[s.clients[fd]].conn);
    hide Serves, InFlight;
  }
}
