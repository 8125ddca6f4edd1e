/** What the reactor (framework_server.cpp) does for its clients: first come first served, no connection
    closed without a reason, and every request answered once nothing else is going on. */
module ReactorService {

  import opened Options
  import opened ServerConnection
  import opened Reactor
  import opened ReactorOrder
  import opened ReactorRuns

  // ----- first come, first served

  function Completions(jobs: seq<Job>): (r: seq<Completion>)
    ensures |r| == |jobs|
    ensures forall i :: 0 <= i < |jobs| ==> r[i] == Completion(jobs[i].conn, Response(jobs[i].line))
  {
    seq(|jobs|, i requires 0 <= i < |jobs| => Completion(jobs[i].conn, Response(jobs[i].line)))
  }

  /** The jobs waiting are the last ones submitted, and the completions not yet handed out the last ones
      made, both in order. */
  ghost predicate InTurn(s: State) {
    && (exists taken :: s.submitted == taken + s.jobs)
    && (exists handed :: Completions(s.completed) == handed + Local(s) + s.done)
  }

  lemma InTurnStart(s: State, count: nat)
    requires Init(s, count)
    ensures InTurn(s)
  {
    assert s.submitted == [] + s.jobs;
    var none: seq<Completion> := [];
    assert Completions(s.completed) == none + Local(s) + s.done;
  }

  lemma JobsInTurn(s: State, a: Step)
    requires Enabled(s, a) && exists taken :: s.submitted == taken + s.jobs
    ensures exists taken :: Apply(s, a).submitted == taken + Apply(s, a).jobs
  {
    hide Apply;
    QueueStep(s, a);
    var s' := Apply(s, a);
    var taken :| s.submitted == taken + s.jobs;
    if a.Take? {
      assert s'.submitted == (taken + [s.jobs[0]]) + s'.jobs;
    } else if !a.Push? && !QueueSame(s, s') {
      var j :| Submits(s, s', j);
      assert s'.submitted == taken + s'.jobs;
    }
  }

  /** What a step makes of the completions. */
  lemma DoneStep(s: State, a: Step)
    requires Enabled(s, a)
    ensures var s' := Apply(s, a);
            && (a.Push? ==> && s'.completed == s.completed + [s.workers[a.w].job] && Local(s') == Local(s)
                            && s'.done == s.done + Completions([s.workers[a.w].job]))
            && (a.Swap? ==> s'.completed == s.completed && Local(s) == [] && Local(s') == s.done && s'.done == [])
            && (a.Deliver? ==> s'.completed == s.completed && Local(s) != [] && Local(s') == Local(s)[1..]
                               && s'.done == s.done)
            && (!a.Push? && !a.Swap? && !a.Deliver? ==>
                  s'.completed == s.completed && Local(s') == Local(s) && s'.done == s.done)
  {
    hide OnEvent, Response;
  }

  lemma OneMore(jobs: seq<Job>, j: Job)
    ensures Completions(jobs + [j]) == Completions(jobs) + Completions([j])
  {
  }

  lemma DoneInTurn(s: State, a: Step)
    requires Enabled(s, a) && exists handed :: Completions(s.completed) == handed + Local(s) + s.done
    ensures exists handed :: Completions(Apply(s, a).completed) == handed + Local(Apply(s, a)) + Apply(s, a).done
  {
    DoneStep(s, a);
    hide Apply, Enabled, Local, Completions;
    var s' := Apply(s, a);
    var handed :| Completions(s.completed) == handed + Local(s) + s.done;
    if a.Push? {
      OneMore(s.completed, s.workers[a.w].job);
      Associate(handed + Local(s), s.done, Completions([s.workers[a.w].job]));
      assert Completions(s'.completed) == handed + Local(s') + s'.done;
    } else if a.Swap? {
      assert handed + Local(s) + s.done == handed + Local(s') + s'.done;
    } else if a.Deliver? {
      assert handed + Local(s) == (handed + [Local(s)[0]]) + Local(s');
    }
  }

  lemma {:induction false} ExecuteInTurn(s0: State, count: nat, steps: seq<Step>)
    requires Init(s0, count) && Execute(s0, steps).Some?
    ensures InTurn(Execute(s0, steps).value)
    decreases |steps|
  {
    if steps == [] {
      InTurnStart(s0, count);
    } else {
      var t, a := Execute(s0, steps[..|steps| - 1]).value, steps[|steps| - 1];
      ExecuteInTurn(s0, count, steps[..|steps| - 1]);
      JobsInTurn(t, a);
      DoneInTurn(t, a);
      hide Enabled, Apply;
    }
  }

  /** In every run the workers take the jobs in the order of submission, and the loop hands out the
      completions in the order in which they were made. */
  lemma FirstComeFirstServed(s: State, count: nat)
    requires Reachable(s, count)
    ensures exists taken :: s.submitted == taken + s.jobs
    ensures exists handed :: Completions(s.completed) == handed + Local(s) + s.done
  {
    var s0, steps :| Init(s0, count) && Execute(s0, steps) == Some(s);
    ExecuteInTurn(s0, count, steps);
  }

  // ----- who is closed

  /** What a step makes of one connection that is open. */
  ghost predicate Treated(s: State, a: Step, id: nat)
    requires Enabled(s, a) && id in s.peers
  {
    var c, s' := s.peers[id].conn, Apply(s, a);
    && id in s'.peers
    && (s'.peers[id].conn.phase == Closed <==>
          a.Stop? || (a.Client? && s.clients[a.fd] == id && Reason(c, a.io)))
    && (a.Client? && s.clients[a.fd] == id && SubmitsLine(c, a.io) ==>
          && Lines(InputAfter(c, a.io)) != []
          && s'.jobs == s.jobs + [Job(id, Lines(InputAfter(c, a.io))[0])])
    && (a.Deliver? && s.loop.local[0].conn == id ==>
          s'.peers[id].conn == c.(output := s.loop.local[0].response, sent := 0, phase := Writing))
    && (!a.Stop? && !(a.Client? && s.clients[a.fd] == id) && !(a.Deliver? && s.loop.local[0].conn == id) ==>
          s'.peers[id] == s.peers[id])
  }

  lemma TreatedByClient(s: State, a: Step, id: nat)
    requires Enabled(s, a) && a.Client? && Ordered(s) && id in s.peers && s.peers[id].conn.phase != Closed
    ensures Treated(s, a, id)
  {
    ClientIs(s, a.fd);
    var c := s.peers[s.clients[a.fd]].conn;
    SentBound(c);
    EventDecides(c, a.io);
    var (c', job, alive) := OnEvent(c, a.io);
    ClientShape(s, a.fd, a.io, c', job, alive);
    assert Apply(s, a) == ClientStep(s, a.fd, a.io);
    hide Apply, ClientStep, OnEvent, Ordered, Serves, Reason, Lines, InputAfter, SubmitsLine;
  }

  lemma DeliveryIs(s: State)
    requires Enabled(s, Deliver) && Ordered(s)
    ensures s.loop.local[0].conn in s.peers
    ensures var r := s.loop.local[0];
            Apply(s, Deliver).peers == if s.peers[r.conn].conn.phase != Closed
                                       then s.peers[r.conn := Answer(s.peers[r.conn], r.response)] else s.peers
  {
    var r := s.loop.local[0];
    DeliverRequests(s);
    LastIn(s.peers, r);
    LiveIs(s, r.conn);
    assert Apply(s, Deliver) == DeliverStep(s);
    hide Apply, DeliverStep, Ordered, Registered, LastAnswered, RequestsFit, ClientsFit;
  }

  lemma TreatedByDelivery(s: State, id: nat)
    requires Enabled(s, Deliver) && Ordered(s) && id in s.peers && s.peers[id].conn.phase != Closed
    ensures Treated(s, Deliver, id)
  {
    DeliveryIs(s);
    hide Apply, Ordered;
  }

  lemma TreatedByStop(s: State, id: nat)
    requires Enabled(s, Stop) && Ordered(s) && id in s.peers && s.peers[id].conn.phase != Closed
    ensures Treated(s, Stop, id)
  {
    StopShape(s);
    hide Apply, Ordered;
  }

  lemma TreatedByOthers(s: State, a: Step, id: nat)
    requires Enabled(s, a) && !a.Client? && Ordered(s) && id in s.peers && s.peers[id].conn.phase != Closed
    ensures Treated(s, a, id)
  {
    if a.Deliver? {
      TreatedByDelivery(s, id);
    } else if a.Stop? {
      TreatedByStop(s, id);
    } else if a.Accept? {
      hide Ordered;
    } else {
      QueuesKeepFit(s, a);
      hide Apply, Enabled, Ordered;
    }
  }

  /** In a state of a run, a step closes an open connection if and only if it is the stop of the loop or an
      event for it with a reason; and an event with a complete line to look at submits that line. */
  lemma ClosedOnlyForAReason(s: State, count: nat, a: Step, id: nat)
    requires Reachable(s, count) && count >= 1 && Enabled(s, a) && id in s.peers && s.peers[id].conn.phase != Closed
    ensures Treated(s, a, id)
  {
    ReachableSound(s, count);
    hide Enabled, Apply, InFlight, Serves;
    if a.Client? {
      TreatedByClient(s, a, id);
    } else {
      TreatedByOthers(s, a, id);
    }
  }

  /** Step `k` of the run closes connection `id`, by the stop of the loop or an event with a reason. */
  ghost predicate ClosedAt(s0: State, steps: seq<Step>, id: nat, k: nat) {
    k < |steps| && Execute(s0, steps[..k]).Some?
    && var t, a := Execute(s0, steps[..k]).value, steps[k];
    && Enabled(t, a) && id in t.peers && t.peers[id].conn.phase != Closed
    && (a.Stop? || (a.Client? && t.clients[a.fd] == id && Reason(t.peers[id].conn, a.io)))
  }

  lemma NotClosedYet(s: State, a: Step, id: nat)
    requires Enabled(s, a) && id in Apply(s, a).peers && id !in s.peers
    ensures Apply(s, a).peers[id].conn.phase != Closed
  {
    hide OnEvent;
  }

  lemma ClosedEarlier(s0: State, before: seq<Step>, steps: seq<Step>, id: nat, k: nat)
    requires before <= steps && ClosedAt(s0, before, id, k)
    ensures ClosedAt(s0, steps, id, k)
  {
    assert steps[..k] == before[..k] && steps[k] == before[k];
    hide Enabled, Execute, Reason;
  }

  lemma ClosedNow(s0: State, count: nat, steps: seq<Step>, id: nat, t: State)
    requires Init(s0, count) && count >= 1 && steps != [] && Execute(s0, steps[..|steps| - 1]) == Some(t)
    requires Enabled(t, steps[|steps| - 1]) && id in Apply(t, steps[|steps| - 1]).peers
    requires Apply(t, steps[|steps| - 1]).peers[id].conn.phase == Closed
    requires id in t.peers ==> t.peers[id].conn.phase != Closed
    ensures ClosedAt(s0, steps, id, |steps| - 1)
  {
    assert Reachable(t, count);
    hide Enabled, Apply, Reachable, Init, Execute;
    if id !in t.peers {
      NotClosedYet(t, steps[|steps| - 1], id);
    }
    ClosedOnlyForAReason(t, count, steps[|steps| - 1], id);
  }

  lemma NoneClosedYet(s0: State, count: nat, steps: seq<Step>)
    requires Init(s0, count) && Execute(s0, steps).Some? && Execute(s0, steps).value.peers != map[]
    ensures steps != []
  {
  }

  /** In every run, a connection that is closed was closed at some step for one of these reasons. */
  lemma {:induction false} ClosedForAReason(s0: State, count: nat, steps: seq<Step>, id: nat)
    requires Init(s0, count) && count >= 1 && Execute(s0, steps).Some?
    requires id in Execute(s0, steps).value.peers && Execute(s0, steps).value.peers[id].conn.phase == Closed
    ensures exists k :: ClosedAt(s0, steps, id, k)
    decreases |steps|
  {
    NoneClosedYet(s0, count, steps);
    var before := steps[..|steps| - 1];
    var t := Execute(s0, before).value;
    hide Init, Enabled, Apply, ClosedAt;
    if id in t.peers && t.peers[id].conn.phase == Closed {
      ClosedForAReason(s0, count, before, id);
      var k: nat :| ClosedAt(s0, before, id, k);
      ClosedEarlier(s0, before, steps, id, k);
    } else {
      ClosedNow(s0, count, steps, id, t);
    }
  }

  /** In every run a loop in epoll_wait takes any new socket, any event for a registered one, a stop, and
      the eventfd once it counts; and past the loop the destructor goes on to its join. */
  lemma LoopTakesWhatComes(s: State, count: nat)
    requires Reachable(s, count) && count >= 1
    ensures s.loop == Waiting ==>
              && (forall id, fd {:trigger Accept(id, fd)} :: id !in s.peers && fd !in s.clients ==> Enabled(s, Accept(id, fd)))
              && (forall fd, io {:trigger Client(fd, io)} :: fd in s.clients ==> Enabled(s, Client(fd, io)))
              && Enabled(s, Stop) && (s.event > 0 ==> Enabled(s, Notified))
    ensures s.loop == Ended ==> Enabled(s, SetStopping) && Apply(s, SetStopping).loop == StopSet
    ensures s.loop == StopSet ==> Enabled(s, NotifyAll) && Apply(s, NotifyAll).loop == Joining
  {
    if s.loop == Waiting {
      forall fd, io {:trigger Client(fd, io)} | fd in s.clients
        ensures Enabled(s, Client(fd, io))
      {
        EventsAreServed(s, count, fd, io);
      }
    }
    hide Reachable, OnEvent;
  }

  // ----- every request is answered

  /** Steps of the loop and the workers on what they have: nothing from outside, and no worker woken
      without a notification. */
  predicate Inner(a: Step) {
    || a.Take? || a.Sleep? || a.Push? || a.Write?
    || a.Notify? || a.Notified? || a.DrainRead? || a.DrainEnd? || a.Swap? || a.Deliver? || a.DeliverEnd?
  }

  function Cost(x: Worker): nat {
    match x case Busy(_) => 9 case Pushed => 7 case Ready => 1 case Asleep => 0 case Exited => 0
  }

  ghost function Load(ws: seq<Worker>): nat {
    if ws == [] then 0 else Load(ws[1..]) + Cost(ws[0])
  }

  lemma {:induction false} LoadUpdate(ws: seq<Worker>, w: nat, x: Worker)
    requires w < |ws|
    ensures Load(ws[w := x]) + Cost(ws[w]) == Load(ws) + Cost(x)
  {
    if w == 0 {
      assert ws[w := x][1..] == ws[1..];
    } else {
      LoadUpdate(ws[1..], w - 1, x);
      assert ws[w := x][1..] == ws[1..][w - 1 := x];
    }
  }

  /** How far the loop is from waiting with nothing announced. */
  function LoopCost(s: State): nat {
    (match s.loop
     case Notifying => 2
     case Draining => 3
     case Swapping => 2
     case Delivering(local) => |local| + 1
     case _ => 0)
    + |s.done| + if s.event == 0 then 0 else if s.loop == Draining then 1 else 5
  }

  /** The work still to be done. */
  ghost function Work(s: State): nat {
    9 * |s.jobs| + Load(s.workers) + LoopCost(s)
  }

  lemma WorkLess(s: State, a: Step)
    requires Enabled(s, a) && Inner(a)
    ensures Work(Apply(s, a)) < Work(s)
  {
    hide OnEvent, Load, Response;
    var s' := Apply(s, a);
    if a.Take? || a.Sleep? || a.Push? || a.Write? {
      LoadUpdate(s.workers, a.w, s'.workers[a.w]);
    } else if a.Notify? && a.woken.Some? {
      LoadUpdate(s.workers, a.woken.value, Ready);
    }
  }

  /** Nothing to do: every worker sleeps, the loop waits, and nothing is queued or announced. */
  predicate Quiet(s: State) {
    && s.loop == Waiting && s.event == 0 && s.jobs == [] && s.done == []
    && forall w :: 0 <= w < |s.workers| ==> s.workers[w] == Asleep
  }

  predicate Running(s: State) {
    s.loop != Ended && s.loop != StopSet && s.loop != Joining
  }

  lemma LoopGoesOn(s: State)
    requires Running(s) && (s.loop != Waiting || s.event > 0)
    ensures exists a :: Inner(a) && Enabled(s, a)
  {
    var a := if s.loop == Waiting then Notified
             else if s.loop == Draining then (if s.event > 0 then DrainRead else DrainEnd)
             else if s.loop == Swapping then Swap
             else if s.loop.Delivering? then (if s.loop.local == [] then DeliverEnd else Deliver)
             else Notify(None);
    if s.loop == Notifying && SomeoneAsleep(s) {
      var w :| 0 <= w < |s.workers| && s.workers[w] == Asleep;
      assert Inner(Notify(Some(w))) && Enabled(s, Notify(Some(w)));
    } else {
      assert Inner(a) && Enabled(s, a);
    }
  }

  lemma WorkerGoesOn(s: State, w: nat)
    requires PoolSound(s) && Running(s) && w < |s.workers| && s.workers[w] != Asleep
    ensures exists a :: Inner(a) && Enabled(s, a)
  {
    var a := if s.workers[w].Busy? then Push(w) else if s.workers[w] == Pushed then Write(w)
             else if s.jobs == [] then Sleep(w) else Take(w);
    assert s.workers[w] != Exited && !s.stopping;
    assert Inner(a) && Enabled(s, a);
  }

  lemma QuietMeansAnswered(s: State)
    requires Ordered(s) && Quiet(s)
    ensures forall id :: id in s.peers ==> s.peers[id].conn.phase != Processing
  {
    GatherIdle(s.workers, ConnOf);
    assert JobIds(s.jobs) == [] && DoneIds(s.done) == [] && DoneIds(Local(s)) == [];
    assert InFlight(s) == multiset{};
    hide InFlight, Serves;
  }

  /** In every run, left alone the loop and the workers come to rest after finitely many steps of any
      order, and then no connection is waiting for its answer. */
  lemma EveryRequestIsAnswered(s: State, count: nat)
    requires Reachable(s, count) && count >= 1 && Running(s)
    ensures (exists a :: Inner(a) && Enabled(s, a)) || Quiet(s)
    ensures forall a :: Inner(a) && Enabled(s, a) ==> Work(Apply(s, a)) < Work(s)
    ensures Quiet(s) ==> forall id :: id in s.peers ==> s.peers[id].conn.phase != Processing
  {
    ReachableSound(s, count);
    forall a | Inner(a) && Enabled(s, a)
      ensures Work(Apply(s, a)) < Work(s)
    {
      WorkLess(s, a);
    }
    hide Enabled, Apply, Work, Ordered;
    if s.loop != Waiting || s.event > 0 {
      LoopGoesOn(s);
    } else if w :| 0 <= w < |s.workers| && s.workers[w] != Asleep {
      WorkerGoesOn(s, w);
    } else {
      assert !SomeoneUp(s) && !SomeonePushed(s);
      QuietMeansAnswered(s);
    }
  }
}
