/** The event loop and the thread pool of framework_server.cpp as a step system: one loop, any number
    of workers, the job queue, the done queue and the eventfd, interleaved in any way. */
module Reactor {

  import opened Options
  import opened ServerConnection

  datatype Job = Job(conn: nat, line: string)

  datatype Completion = Completion(conn: nat, response: string)

  /** A connection object and its socket. */
  datatype Peer = Peer(fd: int, conn: Conn)

  /** A worker: about to test the wait condition, blocked in the wait, holding a job, between its push
      and its write, or returned. */
  datatype Worker = Ready | Asleep | Busy(job: Job) | Pushed | Exited

  /** The loop: in epoll_wait, between a submission and its notify_one, reading the eventfd, between
      the last read and the swap, handing out what it swapped; then past the loop, in the pool's
      destructor between setting the flag and notify_all, and joining. */
  datatype Loop = Waiting | Notifying | Draining | Swapping | Delivering(local: seq<Completion>)
                | Ended | StopSet | Joining

  /** The shared state, the connections, and the history of jobs submitted and jobs completed. */
  datatype State = State(peers: map<nat, Peer>, clients: map<int, nat>, loop: Loop, workers: seq<Worker>,
                         jobs: seq<Job>, done: seq<Completion>, event: nat, stopping: bool,
                         submitted: seq<Job>, completed: seq<Job>)

  datatype Step =
    | Accept(id: nat, fd: int) | Client(fd: int, io: Io) | Notify(woken: Option<nat>)
    | Notified | DrainRead | DrainEnd | Swap | Deliver | DeliverEnd
    | Stop | SetStopping | NotifyAll
    | Take(w: nat) | Sleep(w: nat) | Wake(w: nat) | Exit(w: nat) | Push(w: nat) | Write(w: nat)

  ghost predicate Init(s: State, count: nat) {
    && s.peers == map[] && s.clients == map[] && s.loop == Waiting && |s.workers| == count
    && (forall w :: 0 <= w < count ==> s.workers[w] == Ready)
    && s.jobs == [] && s.done == [] && s.event == 0 && !s.stopping && s.submitted == [] && s.completed == []
  }

  predicate At(s: State, w: nat, x: Worker) {
    w < |s.workers| && s.workers[w] == x
  }

  predicate SomeoneAsleep(s: State) {
    exists w :: 0 <= w < |s.workers| && s.workers[w] == Asleep
  }

  /** Is this connection the one its socket stands for? */
  predicate Registered(s: State, id: nat) {
    id in s.peers && s.peers[id].fd in s.clients && s.clients[s.peers[id].fd] == id
  }

  predicate Enabled(s: State, a: Step) {
    match a
    case Accept(id, fd) => s.loop == Waiting && id !in s.peers && fd !in s.clients
    case Client(fd, io) =>
      s.loop == Waiting && fd in s.clients && s.clients[fd] in s.peers
      && var c := s.peers[s.clients[fd]].conn; c.sent <= |c.output|
    case Notify(woken) =>
      s.loop == Notifying
      && (match woken case Some(w) => At(s, w, Asleep) case None => !SomeoneAsleep(s))
    case Notified => s.loop == Waiting && s.event > 0
    case DrainRead => s.loop == Draining && s.event > 0
    case DrainEnd => s.loop == Draining && s.event == 0
    case Swap => s.loop == Swapping
    case Deliver => s.loop.Delivering? && s.loop.local != []
    case DeliverEnd => s.loop == Delivering([])
    case Stop => s.loop == Waiting
    case SetStopping => s.loop == Ended
    case NotifyAll => s.loop == StopSet
    case Take(w) => At(s, w, Ready) && s.jobs != []
    case Sleep(w) => At(s, w, Ready) && s.jobs == [] && !s.stopping
    case Wake(w) => At(s, w, Asleep)
    case Exit(w) => At(s, w, Ready) && s.jobs == [] && s.stopping
    case Push(w) => w < |s.workers| && s.workers[w].Busy?
    case Write(w) => At(s, w, Pushed)
  }

  function Become(s: State, w: nat, x: Worker): State
    requires w < |s.workers|
  {
    s.(workers := s.workers[w := x])
  }

  function Closing(p: Peer): Peer {
    p.(conn := p.conn.(phase := Closed))
  }

  /** The client branch, with the submission inside it. */
  function ClientStep(s: State, fd: int, io: Io): State
    requires Enabled(s, Client(fd, io))
  {
    var id := s.clients[fd];
    var (c, job, alive) := OnEvent(s.peers[id].conn, io);
    var s1 := s.(peers := s.peers[id := Peer(s.peers[id].fd, c)], clients := if alive then s.clients else s.clients - {fd});
    match job
    case None => s1
    case Some(line) =>
      s1.(jobs := s.jobs + [Job(id, line)], submitted := s.submitted + [Job(id, line)], loop := Notifying)
  }

  /** One completion handed to its connection, unless that has gone. */
  function DeliverStep(s: State): State
    requires Enabled(s, Deliver)
  {
    var r := s.loop.local[0];
    var s1 := s.(loop := Delivering(s.loop.local[1..]));
    if Registered(s, r.conn) && s.peers[r.conn].conn.phase != Closed then
      var p := s.peers[r.conn];
      s1.(peers := s.peers[r.conn := p.(conn := p.conn.(output := r.response, sent := 0, phase := Writing))])
    else s1
  }

  function Apply(s: State, a: Step): State
    requires Enabled(s, a)
  {
    match a
    case Accept(id, fd) => s.(peers := s.peers[id := Peer(fd, ACCEPTED)], clients := s.clients[fd := id])
    case Client(fd, io) => ClientStep(s, fd, io)
    case Notify(woken) =>
      var s1 := s.(loop := Waiting);
      (match woken case Some(w) => Become(s1, w, Ready) case None => s1)
    case Notified => s.(loop := Draining)
    case DrainRead => s.(event := 0)
    case DrainEnd => s.(loop := Swapping)
    case Swap => s.(loop := Delivering(s.done), done := [])
    case Deliver => DeliverStep(s)
    case DeliverEnd => s.(loop := Waiting)
    case Stop =>
      s.(loop := Ended, clients := map[],
         peers := map id | id in s.peers :: if Registered(s, id) then Closing(s.peers[id]) else s.peers[id])
    case SetStopping => s.(loop := StopSet, stopping := true)
    case NotifyAll =>
      s.(loop := Joining, workers := seq(|s.workers|, w requires 0 <= w < |s.workers| =>
                                           if s.workers[w] == Asleep then Ready else s.workers[w]))
    case Take(w) => Become(s.(jobs := s.jobs[1..]), w, Busy(s.jobs[0]))
    case Sleep(w) => Become(s, w, Asleep)
    case Wake(w) => Become(s, w, Ready)
    case Exit(w) => Become(s, w, Exited)
    case Push(w) =>
      var j := s.workers[w].job;
      Become(s.(done := s.done + [Completion(j.conn, Response(j.line))], completed := s.completed + [j]), w, Pushed)
    case Write(w) => Become(s.(event := s.event + 1), w, Ready)
  }

  // ----- no completion is stranded

  predicate SomeonePushed(s: State) {
    exists w :: 0 <= w < |s.workers| && s.workers[w] == Pushed
  }

  /** A waiting completion is announced, or about to be, or the loop is on its way to fetch it. */
  ghost predicate Announced(s: State) {
    s.done != [] ==> s.event > 0 || SomeonePushed(s) || s.loop in {Draining, Swapping}
  }

  lemma AnnouncedKept(s: State, a: Step)
    requires Announced(s) && Enabled(s, a)
    ensures Announced(Apply(s, a))
  {
    hide OnEvent;
    var s' := Apply(s, a);
    if SomeonePushed(s) {
      var w :| 0 <= w < |s.workers| && s.workers[w] == Pushed;
      assert |s'.workers| == |s.workers|;
      if s'.workers[w] == Pushed {
        assert SomeonePushed(s');
      }
    }
    if a.Push? {
      assert s'.workers[a.w] == Pushed;
    }
  }

  // ----- the pool: no job is stranded, and the destructor's join is reached

  predicate Up(x: Worker) {
    x != Asleep && x != Exited
  }

  predicate SomeoneUp(s: State) {
    exists w :: 0 <= w < |s.workers| && Up(s.workers[w])
  }

  ghost predicate PoolSound(s: State) {
    && s.workers != []
    && (s.jobs != [] ==> s.loop == Notifying || SomeoneUp(s))
    && (s.stopping <==> s.loop in {StopSet, Joining})
    && (forall w :: 0 <= w < |s.workers| && s.workers[w] == Exited ==> s.stopping && s.jobs == [])
    && (s.loop == Joining ==> !SomeoneAsleep(s))
  }

  lemma UpKept(s: State, a: Step, w: nat)
    requires Enabled(s, a) && w < |s.workers|
    ensures |Apply(s, a).workers| == |s.workers|
    ensures Up(s.workers[w]) && !Up(Apply(s, a).workers[w]) ==> s.jobs == [] && (a == Sleep(w) || a == Exit(w))
  {
    hide OnEvent;
  }

  lemma PoolSoundByWorker(s: State, a: Step)
    requires PoolSound(s) && Enabled(s, a) && WorkerStep(a)
    ensures PoolSound(Apply(s, a))
  {
    var s' := Apply(s, a);
    if !a.Sleep? && !a.Exit? {
      assert Up(s'.workers[a.w]);
    }
  }

  lemma PoolSoundByLoop(s: State, a: Step)
    requires PoolSound(s) && Enabled(s, a) && !WorkerStep(a)
    ensures PoolSound(Apply(s, a))
  {
    hide OnEvent;
    var s' := Apply(s, a);
    if SomeoneUp(s) {
      var w :| 0 <= w < |s.workers| && Up(s.workers[w]);
      UpKept(s, a, w);
      assert Up(s'.workers[w]);
    }
    if a.Notify? {
      var w := if a.woken.Some? then a.woken.value else 0;
      assert s.workers[w] != Exited;
      assert Up(s'.workers[w]);
    }
  }

  lemma PoolSoundKept(s: State, a: Step)
    requires PoolSound(s) && Enabled(s, a)
    ensures PoolSound(Apply(s, a))
  {
    hide *;
    if WorkerStep(a) {
      PoolSoundByWorker(s, a);
    } else {
      PoolSoundByLoop(s, a);
    }
  }

  // ----- every job is in one place until it is completed

  /** What the workers hold, each job seen through `f`. */
  ghost function Gather<T>(ws: seq<Worker>, f: Job -> T): multiset<T> {
    if ws == [] then multiset{}
    else Gather(ws[1..], f) + if ws[0].Busy? then multiset{f(ws[0].job)} else multiset{}
  }

  lemma {:induction false} GatherUpdate<T>(ws: seq<Worker>, f: Job -> T, w: nat, x: Worker)
    requires w < |ws|
    ensures Gather(ws[w := x], f) + (if ws[w].Busy? then multiset{f(ws[w].job)} else multiset{})
         == Gather(ws, f) + if x.Busy? then multiset{f(x.job)} else multiset{}
  {
    if w == 0 {
      assert ws[w := x][1..] == ws[1..];
    } else {
      GatherUpdate(ws[1..], f, w - 1, x);
      assert ws[w := x][1..] == ws[1..][w - 1 := x];
    }
  }

  lemma {:induction false} GatherIdle<T>(ws: seq<Worker>, f: Job -> T)
    requires forall w :: 0 <= w < |ws| ==> !ws[w].Busy?
    ensures Gather(ws, f) == multiset{}
  {
    if ws != [] {
      GatherIdle(ws[1..], f);
    }
  }

  lemma {:induction false} GatherWoken<T>(ws: seq<Worker>, ws': seq<Worker>, f: Job -> T)
    requires |ws'| == |ws|
    requires forall w :: 0 <= w < |ws| ==> ws'[w] == if ws[w] == Asleep then Ready else ws[w]
    ensures Gather(ws', f) == Gather(ws, f)
  {
    if ws != [] {
      GatherWoken(ws[1..], ws'[1..], f);
    }
  }

  function Itself(j: Job): Job {
    j
  }

  ghost predicate Conserved(s: State) {
    multiset(s.submitted) == multiset(s.jobs) + Gather(s.workers, Itself) + multiset(s.completed)
  }

  lemma GatherSame<T>(ws: seq<Worker>, f: Job -> T, w: nat, x: Worker)
    requires w < |ws| && !ws[w].Busy? && !x.Busy?
    ensures Gather(ws[w := x], f) == Gather(ws, f)
  {
    GatherUpdate(ws, f, w, x);
    var g, g' := Gather(ws, f), Gather(ws[w := x], f);
    assert g == g + multiset{} && g' == g' + multiset{};
  }

  /** What one step makes of the jobs the workers hold. */
  lemma GatherStep<T>(s: State, a: Step, f: Job -> T)
    requires Enabled(s, a)
    ensures a.Take? ==> Gather(Apply(s, a).workers, f) == Gather(s.workers, f) + multiset{f(s.jobs[0])}
    ensures a.Push? ==> Gather(Apply(s, a).workers, f) + multiset{f(s.workers[a.w].job)} == Gather(s.workers, f)
    ensures !a.Take? && !a.Push? ==> Gather(Apply(s, a).workers, f) == Gather(s.workers, f)
  {
    hide OnEvent, Gather;
    var s' := Apply(s, a);
    match a
    case Notify(woken) =>
      if woken.Some? {
        GatherSame(s.workers, f, woken.value, Ready);
      }
    case NotifyAll => GatherWoken(s.workers, s'.workers, f);
    case Take(w) => GatherUpdate(s.workers, f, w, Busy(s.jobs[0]));
    case Sleep(w) => GatherSame(s.workers, f, w, Asleep);
    case Wake(w) => GatherSame(s.workers, f, w, Ready);
    case Exit(w) => GatherSame(s.workers, f, w, Exited);
    case Push(w) => GatherUpdate(s.workers, f, w, Pushed);
    case Write(w) => GatherSame(s.workers, f, w, Ready);
    case _ =>
  }

  ghost predicate Submits(s: State, s': State, j: Job) {
    s'.jobs == s.jobs + [j] && s'.submitted == s.submitted + [j] && s'.completed == s.completed
  }

  ghost predicate QueueSame(s: State, s': State) {
    s'.jobs == s.jobs && s'.submitted == s.submitted && s'.completed == s.completed
  }

  /** What one step makes of the queue and the history. */
  lemma QueueStep(s: State, a: Step)
    requires Enabled(s, a)
    ensures a.Take? ==>
              var s' := Apply(s, a);
              s'.jobs == s.jobs[1..] && s'.submitted == s.submitted && s'.completed == s.completed
    ensures a.Push? ==>
              var s' := Apply(s, a);
              && s'.jobs == s.jobs && s'.submitted == s.submitted
              && s'.completed == s.completed + [s.workers[a.w].job]
    ensures !a.Take? && !a.Push? ==> QueueSame(s, Apply(s, a)) || exists j :: Submits(s, Apply(s, a), j)
  {
    hide OnEvent;
    if a.Client? {
      var (c, job, alive) := OnEvent(s.peers[s.clients[a.fd]].conn, a.io);
      if job.Some? {
        assert Submits(s, Apply(s, a), Job(s.clients[a.fd], job.value));
      }
    }
  }

  lemma ConservedKept(s: State, a: Step)
    requires Conserved(s) && Enabled(s, a)
    ensures Conserved(Apply(s, a))
  {
    hide Apply, Gather, OnEvent;
    GatherStep(s, a, Itself);
    QueueStep(s, a);
    var s' := Apply(s, a);
    if a.Take? {
      assert s.jobs == [s.jobs[0]] + s.jobs[1..];
      assert multiset(s.jobs) == multiset{s.jobs[0]} + multiset(s'.jobs);
    } else if a.Push? {
      assert multiset(s'.completed) == multiset(s.completed) + multiset{s.workers[a.w].job};
    } else if !QueueSame(s, s') {
      var j :| Submits(s, s', j);
      assert multiset(s'.jobs) == multiset(s.jobs) + multiset{j};
      assert multiset(s'.submitted) == multiset(s.submitted) + multiset{j};
    }
  }

  ghost predicate Joined(s: State) {
    forall w :: 0 <= w < |s.workers| ==> s.workers[w] == Exited
  }

  /** When the destructor has joined every worker, every submitted job has produced exactly one
      completion. */
  lemma JoinedIsDrained(s: State)
    requires PoolSound(s) && Conserved(s) && Joined(s)
    ensures s.jobs == [] && multiset(s.completed) == multiset(s.submitted)
  {
    assert s.workers[0] == Exited;
    GatherIdle(s.workers, Itself);
  }

  /** Work left once the pool is stopping. */
  ghost function Left(ws: seq<Worker>): nat {
    if ws == [] then 0
    else Left(ws[1..]) + match ws[0] case Busy(_) => 3 case Pushed => 2 case Ready => 1 case Asleep => 2 case Exited => 0
  }

  lemma {:induction false} LeftUpdate(ws: seq<Worker>, w: nat, x: Worker)
    requires w < |ws|
    ensures Left(ws[w := x]) + Left([ws[w]]) == Left(ws) + Left([x])
  {
    if w == 0 {
      assert ws[w := x][1..] == ws[1..];
    } else {
      LeftUpdate(ws[1..], w - 1, x);
      assert ws[w := x][1..] == ws[1..][w - 1 := x];
    }
  }

  ghost function ToGo(s: State): nat {
    3 * |s.jobs| + Left(s.workers)
  }

  predicate WorkerStep(a: Step) {
    a.Take? || a.Sleep? || a.Wake? || a.Exit? || a.Push? || a.Write?
  }

  /** While joining, a worker that has not returned can step, and every step any worker can take
      brings the join closer. */
  lemma JoinProgresses(s: State)
    requires PoolSound(s) && s.loop == Joining
    ensures !Joined(s) ==> exists a :: WorkerStep(a) && Enabled(s, a)
    ensures forall a :: WorkerStep(a) && Enabled(s, a) ==> ToGo(Apply(s, a)) < ToGo(s)
  {
    hide OnEvent, Left;
    if !Joined(s) {
      var w :| 0 <= w < |s.workers| && s.workers[w] != Exited;
      assert s.workers[w] != Asleep;
      var a := if s.workers[w].Busy? then Push(w) else if s.workers[w] == Pushed then Write(w)
               else if s.jobs == [] then Exit(w) else Take(w);
      assert WorkerStep(a) && Enabled(s, a);
    }
    forall a | WorkerStep(a) && Enabled(s, a)
      ensures ToGo(Apply(s, a)) < ToGo(s)
    {
      LeftUpdate(s.workers, a.w, Apply(s, a).workers[a.w]);
      LeftOne(s.workers[a.w]);
      LeftOne(Apply(s, a).workers[a.w]);
    }
  }

  lemma LeftOne(x: Worker)
    ensures Left([x]) == match x case Busy(_) => 3 case Pushed => 2 case Ready => 1 case Asleep => 2 case Exited => 0
  {
    assert [x][1..] == [];
  }
}
