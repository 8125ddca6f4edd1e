/** What the reactor (framework_server.cpp) promises each connection: one request in flight at most,
    exactly one while processing, and answers in the order of the received lines. */
module ReactorOrder {

  import opened Options
  import opened ServerConnection
  import opened Reactor

  function ConnOf(j: Job): nat {
    j.conn
  }

  function JobIds(jobs: seq<Job>): (ids: seq<nat>)
    ensures |ids| == |jobs| && forall i :: 0 <= i < |jobs| ==> ids[i] == jobs[i].conn
  {
    seq(|jobs|, i requires 0 <= i < |jobs| => jobs[i].conn)
  }

  function DoneIds(done: seq<Completion>): (ids: seq<nat>)
    ensures |ids| == |done| && forall i :: 0 <= i < |done| ==> ids[i] == done[i].conn
  {
    seq(|done|, i requires 0 <= i < |done| => done[i].conn)
  }

  function Local(s: State): seq<Completion> {
    if s.loop.Delivering? then s.loop.local else []
  }

  /** The connections with a request in the job queue, at a worker, in the done queue, or in the
      loop's local queue, as often as they have one. */
  ghost function InFlight(s: State): multiset<nat> {
    multiset(JobIds(s.jobs)) + Gather(s.workers, ConnOf) + multiset(DoneIds(s.done)) + multiset(DoneIds(Local(s)))
  }

  // ----- what one step does to the requests in flight

  lemma FlightClient(s: State, fd: int, io: Io)
    requires Enabled(s, Client(fd, io))
    ensures var id, job := s.clients[fd], OnEvent(s.peers[s.clients[fd]].conn, io).1;
            InFlight(ClientStep(s, fd, io)) == InFlight(s) + if job.Some? then multiset{id} else multiset{}
  {
    hide OnEvent, Gather;
    var id, job := s.clients[fd], OnEvent(s.peers[s.clients[fd]].conn, io).1;
    if job.Some? {
      assert JobIds(ClientStep(s, fd, io).jobs) == JobIds(s.jobs) + [id];
    }
  }

  lemma DeliverQueues(s: State)
    requires Enabled(s, Deliver)
    ensures var s' := DeliverStep(s);
            s'.jobs == s.jobs && s'.workers == s.workers && s'.done == s.done && Local(s') == Local(s)[1..]
  {
  }

  lemma FlightDeliver(s: State)
    requires Enabled(s, Deliver)
    ensures InFlight(DeliverStep(s)) + multiset{s.loop.local[0].conn} == InFlight(s)
  {
    hide Gather, DeliverStep;
    DeliverQueues(s);
    var local := Local(s);
    assert DoneIds(local) == [local[0].conn] + DoneIds(local[1..]);
    assert multiset(DoneIds(local)) == multiset{local[0].conn} + multiset(DoneIds(local[1..]));
  }

  lemma FlightTake(s: State, w: nat)
    requires Enabled(s, Take(w))
    ensures InFlight(Apply(s, Take(w))) == InFlight(s)
  {
    hide Gather, Response, OnEvent, Registered;
    GatherStep(s, Take(w), ConnOf);
    assert JobIds(s.jobs) == [s.jobs[0].conn] + JobIds(Apply(s, Take(w)).jobs);
  }

  lemma FlightPush(s: State, w: nat)
    requires Enabled(s, Push(w))
    ensures InFlight(Apply(s, Push(w))) == InFlight(s)
  {
    hide Gather, Response, OnEvent, Registered;
    GatherStep(s, Push(w), ConnOf);
    assert DoneIds(Apply(s, Push(w)).done) == DoneIds(s.done) + [s.workers[w].job.conn];
  }

  /** Only a submission and a delivery change what is in flight. */
  lemma FlightKept(s: State, a: Step)
    requires Enabled(s, a) && !a.Client? && !a.Deliver?
    ensures InFlight(Apply(s, a)) == InFlight(s)
  {
    if a.Take? {
      FlightTake(s, a.w);
    } else if a.Push? {
      FlightPush(s, a.w);
    } else {
      hide Gather, OnEvent, Registered;
      GatherStep(s, a, ConnOf);
    }
  }

  // ----- the invariant

  /** The request in flight for a connection is the last line taken from it. */
  ghost predicate Last(peers: map<nat, Peer>, id: nat, line: string) {
    id in peers && var t := peers[id].conn.taken; t != [] && t[|t| - 1] == line
  }

  ghost predicate LastAnswered(peers: map<nat, Peer>, r: Completion) {
    r.conn in peers && var t := peers[r.conn].conn.taken; t != [] && r.response == Response(t[|t| - 1])
  }

  ghost predicate JobsFit(peers: map<nat, Peer>, jobs: seq<Job>) {
    forall i :: 0 <= i < |jobs| ==> Last(peers, jobs[i].conn, jobs[i].line)
  }

  ghost predicate WorkersFit(peers: map<nat, Peer>, ws: seq<Worker>) {
    forall w :: 0 <= w < |ws| && ws[w].Busy? ==> Last(peers, ws[w].job.conn, ws[w].job.line)
  }

  ghost predicate DoneFit(peers: map<nat, Peer>, done: seq<Completion>) {
    forall i :: 0 <= i < |done| ==> LastAnswered(peers, done[i])
  }

  ghost predicate RequestsFit(s: State) {
    JobsFit(s.peers, s.jobs) && WorkersFit(s.peers, s.workers) && DoneFit(s.peers, s.done) && DoneFit(s.peers, Local(s))
  }

  /** One request in flight while processing, none while reading or writing, one at most after closing. */
  ghost predicate FlightFits(M: multiset<nat>, peers: map<nat, Peer>) {
    && (forall id :: id in M ==> id in peers)
    && (forall id :: id in peers ==>
          match peers[id].conn.phase
          case Processing => M[id] == 1
          case Closed => M[id] <= 1
          case _ => M[id] == 0)
  }

  /** The registered connections are the ones that are not closed. */
  ghost predicate ClientsFit(s: State) {
    && (forall fd :: fd in s.clients ==> s.clients[fd] in s.peers && s.peers[s.clients[fd]].fd == fd)
    && (forall id :: id in s.peers ==> (Registered(s, id) <==> s.peers[id].conn.phase != Closed))
  }

  ghost predicate AllServe(peers: map<nat, Peer>) {
    forall id :: id in peers ==> Serves(peers[id].conn)
  }

  ghost predicate Ordered(s: State) {
    AllServe(s.peers) && ClientsFit(s) && FlightFits(InFlight(s), s.peers) && RequestsFit(s)
  }

  lemma {:induction false} GatherHas(ws: seq<Worker>, w: nat)
    requires w < |ws| && ws[w].Busy?
    ensures ws[w].job.conn in Gather(ws, ConnOf)
  {
    if w > 0 {
      GatherHas(ws[1..], w - 1);
    }
  }

  /** Every request is counted. */
  lemma Counted(s: State)
    ensures forall i :: 0 <= i < |s.jobs| ==> s.jobs[i].conn in InFlight(s)
    ensures forall w :: 0 <= w < |s.workers| && s.workers[w].Busy? ==> s.workers[w].job.conn in InFlight(s)
    ensures forall i :: 0 <= i < |s.done| ==> s.done[i].conn in InFlight(s)
    ensures forall i :: 0 <= i < |Local(s)| ==> Local(s)[i].conn in InFlight(s)
  {
    hide Gather;
    forall w | 0 <= w < |s.workers| && s.workers[w].Busy?
      ensures s.workers[w].job.conn in InFlight(s)
    {
      GatherHas(s.workers, w);
    }
    forall i | 0 <= i < |s.jobs|
      ensures s.jobs[i].conn in InFlight(s)
    {
      assert JobIds(s.jobs)[i] in multiset(JobIds(s.jobs));
    }
    forall i | 0 <= i < |s.done|
      ensures s.done[i].conn in InFlight(s)
    {
      assert DoneIds(s.done)[i] in multiset(DoneIds(s.done));
    }
    forall i | 0 <= i < |Local(s)|
      ensures Local(s)[i].conn in InFlight(s)
    {
      assert DoneIds(Local(s))[i] in multiset(DoneIds(Local(s)));
    }
  }

  /** Requests still fit while no further line is taken from the connections they belong to. */
  lemma RequestsStillFit(s: State, peers: map<nat, Peer>)
    requires RequestsFit(s)
    requires forall id :: id in s.peers && id in InFlight(s) ==>
               id in peers && peers[id].conn.taken == s.peers[id].conn.taken
    ensures RequestsFit(s.(peers := peers))
  {
    Counted(s);
    hide InFlight, Response;
    var s' := s.(peers := peers);
    assert Local(s') == Local(s);
    assert JobsFit(peers, s.jobs);
    assert WorkersFit(peers, s.workers);
    assert DoneFit(peers, s.done);
    assert DoneFit(peers, Local(s));
  }

  // ----- the steps

  lemma QueuesKeepFit(s: State, a: Step)
    requires Enabled(s, a) && RequestsFit(s) && !a.Client? && !a.Deliver? && !a.Accept? && !a.Stop?
    ensures RequestsFit(Apply(s, a)) && Apply(s, a).peers == s.peers && Apply(s, a).clients == s.clients
  {
    hide OnEvent, Last, LastAnswered;
    var s' := Apply(s, a);
    if a.Push? {
      var j := s.workers[a.w].job;
      assert Last(s.peers, j.conn, j.line);
      Answered(s.peers, j.conn, j.line);
    }
  }

  lemma Answered(peers: map<nat, Peer>, id: nat, line: string)
    requires Last(peers, id, line)
    ensures LastAnswered(peers, Completion(id, Response(line)))
  {
  }

  lemma OrderedByQueues(s: State, a: Step)
    requires Enabled(s, a) && Ordered(s) && !a.Client? && !a.Deliver? && !a.Accept? && !a.Stop?
    ensures Ordered(Apply(s, a))
  {
    QueuesKeepFit(s, a);
    FlightKept(s, a);
    hide Apply, InFlight, RequestsFit, FlightFits, AllServe;
  }

  lemma AcceptClients(s: State, id: nat, fd: int)
    requires Enabled(s, Accept(id, fd)) && ClientsFit(s)
    ensures ClientsFit(Apply(s, Accept(id, fd)))
  {
  }

  lemma AcceptPeers(M: multiset<nat>, peers: map<nat, Peer>, id: nat, fd: int)
    requires AllServe(peers) && FlightFits(M, peers) && id !in peers
    ensures AllServe(peers[id := Peer(fd, ACCEPTED)]) && FlightFits(M, peers[id := Peer(fd, ACCEPTED)])
  {
    AcceptedServes();
    hide Serves;
  }

  lemma RequestsOnly(s: State, s': State)
    requires RequestsFit(s.(peers := s'.peers))
    requires s'.jobs == s.jobs && s'.workers == s.workers && s'.done == s.done && Local(s') == Local(s)
    ensures RequestsFit(s')
  {
  }

  lemma OrderedByAccept(s: State, id: nat, fd: int)
    requires Enabled(s, Accept(id, fd)) && Ordered(s)
    ensures Ordered(Apply(s, Accept(id, fd)))
  {
    hide InFlight, RequestsFit, ClientsFit, FlightFits, AllServe;
    var s' := Apply(s, Accept(id, fd));
    FlightKept(s, Accept(id, fd));
    AcceptClients(s, id, fd);
    AcceptPeers(InFlight(s), s.peers, id, fd);
    RequestsStillFit(s, s'.peers);
    RequestsOnly(s, s');
  }

  lemma AcceptedServes()
    ensures Serves(ACCEPTED) && ACCEPTED.phase == Reading
  {
  }

  /** Every connection closed, or closed already. */
  ghost predicate AllClosed(peers: map<nat, Peer>, peers': map<nat, Peer>) {
    && peers'.Keys == peers.Keys
    && forall id :: id in peers ==>
         peers'[id] == Closing(peers[id])
  }

  lemma StopShape(s: State)
    requires Enabled(s, Stop) && ClientsFit(s)
    ensures AllClosed(s.peers, Apply(s, Stop).peers) && ClientsFit(Apply(s, Stop))
  {
  }

  lemma ClosedPeers(M: multiset<nat>, peers: map<nat, Peer>, peers': map<nat, Peer>)
    requires AllServe(peers) && FlightFits(M, peers) && AllClosed(peers, peers')
    ensures AllServe(peers') && FlightFits(M, peers')
    ensures forall id :: id in peers ==> id in peers' && peers'[id].conn.taken == peers[id].conn.taken
  {
    hide Serves;
    forall id | id in peers'
      ensures Serves(peers'[id].conn)
    {
      CloseServes(peers[id].conn);
    }
  }

  lemma OrderedByStop(s: State)
    requires Enabled(s, Stop) && Ordered(s)
    ensures Ordered(Apply(s, Stop))
  {
    hide InFlight, RequestsFit, ClientsFit, FlightFits, AllServe, AllClosed;
    var s' := Apply(s, Stop);
    FlightKept(s, Stop);
    StopShape(s);
    ClosedPeers(InFlight(s), s.peers, s'.peers);
    RequestsStillFit(s, s'.peers);
    RequestsOnly(s, s');
  }

  // ----- the client branch

  /** What one event makes of the connection it is for. */
  ghost predicate Handled(c: Conn, c': Conn, job: Option<string>) {
    && Serves(c')
    && match job
       case None =>
         && c'.taken == c.taken
         && (c'.phase == Processing ==> c.phase == Processing)
         && (c.phase == Processing ==> c'.phase in {Processing, Closed})
       case Some(line) => c.phase in {Reading, Writing} && c'.phase == Processing && c'.taken == c.taken + [line]
  }

  lemma HandledPeers(M: multiset<nat>, peers: map<nat, Peer>, id: nat, c: Conn, job: Option<string>)
    requires AllServe(peers) && FlightFits(M, peers) && id in peers && peers[id].conn.phase != Closed
    requires Handled(peers[id].conn, c, job)
    ensures var peers' := peers[id := Peer(peers[id].fd, c)];
            AllServe(peers') && FlightFits(M + if job.Some? then multiset{id} else multiset{}, peers')
  {
    hide Serves;
  }

  lemma ClientClients(s: State, fd: int, c: Conn, alive: bool)
    requires ClientsFit(s) && fd in s.clients && s.clients[fd] in s.peers
    requires alive <==> c.phase != Closed
    ensures var id := s.clients[fd];
            ClientsFit(s.(peers := s.peers[id := Peer(s.peers[id].fd, c)],
                          clients := if alive then s.clients else s.clients - {fd}))
  {
  }

  lemma ClientRequests(s: State, id: nat, c: Conn, job: Option<string>)
    requires RequestsFit(s) && id in s.peers && Handled(s.peers[id].conn, c, job)
    requires job.Some? ==> InFlight(s)[id] == 0
    ensures var peers' := s.peers[id := Peer(s.peers[id].fd, c)];
            && RequestsFit(s.(peers := peers'))
            && (job.Some? ==> JobsFit(peers', s.jobs + [Job(id, job.value)]))
  {
    var peers' := s.peers[id := Peer(s.peers[id].fd, c)];
    hide InFlight, Serves;
    RequestsStillFit(s, peers');
    assert JobsFit(peers', s.jobs);
    if job.Some? {
      assert Last(peers', id, job.value);
    }
  }

  /** The socket of an event stands for a live connection. */
  lemma ClientIs(s: State, fd: int)
    requires ClientsFit(s) && AllServe(s.peers) && fd in s.clients
    ensures var id := s.clients[fd];
            id in s.peers && s.peers[id].fd == fd && s.peers[id].conn.phase != Closed && Serves(s.peers[id].conn)
  {
    assert Registered(s, s.clients[fd]);
  }

  lemma ToHandled(c: Conn, r: (Conn, Option<string>, bool))
    requires Moves(c, r)
    ensures Handled(c, r.0, r.1)
  {
  }

  lemma ClientShape(s: State, fd: int, io: Io, c: Conn, job: Option<string>, alive: bool)
    requires Enabled(s, Client(fd, io)) && OnEvent(s.peers[s.clients[fd]].conn, io) == (c, job, alive)
    ensures var id, s' := s.clients[fd], ClientStep(s, fd, io);
            && s'.peers == s.peers[id := Peer(s.peers[id].fd, c)]
            && s'.clients == (if alive then s.clients else s.clients - {fd})
            && s'.workers == s.workers && s'.done == s.done && Local(s) == [] && Local(s') == []
            && s'.jobs == (if job.Some? then s.jobs + [Job(id, job.value)] else s.jobs)
  {
    hide OnEvent;
  }

  lemma OrderedByClient(s: State, fd: int, io: Io)
    requires Enabled(s, Client(fd, io)) && Ordered(s)
    ensures Ordered(Apply(s, Client(fd, io)))
  {
    var s', id := ClientStep(s, fd, io), s.clients[fd];
    var (c, job, alive) := OnEvent(s.peers[id].conn, io);
    hide OnEvent, InFlight, FlightFits, AllServe, Moves, Handled, Serves;
    ClientIs(s, fd);
    EventMoves(s.peers[id].conn, io);
    ToHandled(s.peers[id].conn, (c, job, alive));
    HandledPeers(InFlight(s), s.peers, id, c, job);
    FlightClient(s, fd, io);
    ClientClients(s, fd, c, alive);
    ClientShape(s, fd, io, c, job, alive);
    ClientJob(s, id, c, job);
    ClientRequests(s, id, c, job);
    hide ClientStep, JobsFit, WorkersFit, DoneFit, ClientsFit;
    SameClients(s.(peers := s.peers[id := Peer(s.peers[id].fd, c)],
                   clients := if alive then s.clients else s.clients - {fd}), s');
  }

  lemma SameClients(s: State, s': State)
    requires ClientsFit(s) && s'.peers == s.peers && s'.clients == s.clients
    ensures ClientsFit(s')
  {
    forall id | id in s'.peers
      ensures Registered(s', id) <==> s'.peers[id].conn.phase != Closed
    {
      assert Registered(s', id) <==> Registered(s, id);
    }
  }

  lemma ClientJob(s: State, id: nat, c: Conn, job: Option<string>)
    requires id in s.peers && Handled(s.peers[id].conn, c, job) && FlightFits(InFlight(s), s.peers)
    ensures job.Some? ==> InFlight(s)[id] == 0
  {
  }

  // ----- the notify branch

  function Answer(p: Peer, response: string): Peer {
    p.(conn := p.conn.(output := response, sent := 0, phase := Writing))
  }

  /** A completion for a live connection finds it processing, and answers its last line. */
  lemma DeliverLive(M: multiset<nat>, M': multiset<nat>, peers: map<nat, Peer>, r: Completion)
    requires AllServe(peers) && FlightFits(M, peers) && M' + multiset{r.conn} == M && LastAnswered(peers, r)
    requires peers[r.conn].conn.phase != Closed
    ensures var peers' := peers[r.conn := Answer(peers[r.conn], r.response)];
            AllServe(peers') && FlightFits(M', peers')
  {
    hide Serves, Response;
    var p := peers[r.conn];
    assert M[r.conn] == M'[r.conn] + 1;
    AnswerServes(p.conn);
  }

  lemma DeliverDead(M: multiset<nat>, M': multiset<nat>, peers: map<nat, Peer>, id: nat)
    requires FlightFits(M, peers) && M' + multiset{id} == M && id in peers && peers[id].conn.phase == Closed
    ensures FlightFits(M', peers)
  {
    assert M[id] == M'[id] + 1;
    assert forall x :: x in M' ==> x in M;
    assert forall x :: x != id ==> M'[x] == M[x];
  }

  lemma DeliverRequests(s: State)
    requires Enabled(s, Deliver) && RequestsFit(s)
    ensures LastAnswered(s.peers, s.loop.local[0])
    ensures var r, s' := s.loop.local[0], DeliverStep(s);
            && RequestsFit(s.(loop := s'.loop))
            && (var peers' := if Registered(s, r.conn) && s.peers[r.conn].conn.phase != Closed
                              then s.peers[r.conn := Answer(s.peers[r.conn], r.response)] else s.peers;
                s' == s.(loop := s'.loop, peers := peers'))
  {
    assert Local(s)[0] == s.loop.local[0];
    hide Last, LastAnswered, Registered;
  }

  lemma DeliverClients(s: State, id: nat, response: string)
    requires ClientsFit(s) && id in s.peers && s.peers[id].conn.phase != Closed
    ensures ClientsFit(s.(peers := s.peers[id := Answer(s.peers[id], response)]))
  {
  }

  lemma LiveIs(s: State, id: nat)
    requires ClientsFit(s) && id in s.peers
    ensures Registered(s, id) <==> s.peers[id].conn.phase != Closed
  {
  }

  lemma LastIn(peers: map<nat, Peer>, r: Completion)
    requires LastAnswered(peers, r)
    ensures r.conn in peers
  {
  }

  lemma OrderedByDeliver(s: State)
    requires Enabled(s, Deliver) && Ordered(s)
    ensures Ordered(DeliverStep(s))
  {
    hide DeliverStep, InFlight, FlightFits, AllServe, RequestsFit, ClientsFit, LastAnswered, Registered;
    var r, s' := s.loop.local[0], DeliverStep(s);
    DeliverRequests(s);
    LastIn(s.peers, r);
    LiveIs(s, r.conn);
    FlightDeliver(s);
    RequestsStillFit(s.(loop := s'.loop), s'.peers);
    if s.peers[r.conn].conn.phase != Closed {
      DeliverLive(InFlight(s), InFlight(s'), s.peers, r);
      DeliverClients(s, r.conn, r.response);
      SameClients(s.(peers := s'.peers), s');
    } else {
      DeliverDead(InFlight(s), InFlight(s'), s.peers, r.conn);
      SameClients(s, s');
    }
  }

  /** Every step keeps the promises to the connections. */
  lemma OrderedKept(s: State, a: Step)
    requires Enabled(s, a) && Ordered(s)
    ensures Ordered(Apply(s, a))
  {
    match a
    case Accept(id, fd) => OrderedByAccept(s, id, fd);
    case Client(fd, io) => OrderedByClient(s, fd, io);
    case Deliver => OrderedByDeliver(s);
    case Stop => OrderedByStop(s);
    case _ => OrderedByQueues(s, a);
  }
}
