/** The shutdown-aware queue of the asynchronous logger, its worker and its destructor (logger.h), with
    any number of producers and any interleaving. */
module LogQueue {

  /** The worker: about to test the wait condition, blocked in the wait, writing a message to the sinks,
      or returned. */
  datatype Worker = Testing | Asleep | Writing(msg: string) | Exited

  /** `shutdown`: not called, between setting the flag and notify_all, or past it and joining. */
  datatype Closing = Open | FlagSet | Notified

  /** The queue; `unannounced` counts the pushes that have not called notify_one yet; and the messages
      accepted, popped and written so far. */
  datatype State = State(queue: seq<string>, closing: Closing, worker: Worker, unannounced: nat,
                         accepted: seq<string>, popped: seq<string>, written: seq<string>)

  datatype Step = Push(msg: string) | NotifyOne | SetFlag | NotifyAll | Take | Sleep | Wake | Exit | Write

  const START := State([], Open, Testing, 0, [], [], [])

  predicate Enabled(s: State, a: Step) {
    match a
    case Push(_) => true
    case NotifyOne => s.unannounced > 0
    case SetFlag => s.closing == Open
    case NotifyAll => s.closing == FlagSet
    case Take => s.worker == Testing && s.queue != []
    case Sleep => s.worker == Testing && s.queue == [] && s.closing == Open
    case Wake => s.worker == Asleep
    case Exit => s.worker == Testing && s.queue == [] && s.closing != Open
    case Write => s.worker.Writing?
  }

  /** A blocked worker tests its condition again; any other does not notice. */
  function Woken(w: Worker): Worker {
    if w == Asleep then Testing else w
  }

  /** The answer of `push`. */
  predicate Accepts(s: State) {
    s.closing == Open
  }

  function Apply(s: State, a: Step): State
    requires Enabled(s, a)
  {
    match a
    case Push(msg) =>
      if Accepts(s) then
        s.(queue := s.queue + [msg], accepted := s.accepted + [msg], unannounced := s.unannounced + 1)
      else s
    case NotifyOne => s.(unannounced := s.unannounced - 1, worker := Woken(s.worker))
    case SetFlag => s.(closing := FlagSet)
    case NotifyAll => s.(closing := Notified, worker := Woken(s.worker))
    case Take => s.(queue := s.queue[1..], popped := s.popped + [s.queue[0]], worker := Writing(s.queue[0]))
    case Sleep => s.(worker := Asleep)
    case Wake => s.(worker := Testing)
    case Exit => s.(worker := Exited)
    case Write => s.(written := s.written + [s.worker.msg], worker := Testing)
  }

  /** The order of the messages, and who may be asleep. */
  ghost predicate Sound(s: State) {
    && s.accepted == s.popped + s.queue
    && s.popped == s.written + (if s.worker.Writing? then [s.worker.msg] else [])
    && (s.worker == Asleep ==> s.queue == [] || s.unannounced > 0)
    && (s.worker == Asleep ==> s.closing != Notified)
    && (s.worker == Exited ==> s.closing != Open && s.queue == [])
  }

  lemma SoundKept(s: State, a: Step)
    requires Sound(s) && Enabled(s, a)
    ensures Sound(Apply(s, a))
    ensures s.closing != Open ==> Apply(s, a).accepted == s.accepted
  {
    if a.Take? {
      assert s.popped + s.queue == (s.popped + [s.queue[0]]) + s.queue[1..];
    }
  }

  /** Steps in turn; a step that is not enabled is not taken. */
  ghost function Run(steps: seq<Step>): State
    decreases |steps|
  {
    if steps == [] then START
    else
      var s := Run(steps[..|steps| - 1]);
      if Enabled(s, steps[|steps| - 1]) then Apply(s, steps[|steps| - 1]) else s
  }

  lemma {:induction false} RunSound(steps: seq<Step>)
    ensures Sound(Run(steps))
    decreases |steps|
  {
    if steps != [] {
      RunSound(steps[..|steps| - 1]);
      var s, a := Run(steps[..|steps| - 1]), steps[|steps| - 1];
      if Enabled(s, a) {
        SoundKept(s, a);
      }
      hide Enabled, Apply, Sound;
    }
  }

  predicate WorkerStep(a: Step) {
    a.Take? || a.Sleep? || a.Wake? || a.Exit? || a.Write?
  }

  function ToGo(s: State): nat {
    3 * |s.queue| + match s.worker case Writing(_) => 2 case Testing => 1 case Asleep => 2 case Exited => 0
  }

  /** In every run: accepted messages are popped exactly once and in order, and written in order. */
  lemma AcceptedInOrder(steps: seq<Step>)
    ensures Run(steps).popped <= Run(steps).accepted && Run(steps).written <= Run(steps).popped
    ensures Run(steps).accepted == Run(steps).popped + Run(steps).queue
  {
    RunSound(steps);
    hide Run;
  }

  /** Shutdown has set its flag at some step. */
  predicate FlagIn(steps: seq<Step>) {
    SetFlag in steps
  }

  /** The messages pushed before that, in order. */
  function PushedInTime(steps: seq<Step>): seq<string> {
    if steps == [] || steps[0].SetFlag? then []
    else (if steps[0].Push? then [steps[0].msg] else []) + PushedInTime(steps[1..])
  }

  lemma {:induction false} OneStepMore(steps: seq<Step>, a: Step)
    ensures PushedInTime(steps + [a])
         == PushedInTime(steps) + if a.Push? && !FlagIn(steps) then [a.msg] else []
  {
    if steps == [] {
      assert steps + [a] == [a] && [a][1..] == [];
    } else {
      assert (steps + [a])[1..] == steps[1..] + [a] && steps == [steps[0]] + steps[1..];
      OneStepMore(steps[1..], a);
    }
  }

  /** `push` refuses exactly the messages that come after shutdown has set the flag: what a run has
      accepted is what was pushed before, in order. */
  lemma {:induction false} AcceptedExactly(steps: seq<Step>)
    ensures Run(steps).accepted == PushedInTime(steps)
    ensures Run(steps).closing == Open <==> !FlagIn(steps)
    decreases |steps|
  {
    if steps != [] {
      var before, a := steps[..|steps| - 1], steps[|steps| - 1];
      AcceptedExactly(before);
      OneStepMore(before, a);
      assert steps == before + [a];
      hide PushedInTime;
    }
  }

  /** A message pushed while the queue is open is accepted, whatever is waiting. */
  lemma PushIsAccepted(steps: seq<Step>, msg: string)
    ensures Run(steps + [Push(msg)]).accepted
         == Run(steps).accepted + if Run(steps).closing == Open then [msg] else []
  {
    AcceptedExactly(steps);
    AcceptedExactly(steps + [Push(msg)]);
    OneStepMore(steps, Push(msg));
    hide Run, PushedInTime;
  }

  /** Once shutdown has set the flag, no message is accepted any more. */
  lemma {:induction false} NoneAfterShutdown(steps: seq<Step>, more: seq<Step>)
    requires Run(steps).closing != Open
    ensures Run(steps + more).closing != Open && Run(steps + more).accepted == Run(steps).accepted
    decreases |more|
  {
    if more == [] {
      assert steps + more == steps;
    } else {
      var before := more[..|more| - 1];
      NoneAfterShutdown(steps, before);
      assert (steps + more)[..|steps + more| - 1] == steps + before;
      RunSound(steps + before);
      var s, a := Run(steps + before), more[|more| - 1];
      if Enabled(s, a) {
        SoundKept(s, a);
      }
      hide Enabled, Sound;
    }
  }

  /** The worker is never left asleep with work or a shutdown nobody will announce. */
  lemma NeverStranded(steps: seq<Step>)
    requires Run(steps).worker == Asleep
    ensures Run(steps).queue != [] ==> Enabled(Run(steps), NotifyOne)
    ensures Run(steps).closing != Open ==> Enabled(Run(steps), NotifyAll)
  {
    RunSound(steps);
    hide Run;
  }

  /** Steps of the worker and of the producers on what they have: no push, and no wake-up for nothing. */
  predicate Inner(a: Step) {
    a.Take? || a.Sleep? || a.Write? || a.Exit? || a.NotifyOne?
  }

  function Work(s: State): nat {
    2 * |s.queue| + 2 * s.unannounced
    + match s.worker case Writing(_) => 2 case Testing => 1 case Asleep => 0 case Exited => 0
  }

  /** In every run, shutdown or not: left alone the logger comes to rest after finitely many steps of any
      order, and then every accepted message has been written, in order. */
  lemma EverythingIsWritten(steps: seq<Step>)
    ensures var s := Run(steps);
            && (forall a :: Inner(a) && Enabled(s, a) ==> Work(Apply(s, a)) < Work(s))
            && ((exists a :: Inner(a) && Enabled(s, a)) || s.written == s.accepted == PushedInTime(steps))
  {
    RunSound(steps);
    AcceptedExactly(steps);
    var s := Run(steps);
    hide Run, PushedInTime;
    if s.unannounced > 0 || (s.worker != Asleep && s.worker != Exited) {
      var a := if s.unannounced > 0 then NotifyOne
               else if s.worker.Writing? then Write
               else if s.queue != [] then Take
               else if s.closing == Open then Sleep else Exit;
      assert Inner(a) && Enabled(s, a);
    }
  }

  /** After shutdown the destructor's join is reached: the worker can step until it has returned, only
      so many times, and then every message pushed before shutdown set the flag has been written, in order. */
  lemma JoinIsReached(steps: seq<Step>)
    requires Run(steps).closing == Notified
    ensures var s := Run(steps);
            && (s.worker != Exited ==> exists a :: WorkerStep(a) && Enabled(s, a))
            && (forall a :: WorkerStep(a) && Enabled(s, a) ==> ToGo(Apply(s, a)) < ToGo(s))
            && (s.worker == Exited ==> s.queue == [] && s.written == s.accepted == PushedInTime(steps))
  {
    RunSound(steps);
    AcceptedExactly(steps);
    var s := Run(steps);
    hide Run;
    if s.worker != Exited {
      var a := if s.worker.Writing? then Write else if s.queue == [] then Exit else Take;
      assert WorkerStep(a) && Enabled(s, a);
    }
  }
}
