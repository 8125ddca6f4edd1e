/** One client of the reactor (framework_server.cpp): its four-state machine, its line protocol, and
    what that makes of the bytes it receives and sends. */
module ServerConnection {

  import opened Options

  const MAX_LINE: nat := 4096

  // ----- the protocol

  /** Where the first newline is, or the length if there is none. */
  function Newline(s: string): (e: nat)
    ensures e <= |s| && (e < |s| ==> s[e] == '\n')
    ensures forall i :: 0 <= i < e ==> s[i] != '\n'
    decreases |s|
  {
    if s == "" || s[0] == '\n' then 0 else 1 + Newline(s[1..])
  }

  /** One carriage return at the end of a line does not belong to it. */
  function Strip(l: string): string {
    if l != "" && l[|l| - 1] == '\r' then l[..|l| - 1] else l
  }

  /** The complete lines in a stream of bytes. */
  function Lines(s: string): seq<string>
    decreases |s|
  {
    var e := Newline(s);
    if e == |s| then [] else [Strip(s[..e])] + Lines(s[e + 1..])
  }

  function Upper(s: string): (r: string)
    ensures |r| == |s|
    ensures forall i :: 0 <= i < |s| ==> r[i] == if 'a' <= s[i] <= 'z' then s[i] - 'a' + 'A' else s[i]
  {
    seq(|s|, i requires 0 <= i < |s| => if 'a' <= s[i] <= 'z' then s[i] - 'a' + 'A' else s[i])
  }

  function Response(line: string): (r: string)
    ensures |r| == |line| + 4 && r[0] == 'O' && r[1] == 'K' && r[2] == ' ' && r[|r| - 1] == '\n'
    ensures forall i :: 0 <= i < |line| ==>
              r[3 + i] == if 'a' <= line[i] <= 'z' then line[i] - 'a' + 'A' else line[i]
  {
    "OK " + Upper(line) + "\n"
  }

  function Responses(lines: seq<string>): string {
    if lines == [] then "" else Responses(lines[..|lines| - 1]) + Response(lines[|lines| - 1])
  }

  // ----- the connection

  datatype Phase = Reading | Processing | Writing | Closed

  /** The fields of `Connection`, and its history: the bytes taken out of `input`, the lines they
      held, and the bytes sent. */
  datatype Conn = Conn(phase: Phase, input: string, output: string, sent: nat, eof: bool,
                       past: string, taken: seq<string>, delivered: string)

  const ACCEPTED := Conn(Reading, "", "", 0, false, "", [], "")

  /** Everything received so far. */
  function Received(c: Conn): string {
    c.past + c.input
  }

  /** `dispatch_line`: the connection after it, the line submitted, and whether it is still alive. */
  function Dispatch(c: Conn): (Conn, Option<string>, bool) {
    if c.phase != Reading then (c, None, true)
    else
      var e := Newline(c.input);
      if e == |c.input| then
        if |c.input| > MAX_LINE then (c.(phase := Closed), None, false) else (c, None, true)
      else if e > MAX_LINE then (c.(phase := Closed), None, false)
      else
        var line := Strip(c.input[..e]);
        (c.(input := c.input[e + 1..], phase := Processing, past := c.past + c.input[..e + 1], taken := c.taken + [line]),
         Some(line), true)
  }

  /** How a run of recv or send calls ends. */
  datatype Ending = Eof | Blocked | Failed

  /** What the kernel does in one event: the flags, the bytes recv yields and how it ends, how many
      bytes send takes and how it ends if that is not all. */
  datatype Io = Io(readable: bool, writable: bool, hangup: bool, data: string, ending: Ending,
                   accepted: nat, fate: Ending)

  function Receive(c: Conn, io: Io): Conn {
    c.(input := c.input + io.data, eof := c.eof || io.ending == Eof)
  }

  /** The send loop takes some bytes. */
  function Send(c: Conn, n: nat): Conn
    requires c.sent <= |c.output|
  {
    var k := if n <= |c.output| - c.sent then n else |c.output| - c.sent;
    c.(sent := c.sent + k, delivered := c.delivered + c.output[c.sent..c.sent + k])
  }

  /** The EPOLLIN part of the client branch. */
  function OnReadable(c: Conn, io: Io): (Conn, Option<string>, bool) {
    if !io.readable then (c, None, true)
    else
      var c1 := Receive(c, io);
      if io.ending == Failed then (c1, None, false) else Dispatch(c1)
  }

  /** The EPOLLOUT part. */
  function OnWritable(c: Conn, io: Io): (Conn, Option<string>, bool)
    requires c.sent <= |c.output|
  {
    if !io.writable || c.phase != Writing then (c, None, true)
    else
      var c1 := Send(c, io.accepted);
      if c1.sent == |c1.output| then Dispatch(c1.(output := "", sent := 0, phase := Reading))
      else (c1, None, io.fate == Blocked)
  }

  /** The end of stream part: a connection with nothing left to answer goes. */
  function OnEof(c: Conn): (Conn, Option<string>, bool) {
    if c.eof && c.phase == Reading then
      var (c1, job, alive) := Dispatch(c);
      (c1, job, alive && c1.phase != Reading)
    else (c, None, true)
  }

  /** One part of an event after another: at most one of them submits a line. */
  function AndThen(r: (Conn, Option<string>, bool), r': (Conn, Option<string>, bool)): (Conn, Option<string>, bool) {
    (r'.0, if r.1 != None then r.1 else r'.1, r'.2)
  }

  /** EPOLLERR, EPOLLHUP and EPOLLRDHUP. */
  function OnHangup(r: (Conn, Option<string>, bool), io: Io): (Conn, Option<string>, bool) {
    if io.hangup then (r.0.(eof := true), r.1, r.2) else r
  }

  /** The client branch of the event loop. */
  function OnEvent(c: Conn, io: Io): (Conn, Option<string>, bool)
    requires c.sent <= |c.output|
  {
    var r1 := OnReadable(c, io);
    var r2 := OnHangup(if r1.2 then AndThen(r1, OnWritable(r1.0, io)) else r1, io);
    var r3 := if r2.2 then AndThen(r2, OnEof(r2.0)) else r2;
    if r3.2 then r3 else (r3.0.(phase := Closed), r3.1, false)
  }

  // ----- what the protocol promises

  /** What was taken out of the input is whole lines, the ones submitted. */
  ghost predicate Consumed(past: string, taken: seq<string>) {
    (past == "" || past[|past| - 1] == '\n') && Lines(past) == taken
  }

  /** The bytes sent and still to be sent answer the lines taken, all but the one being processed. */
  ghost predicate Answers(c: Conn) {
    && c.sent <= |c.output|
    && match c.phase
       case Reading => c.output == "" && c.sent == 0 && c.delivered == Responses(c.taken)
       case Processing =>
         && c.output == "" && c.sent == 0 && c.taken != []
         && c.delivered == Responses(c.taken[..|c.taken| - 1])
       case Writing => c.delivered + c.output[c.sent..] == Responses(c.taken)
       case Closed => c.delivered <= Responses(c.taken)
  }

  ghost predicate Serves(c: Conn) {
    Consumed(c.past, c.taken) && Answers(c)
  }

  lemma Associate<T>(a: seq<T>, b: seq<T>, c: seq<T>)
    ensures (a + b) + c == a + (b + c)
  {
  }

  lemma Slices(a: string, b: string, e: nat)
    requires e < |a|
    ensures (a + b)[..e] == a[..e] && (a + b)[e + 1..] == a[e + 1..] + b
    ensures e + 1 < |a| ==> a[e + 1..][|a[e + 1..]| - 1] == a[|a| - 1]
  {
  }

  lemma Unfold(s: string)
    requires Newline(s) < |s|
    ensures Lines(s) == [Strip(s[..Newline(s)])] + Lines(s[Newline(s) + 1..])
  {
  }

  /** Whole lines in front of a stream are that many more lines. */
  lemma {:induction false} LinesAppend(a: string, b: string)
    requires a == "" || a[|a| - 1] == '\n'
    ensures Lines(a + b) == Lines(a) + Lines(b)
    decreases |a|
  {
    if a == "" {
      assert a + b == b;
    } else {
      hide *;
      var e := Newline(a);
      FirstNewline(a, b);
      var rest := a[e + 1..];
      Slices(a, b, e);
      LinesAppend(rest, b);
      Unfold(a);
      Unfold(a + b);
      Associate([Strip(a[..e])], Lines(rest), Lines(b));
    }
  }

  lemma FirstNewline(a: string, b: string)
    requires a != "" && a[|a| - 1] == '\n'
    ensures Newline(a) < |a| && Newline(a + b) == Newline(a)
  {
    var e, e' := Newline(a), Newline(a + b);
    assert forall i :: 0 <= i < |a| ==> (a + b)[i] == a[i];
  }

  lemma {:induction false} ResponsesAppend(a: seq<string>, b: seq<string>)
    ensures Responses(a) <= Responses(a + b)
    decreases |b|
  {
    if b == [] {
      assert a + b == a;
    } else {
      var rest := b[..|b| - 1];
      assert (a + b)[..|a + b| - 1] == a + rest;
      ResponsesAppend(a, rest);
    }
  }

  lemma ReceiveServes(c: Conn, io: Io)
    requires Serves(c)
    ensures Serves(Receive(c, io)) && Received(Receive(c, io)) == Received(c) + io.data
  {
  }

  lemma NewlineIs(s: string, e: nat)
    requires e < |s| && s[e] == '\n' && forall i :: 0 <= i < e ==> s[i] != '\n'
    ensures Newline(s) == e
  {
    var e' := Newline(s);
    hide Newline;
  }

  lemma OneLine(s: string)
    requires Newline(s) < |s|
    ensures Lines(s[..Newline(s) + 1]) == [Strip(s[..Newline(s)])]
  {
    var e := Newline(s);
    var l := s[..e + 1];
    assert l[..e] == s[..e] && l[e + 1..] == "";
    NewlineIs(l, e);
    assert Lines("") == [];
    hide Newline, Strip;
    assert Lines(l) == [Strip(l[..e])] + Lines(l[e + 1..]);
  }

  /** Taking the first line off the input. */
  lemma TakeLine(past: string, taken: seq<string>, input: string)
    requires Consumed(past, taken) && Newline(input) < |input|
    ensures Consumed(past + input[..Newline(input) + 1], taken + [Strip(input[..Newline(input)])])
  {
    hide Lines, Newline, Strip;
    OneLine(input);
    LinesAppend(past, input[..Newline(input) + 1]);
  }

  lemma DispatchServes(c: Conn)
    requires Serves(c)
    ensures Serves(Dispatch(c).0) && Received(Dispatch(c).0) == Received(c)
  {
    hide Consumed, Newline, Strip, Responses;
    var (c', job, alive) := Dispatch(c);
    if job != None {
      TakeLine(c.past, c.taken, c.input);
      assert c'.taken[..|c'.taken| - 1] == c.taken;
      assert c.input == c.input[..Newline(c.input) + 1] + c.input[Newline(c.input) + 1..];
    }
  }

  lemma SendServes(c: Conn, n: nat)
    requires Serves(c) && c.phase == Writing
    ensures Serves(Send(c, n)) && Send(c, n).phase == Writing
    ensures Send(c, n).sent == |Send(c, n).output| ==>
              Serves(Send(c, n).(output := "", sent := 0, phase := Reading))
  {
    hide Consumed, Responses;
    var c' := Send(c, n);
    assert c.output[c.sent..] == c.output[c.sent..c'.sent] + c.output[c'.sent..];
    assert c'.delivered + c'.output[c'.sent..] == c.delivered + c.output[c.sent..];
    if c'.sent == |c'.output| {
      assert c'.delivered == Responses(c.taken);
    }
  }

  lemma CloseServes(c: Conn)
    requires Serves(c)
    ensures Serves(c.(phase := Closed))
  {
    if c.phase == Processing {
      ResponsesAppend(c.taken[..|c.taken| - 1], [c.taken[|c.taken| - 1]]);
      assert c.taken[..|c.taken| - 1] + [c.taken[|c.taken| - 1]] == c.taken;
    }
  }

  /** The completion of the line being processed arrives. */
  lemma AnswerServes(c: Conn)
    requires Serves(c) && c.phase == Processing
    ensures c.taken != []
    ensures Serves(c.(output := Response(c.taken[|c.taken| - 1]), sent := 0, phase := Writing))
  {
  }

  /** The bytes sent are always a prefix of the responses to the received lines, in order. */
  lemma AnswersInOrder(c: Conn)
    requires Serves(c)
    ensures c.delivered <= Responses(Lines(Received(c)))
  {
    hide Lines, Responses;
    CloseServes(c);
    LinesAppend(c.past, c.input);
    ResponsesAppend(c.taken, Lines(c.input));
  }

  // ----- a whole event

  /** How one part of an event may change a connection: it may submit one line, turning to
      processing, or submit none. */
  ghost predicate Moves(c: Conn, r: (Conn, Option<string>, bool)) {
    && Serves(r.0)
    && (c.phase == Closed ==> r.0.phase == Closed)
    && match r.1
       case None =>
         && r.0.taken == c.taken
         && (r.0.phase == Processing ==> c.phase == Processing)
         && (c.phase == Processing ==> r.0.phase in {Processing, Closed})
       case Some(line) =>
         c.phase in {Reading, Writing} && r.2 && r.0.phase == Processing && r.0.taken == c.taken + [line]
  }

  lemma DispatchMoves(c: Conn)
    requires Serves(c)
    ensures Moves(c, Dispatch(c)) && Received(Dispatch(c).0) == Received(c)
    ensures Dispatch(c).2 ==> Dispatch(c).0.phase == Closed ==> c.phase == Closed
  {
    hide Serves, Newline, Strip, Received;
    DispatchServes(c);
  }

  lemma ReadableMoves(c: Conn, io: Io)
    requires Serves(c)
    ensures Moves(c, OnReadable(c, io))
    ensures Received(OnReadable(c, io).0) == Received(c) + if io.readable then io.data else ""
    ensures OnReadable(c, io).2 ==> OnReadable(c, io).0.phase == Closed ==> c.phase == Closed
  {
    hide Serves, Received, Dispatch;
    if io.readable {
      ReceiveServes(c, io);
      DispatchMoves(Receive(c, io));
    }
  }

  lemma WritableMoves(c: Conn, io: Io)
    requires Serves(c) && c.sent <= |c.output|
    ensures c.phase == Processing ==> OnWritable(c, io) == (c, None, true)
    ensures Moves(c, OnWritable(c, io)) && Received(OnWritable(c, io).0) == Received(c)
    ensures OnWritable(c, io).2 ==> OnWritable(c, io).0.phase == Closed ==> c.phase == Closed
  {
    hide Serves, Dispatch;
    if io.writable && c.phase == Writing {
      SendServes(c, io.accepted);
      var c1 := Send(c, io.accepted);
      if c1.sent == |c1.output| {
        DispatchMoves(c1.(output := "", sent := 0, phase := Reading));
      }
    }
  }

  lemma EofMoves(c: Conn)
    requires Serves(c)
    ensures c.phase == Processing ==> OnEof(c) == (c, None, true)
    ensures Moves(c, OnEof(c)) && Received(OnEof(c).0) == Received(c)
    ensures OnEof(c).2 ==> OnEof(c).0.phase == Closed ==> c.phase == Closed
  {
    hide Serves, Dispatch, Received;
    if c.eof && c.phase == Reading {
      DispatchMoves(c);
    }
  }

  lemma Compose(c: Conn, r: (Conn, Option<string>, bool), r': (Conn, Option<string>, bool))
    requires Moves(c, r) && Moves(r.0, r') && r.2
    requires r.0.phase == Processing ==> r' == (r.0, None, true)
    ensures Moves(c, AndThen(r, r'))
  {
    hide Serves;
  }

  lemma HangupMoves(c: Conn, r: (Conn, Option<string>, bool), io: Io)
    requires Moves(c, r)
    ensures Moves(c, OnHangup(r, io)) && Received(OnHangup(r, io).0) == Received(r.0)
  {
  }

  lemma CloseMoves(c: Conn, r: (Conn, Option<string>, bool))
    requires Moves(c, r) && !r.2
    ensures Moves(c, (r.0.(phase := Closed), r.1, false)) && Received(r.0.(phase := Closed)) == Received(r.0)
  {
    CloseServes(r.0);
    hide Serves;
  }

  lemma SentBound(c: Conn)
    requires Serves(c)
    ensures c.sent <= |c.output|
  {
  }

  /** One event keeps the protocol, submits at most one line, and only from outside processing. */
  lemma EventMoves(c: Conn, io: Io)
    requires Serves(c) && c.phase != Closed
    ensures c.sent <= |c.output|
    ensures Moves(c, OnEvent(c, io))
    ensures OnEvent(c, io).2 <==> OnEvent(c, io).0.phase != Closed
    ensures Received(OnEvent(c, io).0) == Received(c) + if io.readable then io.data else ""
  {
    SentBound(c);
    var r1 := OnReadable(c, io);
    ReadableMoves(c, io);
    SentBound(r1.0);
    hide Received, OnReadable, OnWritable, OnEof, Moves, Serves;
    if r1.2 {
      WritableMoves(r1.0, io);
      Compose(c, r1, OnWritable(r1.0, io));
    }
    var r := if r1.2 then AndThen(r1, OnWritable(r1.0, io)) else r1;
    HangupMoves(c, r, io);
    var r2 := OnHangup(r, io);
    ServedAfter(c, r2);
    if r2.2 {
      EofMoves(r2.0);
      Compose(c, r2, OnEof(r2.0));
    }
    var r3 := if r2.2 then AndThen(r2, OnEof(r2.0)) else r2;
    if !r3.2 {
      CloseMoves(c, r3);
    }
  }

  lemma ServedAfter(c: Conn, r: (Conn, Option<string>, bool))
    requires Moves(c, r)
    ensures Serves(r.0)
  {
  }

  // ----- when a connection submits, waits and closes

  /** Text without a newline, ended by a newline with or without a carriage return, is one line. */
  lemma LineOf(l: string)
    requires '\n' !in l
    ensures Lines(l + "\r\n") == [l]
    ensures l == "" || l[|l| - 1] != '\r' ==> Lines(l + "\n") == [l]
  {
    hide Lines, Newline;
    EndedLine(l + "\r");
    EndedLine(l);
    assert (l + "\r") + "\n" == l + "\r\n" && (l + "\r")[..|l|] == l;
  }

  lemma EndedLine(l: string)
    requires '\n' !in l
    ensures Lines(l + "\n") == [Strip(l)]
  {
    var s := l + "\n";
    NewlineIs(s, |l|);
    OneLine(s);
    assert s[..|l| + 1] == s && s[..|l|] == l;
  }

  /** The first line of the input, complete or not, has more than 4096 characters. */
  predicate TooLong(input: string) {
    |input| > 4096 && '\n' !in input[..4097]
  }

  predicate Complete(input: string) {
    '\n' in input && !TooLong(input)
  }

  lemma FirstLine(input: string)
    ensures Newline(input) == |input| <==> '\n' !in input
    ensures TooLong(input) <==> Newline(input) > 4096
    ensures '\n' in input ==> |Lines(input)| > 0 && Lines(input)[0] == Strip(input[..Newline(input)])
    ensures '\n' in input ==> Lines(input)[1..] == Lines(input[Newline(input) + 1..])
    ensures '\n' !in input ==> Lines(input) == []
  {
    var e := Newline(input);
    assert e < |input| ==> input[e] in input;
    if |input| > 4096 && e <= 4096 {
      assert input[..4097][e] == input[e];
    }
    if '\n' in input {
      assert Lines(input) == [Strip(input[..e])] + Lines(input[e + 1..]);
    }
    hide Newline, Lines, Strip;
  }

  /** `dispatch_line` on a connection that is reading: the first line of the input is submitted if it is
      complete, the connection waits while there is none, and goes if and only if it is too long. */
  lemma DispatchDecides(c: Conn)
    requires c.phase == Reading
    ensures var (c', job, alive) := Dispatch(c);
            && (alive <==> !TooLong(c.input))
            && (TooLong(c.input) ==> c' == c.(phase := Closed) && job == None)
            && ('\n' !in c.input && |c.input| <= 4096 ==> c' == c && job == None)
            && (Complete(c.input) ==>
                  && |Lines(c.input)| > 0 && job == Some(Lines(c.input)[0]) && c'.phase == Processing
                  && c'.taken == c.taken + [Lines(c.input)[0]] && Lines(c'.input) == Lines(c.input)[1..]
                  && c'.past + c'.input == c.past + c.input
                  && c' == c.(phase := Processing, input := c'.input, past := c'.past, taken := c'.taken))
  {
    FirstLine(c.input);
    hide Lines, Strip, Newline;
    var e := Newline(c.input);
    if e < |c.input| && e <= 4096 {
      assert c.input == c.input[..e + 1] + c.input[e + 1..];
    }
  }

  /** What has been received once an event has been handled, and whether the stream has ended. */
  function InputAfter(c: Conn, io: Io): string {
    if io.readable then c.input + io.data else c.input
  }

  predicate EofAfter(c: Conn, io: Io) {
    c.eof || (io.readable && io.ending == Eof) || io.hangup
  }

  /** Everything there was to send has been sent. */
  predicate AnswerSent(c: Conn, io: Io) {
    c.phase == Writing && io.writable && c.sent + io.accepted >= |c.output|
  }

  predicate SendFails(c: Conn, io: Io) {
    c.phase == Writing && io.writable && c.sent + io.accepted < |c.output| && io.fate != Blocked
  }

  predicate RecvFails(io: Io) {
    io.readable && io.ending == Failed
  }

  /** The connection is ready for its next line, and looks for one. */
  predicate Looks(c: Conn, io: Io) {
    (c.phase == Reading && (io.readable || EofAfter(c, io))) || AnswerSent(c, io)
  }

  /** Why an event closes its connection: recv or send has failed, the next line is too long, or the
      stream has ended and holds no further line. */
  predicate Reason(c: Conn, io: Io) {
    || RecvFails(io)
    || SendFails(c, io)
    || (Looks(c, io) && (TooLong(InputAfter(c, io)) || (EofAfter(c, io) && '\n' !in InputAfter(c, io))))
  }

  /** The next line is submitted. */
  predicate SubmitsLine(c: Conn, io: Io) {
    Looks(c, io) && !RecvFails(io) && Complete(InputAfter(c, io))
  }

  /** What an event has to come to: it closes its connection if and only if there is a reason to, and
      submits the next line if and only if the connection looks for one and it is complete. */
  ghost predicate Decided(c: Conn, io: Io, r: (Conn, Option<string>, bool)) {
    var input := InputAfter(c, io);
    && (r.2 <==> !Reason(c, io)) && (r.0.phase == Closed <==> Reason(c, io))
    && (if SubmitsLine(c, io) then Lines(input) != [] && r.1 == Some(Lines(input)[0]) else r.1 == None)
    && (r.2 ==> r.0.phase == if SubmitsLine(c, io) then Processing else if AnswerSent(c, io) then Reading else c.phase)
    && (r.2 ==> r.0.eof == EofAfter(c, io) && r.0.past + r.0.input == c.past + input)
  }

  /** The connection before the first part of an event that may dispatch, and with the hang-up noted. */
  function Heard(c: Conn, io: Io): Conn {
    if io.readable then Receive(c, io) else c
  }

  function HungUp(c: Conn, io: Io): Conn {
    if io.hangup then c.(eof := true) else c
  }

  lemma HeardIs(c: Conn, io: Io)
    ensures Heard(c, io).input == InputAfter(c, io) && HungUp(Heard(c, io), io).eof == EofAfter(c, io)
    ensures Heard(c, io).past + Heard(c, io).input == c.past + InputAfter(c, io)
    ensures TooLong(InputAfter(c, io)) || Complete(InputAfter(c, io))
            || ('\n' !in InputAfter(c, io) && |InputAfter(c, io)| <= 4096)
  {
    FirstLine(InputAfter(c, io));
    hide Newline, Lines, Strip;
  }

  lemma FailedEvent(c: Conn, io: Io)
    requires c.phase != Closed && c.sent <= |c.output| && RecvFails(io)
    ensures Decided(c, io, OnEvent(c, io))
  {
    hide Lines, Dispatch;
  }

  lemma EventWhileProcessing(c: Conn, io: Io)
    requires c.phase == Processing && c.sent <= |c.output| && !RecvFails(io)
    ensures Decided(c, io, OnEvent(c, io))
  {
    HeardIs(c, io);
    hide Lines, Newline, Strip, TooLong;
  }

  /** Reading, the event in its parts: one dispatch if there was something to read, and one at the end of
      the stream if the connection is still reading then. */
  lemma ReadingEvent(c: Conn, io: Io)
    requires c.phase == Reading && c.sent <= |c.output| && !RecvFails(io)
    ensures var c1 := Heard(c, io);
            var c2 := HungUp(c1, io);
            && (!Looks(c, io) ==> OnEvent(c, io) == (c2, None, true))
            && (Looks(c, io) && TooLong(c1.input) ==> OnEvent(c, io) == (c2.(phase := Closed), None, false))
            && (Looks(c, io) && '\n' !in c1.input && |c1.input| <= 4096 ==>
                  OnEvent(c, io) == if c2.eof then (c2.(phase := Closed), None, false) else (c2, None, true))
  {
    DispatchDecides(Heard(c, io));
    DispatchDecides(HungUp(Heard(c, io), io));
    hide Dispatch, Lines, TooLong, Complete;
  }

  lemma DispatchComplete(c: Conn)
    requires c.phase == Reading && Complete(c.input)
    ensures Dispatch(c).0.phase == Processing && Dispatch(c).1.Some? && Dispatch(c).2
  {
    FirstLine(c.input);
    hide Newline, Lines, Strip;
  }

  lemma DispatchSendsNothing(c: Conn)
    ensures Dispatch(c).0.delivered == c.delivered
  {
    hide Newline, Strip;
  }

  lemma ReadingSubmits(c: Conn, io: Io)
    requires c.phase == Reading && c.sent <= |c.output| && SubmitsLine(c, io)
    ensures var c1 := Heard(c, io);
            OnEvent(c, io) == if io.readable then (HungUp(Dispatch(c1).0, io), Dispatch(c1).1, true)
                              else Dispatch(HungUp(c1, io))
  {
    HeardIs(c, io);
    DispatchComplete(Heard(c, io));
    DispatchComplete(HungUp(Heard(c, io), io));
    hide Dispatch, TooLong, Complete;
  }

  lemma EventWhileReading(c: Conn, io: Io)
    requires c.phase == Reading && c.sent <= |c.output| && !RecvFails(io)
    ensures Decided(c, io, OnEvent(c, io))
  {
    HeardIs(c, io);
    ReadingEvent(c, io);
    if SubmitsLine(c, io) {
      ReadingSubmits(c, io);
      DispatchDecides(Heard(c, io));
      DispatchDecides(HungUp(Heard(c, io), io));
    }
    hide OnEvent, Dispatch, Lines, TooLong;
  }

  /** Writing, the connection once all is sent. */
  function Answered(c: Conn, io: Io): Conn
    requires c.sent <= |c.output|
  {
    Send(Heard(c, io), io.accepted).(output := "", sent := 0, phase := Reading)
  }

  lemma WritingEvent(c: Conn, io: Io)
    requires c.phase == Writing && c.sent <= |c.output| && !RecvFails(io)
    ensures var c1 := Heard(c, io);
            && (!io.writable ==> OnEvent(c, io) == (HungUp(c1, io), None, true))
            && (SendFails(c, io) ==>
                  OnEvent(c, io) == (HungUp(Send(c1, io.accepted), io).(phase := Closed), None, false))
            && (io.writable && !AnswerSent(c, io) && !SendFails(c, io) ==>
                  OnEvent(c, io) == (HungUp(Send(c1, io.accepted), io), None, true))
  {
    assert Dispatch(Heard(c, io)) == (Heard(c, io), None, true);
    hide Dispatch, Lines, TooLong, Complete;
  }

  lemma AnsweredWaits(c: Conn, io: Io)
    requires c.phase == Writing && c.sent <= |c.output| && !RecvFails(io) && AnswerSent(c, io)
    requires !Complete(InputAfter(c, io))
    ensures var c3 := HungUp(Answered(c, io), io);
            OnEvent(c, io) == if TooLong(c3.input) || c3.eof then (c3.(phase := Closed), None, false)
                              else (c3, None, true)
  {
    assert Dispatch(Heard(c, io)) == (Heard(c, io), None, true);
    HeardIs(c, io);
    DispatchDecides(Answered(c, io));
    DispatchDecides(HungUp(Answered(c, io), io));
    hide Dispatch, Lines, TooLong, Complete;
  }

  lemma AnsweredSubmits(c: Conn, io: Io)
    requires c.phase == Writing && c.sent <= |c.output| && !RecvFails(io) && AnswerSent(c, io)
    requires Complete(InputAfter(c, io))
    ensures var d := Dispatch(Answered(c, io));
            OnEvent(c, io) == (HungUp(d.0, io), d.1, true)
  {
    assert Dispatch(Heard(c, io)) == (Heard(c, io), None, true);
    HeardIs(c, io);
    DispatchComplete(Answered(c, io));
    hide Dispatch, TooLong, Complete;
  }

  lemma EventWhileWriting(c: Conn, io: Io)
    requires c.phase == Writing && c.sent <= |c.output| && !RecvFails(io)
    ensures Decided(c, io, OnEvent(c, io))
  {
    HeardIs(c, io);
    if AnswerSent(c, io) {
      if Complete(InputAfter(c, io)) {
        AnsweredSubmits(c, io);
        DispatchDecides(Answered(c, io));
      } else {
        AnsweredWaits(c, io);
      }
    } else {
      WritingEvent(c, io);
    }
    hide OnEvent, Dispatch, Lines, TooLong;
  }

  lemma EventDecides(c: Conn, io: Io)
    requires c.phase != Closed && c.sent <= |c.output|
    ensures Decided(c, io, OnEvent(c, io))
  {
    hide OnEvent, Decided;
    if RecvFails(io) {
      FailedEvent(c, io);
    } else {
      match c.phase
      case Reading => EventWhileReading(c, io);
      case Processing => EventWhileProcessing(c, io);
      case Writing => EventWhileWriting(c, io);
    }
  }

  lemma SendTakes(c: Conn, n: nat)
    requires c.sent <= |c.output|
    ensures var rest := c.output[c.sent..];
            Send(c, n).delivered == c.delivered + if n <= |rest| then rest[..n] else rest
  {
    var rest := c.output[c.sent..];
    assert n <= |rest| ==> c.output[c.sent..c.sent + n] == rest[..n];
  }

  /** The bytes an event sends are the next ones of the answer, as many as send takes. */
  lemma EventSends(c: Conn, io: Io)
    requires c.phase != Closed && c.sent <= |c.output|
    ensures var rest, c' := c.output[c.sent..], OnEvent(c, io).0;
            c'.delivered == c.delivered + if c.phase != Writing || !io.writable || RecvFails(io) then ""
                                          else if io.accepted <= |rest| then rest[..io.accepted] else rest
  {
    HeardIs(c, io);
    SendTakes(Heard(c, io), io.accepted);
    assert Answered(c, io).delivered == Send(Heard(c, io), io.accepted).delivered;
    DispatchSendsNothing(Heard(c, io));
    DispatchSendsNothing(HungUp(Heard(c, io), io));
    DispatchSendsNothing(Answered(c, io));
    if RecvFails(io) {
      hide Dispatch;
    } else if c.phase == Reading {
      ReadingEvent(c, io);
      if SubmitsLine(c, io) {
        ReadingSubmits(c, io);
      }
      hide OnEvent, Dispatch, TooLong, Complete;
    } else if c.phase == Processing {
      hide Newline, Strip, TooLong, Complete;
    } else if !AnswerSent(c, io) {
      WritingEvent(c, io);
      hide OnEvent, Dispatch, Send;
    } else if Complete(InputAfter(c, io)) {
      AnsweredSubmits(c, io);
      hide OnEvent, Dispatch, TooLong, Complete, Send, Answered;
    } else {
      AnsweredWaits(c, io);
      hide OnEvent, Dispatch, TooLong, Complete, Send, Answered;
    }
  }
}
