/** `Connection` as the object the event loop updates (framework_server.cpp), proved against the
    functions of `ServerConnection`. */
module ServerPeer {

  import opened Options
  import opened ServerConnection

  /** One answer of recv or send other than the last. */
  datatype Recv = Got(data: string) | RecvInterrupted
  datatype Sent = Took(n: nat) | SendInterrupted

  function Gathered(script: seq<Recv>): string {
    if script == [] then ""
    else Gathered(script[..|script| - 1]) + match script[|script| - 1]
                                            case Got(d) => d
                                            case RecvInterrupted => ""
  }

  lemma SameReading(c: Conn, io: Io, took: nat, end: Ending)
    ensures OnReadable(c, io.(accepted := took, fate := end)) == OnReadable(c, io)
  {
  }

  /** How many of `room` bytes a run of answers to send takes, and whether an answer of 0 ends it. */
  function Accepted(script: seq<Sent>, room: nat): (r: (nat, bool))
    ensures r.0 <= room
    decreases |script|
  {
    if script == [] || room == 0 then (0, false)
    else match script[0]
         case SendInterrupted => Accepted(script[1..], room)
         case Took(n) =>
           if n == 0 then (0, true)
           else
             var k := if n <= room then n else room;
             var (more, stopped) := Accepted(script[1..], room - k);
             (k + more, stopped)
  }

  /** Whatever pieces recv yields, and however often it is interrupted, their bytes arrive in order. */
  lemma {:induction false} GatheredPieces(a: seq<Recv>, b: seq<Recv>)
    ensures Gathered(a + b) == Gathered(a) + Gathered(b)
    decreases |b|
  {
    if b == [] {
      assert a + b == a;
    } else {
      var rest := b[..|b| - 1];
      assert (a + b)[..|a + b| - 1] == a + rest && (a + b)[|a + b| - 1] == b[|b| - 1];
      GatheredPieces(a, rest);
      Associate(Gathered(a), Gathered(rest), match b[|b| - 1] case Got(d) => d case RecvInterrupted => "");
    }
  }

  lemma GatheredOne(d: string)
    ensures Gathered([]) == "" && Gathered([Got(d)]) == d && Gathered([RecvInterrupted]) == ""
  {
    assert [Got(d)][..0] == [] && [RecvInterrupted][..0] == [];
  }

  /** What the answers up to the first 0 add up to. */
  function Offered(script: seq<Sent>): nat {
    if script == [] || script[0] == Took(0) then 0
    else Offered(script[1..]) + if script[0].Took? then script[0].n else 0
  }

  /** Send takes what the answers offer, until all is sent or one of them is 0. */
  lemma {:induction false} AcceptedIs(script: seq<Sent>, room: nat)
    ensures Accepted(script, room)
         == (if Offered(script) < room then Offered(script) else room, Took(0) in script && Offered(script) < room)
    decreases |script|
  {
    if script != [] && room > 0 && script[0] != Took(0) {
      var tail := script[1..];
      assert script == [script[0]] + tail;
      var n := if script[0].Took? then script[0].n else 0;
      AcceptedIs(tail, if n <= room then room - n else 0);
    }
  }

  class Connection {
    var state: Phase
    var input: string
    var output: string
    var sent: nat
    var peerEof: bool
    ghost var past: string
    ghost var taken: seq<string>
    ghost var delivered: string

    ghost function Value(): Conn
      reads this
    {
      Conn(state, input, output, sent, peerEof, past, taken, delivered)
    }

    constructor ()
      ensures Value() == ACCEPTED
    {
      state, input, output, sent, peerEof := Reading, "", "", 0, false;
      past, taken, delivered := "", [], "";
    }

    /** `dispatch_line`; the job it submits is its second result. */
    method DispatchLine() returns (alive: bool, job: Option<string>)
      modifies this
      ensures (Value(), job, alive) == Dispatch(old(Value()))
    {
      job := None;
      if state != Reading {
        return true, None;
      }
      var end := Newline(input);
      if end == |input| {
        if |input| > MAX_LINE {
          state := Closed;
          return false, None;
        }
        return true, None;
      }
      if end > MAX_LINE {
        state := Closed;
        return false, None;
      }
      var line := input[..end];
      if line != "" && line[|line| - 1] == '\r' {
        line := line[..|line| - 1];
      }
      past, taken := past + input[..end + 1], taken + [line];
      input := input[end + 1..];
      state := Processing;
      return true, Some(line);
    }

    /** The recv loop. */
    method ReceiveAll(script: seq<Recv>, ending: Ending) returns (alive: bool)
      modifies this`input, this`peerEof
      ensures alive == (ending != Failed)
      ensures input == old(input) + Gathered(script) && peerEof == (old(peerEof) || ending == Eof)
    {
      var i := 0;
      while i < |script|
        invariant 0 <= i <= |script| && input == old(input) + Gathered(script[..i]) && peerEof == old(peerEof)
      {
        assert script[..i + 1][..i] == script[..i];
        match script[i] {
          case Got(data) => input := input + data;
          case RecvInterrupted =>
        }
        i := i + 1;
      }
      assert script[..i] == script;
      if ending == Eof {
        peerEof := true;
      }
      alive := ending != Failed;
    }

    /** The send loop: it goes on until all is sent, until send takes nothing, or until the script
        ends in `fate`. */
    method SendAll(script: seq<Sent>, fate: Ending) returns (alive: bool, ghost took: nat, ghost end: Ending)
      requires sent <= |output|
      modifies this`sent, this`delivered
      ensures took == Accepted(script, |output| - old(sent)).0 && sent == old(sent) + took
      ensures end == if Accepted(script, |output| - old(sent)).1 then Failed else fate
      ensures delivered == old(delivered) + output[old(sent)..sent]
      ensures alive == (sent == |output| || end == Blocked)
    {
      var i := 0;
      took, end := 0, fate;
      ghost var all := Accepted(script, |output| - sent);
      while sent < |output| && i < |script|
        invariant 0 <= i <= |script| && sent == old(sent) + took <= |output|
        invariant delivered == old(delivered) + output[old(sent)..sent]
        invariant all == (took + Accepted(script[i..], |output| - sent).0, Accepted(script[i..], |output| - sent).1)
        decreases |script| - i
      {
        assert script[i..][1..] == script[i + 1..] && script[i..][0] == script[i];
        match script[i] {
          case Took(n) =>
            if n == 0 {
              end := Failed;
              return false, took, end;
            }
            var k := if n <= |output| - sent then n else |output| - sent;
            assert output[old(sent)..sent + k] == output[old(sent)..sent] + output[sent..sent + k];
            delivered := delivered + output[sent..sent + k];
            sent, took := sent + k, took + k;
          case SendInterrupted =>
        }
        i := i + 1;
      }
      alive := sent == |output| || fate == Blocked;
    }

    /** The EPOLLIN part. */
    method Readable(readable: bool, recvs: seq<Recv>, ending: Ending, ghost io: Io)
      returns (alive: bool, job: Option<string>)
      requires io.readable == readable && io.data == Gathered(recvs) && io.ending == ending
      modifies this
      ensures (Value(), job, alive) == OnReadable(old(Value()), io) && output == old(output) && sent == old(sent)
      ensures old(state) == Writing ==> state == Writing && alive == !(readable && ending == Failed)
    {
      alive, job := true, None;
      if readable {
        alive := ReceiveAll(recvs, ending);
        if alive {
          alive, job := DispatchLine();
        }
      }
    }

    /** The EPOLLOUT part. */
    method Writable(writable: bool, sends: seq<Sent>, fate: Ending)
      returns (alive: bool, job: Option<string>, ghost took: nat, ghost end: Ending)
      requires sent <= |output|
      modifies this
      ensures forall io: Io :: io.writable == writable && io.accepted == took && io.fate == end ==>
                (Value(), job, alive) == OnWritable(old(Value()), io)
      ensures writable && old(state) == Writing ==>
                && took == Accepted(sends, |old(output)| - old(sent)).0
                && end == if Accepted(sends, |old(output)| - old(sent)).1 then Failed else fate
    {
      alive, job, took, end := true, None, 0, fate;
      if writable && state == Writing {
        alive, took, end := SendAll(sends, fate);
        if alive && sent == |output| {
          output, sent, state := "", 0, Reading;
          alive, job := DispatchLine();
        }
      }
    }

    /** The end of stream part. */
    method EndOfStream() returns (alive: bool, job: Option<string>)
      modifies this
      ensures (Value(), job, alive) == OnEof(old(Value()))
    {
      alive, job := true, None;
      if peerEof && state == Reading {
        alive, job := DispatchLine();
        if alive && state == Reading {
          alive := false;
        }
      }
    }

    /** The client branch of the event loop. */
    method ClientEvent(readable: bool, writable: bool, hangup: bool, recvs: seq<Recv>, ending: Ending,
                       sends: seq<Sent>, fate: Ending)
      returns (alive: bool, job: Option<string>, ghost io: Io)
      requires sent <= |output|
      modifies this
      ensures io.readable == readable && io.writable == writable && io.hangup == hangup
      ensures io.data == Gathered(recvs) && io.ending == ending
      ensures old(state) == Writing && writable && !(readable && ending == Failed) ==>
                && io.accepted == Accepted(sends, |old(output)| - old(sent)).0
                && io.fate == if Accepted(sends, |old(output)| - old(sent)).1 then Failed else fate
      ensures (Value(), job, alive) == OnEvent(old(Value()), io)
    {
      ghost var c, room := Value(), |output| - sent;
      hide OnReadable, OnWritable, OnEof, OnEvent, Accepted, Gathered;
      io := Io(readable, writable, hangup, Gathered(recvs), ending, 0, fate);
      alive, job := Readable(readable, recvs, ending, io);
      ghost var r1, w := (Value(), job, alive), (Value(), job, alive);
      if alive {
        ghost var took, end;
        var next;
        alive, next, took, end := Writable(writable, sends, fate);
        SameReading(c, io, took, end);
        io := io.(accepted := took, fate := end);
        w := (Value(), next, alive);
        job := if job != None then job else next;
      }
      if hangup {
        peerEof := true;
      }
      ghost var r2, e := (Value(), job, alive), (Value(), job, alive);
      assert r2 == OnHangup(if r1.2 then AndThen(r1, w) else r1, io);
      if alive {
        var next;
        alive, next := EndOfStream();
        e := (Value(), next, alive);
        job := if job != None then job else next;
      }
      hide OnHangup;
      EventParts(c, io, r1, w, r2, e);
      if !alive {
        state := Closed;
      }
    }
  }

  /** An event in its parts. */
  lemma EventParts(c: Conn, io: Io, r1: (Conn, Option<string>, bool), w: (Conn, Option<string>, bool),
                   r2: (Conn, Option<string>, bool), e: (Conn, Option<string>, bool))
    requires c.sent <= |c.output| && r1 == OnReadable(c, io)
    requires r1.2 ==> r1.0.sent <= |r1.0.output| && w == OnWritable(r1.0, io)
    requires r2 == OnHangup(if r1.2 then AndThen(r1, w) else r1, io) && (r2.2 ==> e == OnEof(r2.0))
    ensures var r3 := if r2.2 then AndThen(r2, e) else r2;
            OnEvent(c, io) == if r3.2 then r3 else (r3.0.(phase := Closed), r3.1, false)
  {
  }
}
