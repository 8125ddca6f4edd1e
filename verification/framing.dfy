/** Length-prefixed frames over a blocking socket (net.hpp). */
module Framing {

  import opened Streams

  datatype Result = Frame(body: seq<Byte>) | End | Error

  const MAX_FRAME: nat := 1024 * 1024

  // ----- the wire format

  /** htonl: the length, most significant byte first. */
  function Header(n: nat): (h: seq<Byte>)
    requires n < 0x1_0000_0000
    ensures |h| == 4
  {
    [n / 0x100_0000, n / 0x1_0000 % 256, n / 256 % 256, n % 256]
  }

  /** ntohl. */
  function Length(h: seq<Byte>): (n: nat)
    requires |h| == 4
    ensures n < 0x1_0000_0000
  {
    var a: int, b: int, c: int := h[0], h[1], h[2];
    a * 0x100_0000 + b * 0x1_0000 + c * 256 + h[3]
  }

  lemma LengthOfHeader(n: nat)
    requires n < 0x1_0000_0000
    ensures Length(Header(n)) == n
  {
    assert n / 256 / 256 == n / 0x1_0000 && n / 0x1_0000 / 256 == n / 0x100_0000;
  }

  /** Network byte order: the first byte of a header weighs most. */
  lemma NetworkOrder(n: nat)
    requires n < 0x1_0000_0000
    ensures var a: int, b: int, c: int, d: int := Header(n)[0], Header(n)[1], Header(n)[2], Header(n)[3];
            n == 16777216 * a + 65536 * b + 256 * c + d
  {
    assert n / 256 / 256 == n / 0x1_0000 && n / 0x1_0000 / 256 == n / 0x100_0000;
  }

  /** Any four bytes are the header of the length they are read as. */
  lemma HeaderOfLength(h: seq<Byte>)
    requires |h| == 4
    ensures Header(Length(h)) == h
  {
    var a: int, b: int, c: int, d: int := h[0], h[1], h[2], h[3];
    var n := Length(h);
    assert n == 256 * (256 * (256 * a + b) + c) + d;
    assert n / 256 == 256 * (256 * a + b) + c && n % 256 == d;
    assert n / 256 / 256 == 256 * a + b && n / 256 % 256 == c;
    assert n / 256 / 256 / 256 == a && n / 256 / 256 % 256 == b;
    assert n / 256 / 256 == n / 0x1_0000 && n / 0x1_0000 / 256 == n / 0x100_0000;
  }

  /** The frames of a list of bodies, one after the other. */
  function Encode(bodies: seq<seq<Byte>>): seq<Byte>
    requires Sendable(bodies)
  {
    if bodies == [] then [] else Header(|bodies[0]|) + bodies[0] + Encode(bodies[1..])
  }

  predicate Sendable(bodies: seq<seq<Byte>>) {
    forall i :: 0 <= i < |bodies| ==> |bodies[i]| <= MAX_FRAME
  }

  /** `recv_frame` on a stream that is read to its end: what it answers and what it leaves. */
  function Parse(wire: seq<Byte>): (r: (Result, seq<Byte>))
    ensures r.0.Frame? ==> |r.1| < |wire|
  {
    if wire == [] then (End, [])
    else if |wire| < 4 then (Error, [])
    else
      var size := Length(wire[..4]);
      if size > MAX_FRAME then (Error, wire[4..])
      else if |wire| < 4 + size then (Error, [])
      else (Frame(wire[4..4 + size]), wire[4 + size..])
  }

  /** Frames until there is none. */
  function Decode(wire: seq<Byte>): (seq<seq<Byte>>, Result)
    decreases |wire|
  {
    var (r, rest) := Parse(wire);
    if r.Frame? then
      var (bodies, last) := Decode(rest);
      ([r.body] + bodies, last)
    else ([], r)
  }

  // ----- the calls

  /** `send_all`. */
  method SendAll(fd: Sink, bytes: seq<Byte>) returns (ok: bool)
    modifies fd
    ensures ok ==> fd.written == old(fd.written) + bytes
    ensures !ok ==> !NoFailure(old(fd.script)) && old(fd.written) <= fd.written <= old(fd.written) + bytes
    ensures NoFailure(old(fd.script)) ==> NoFailure(fd.script)
  {
    hide NoFailure;
    var rest := bytes;
    ghost var k := 0;
    while rest != []
      invariant 0 <= k <= |bytes| && rest == bytes[k..] && fd.written == old(fd.written) + bytes[..k]
      invariant NoFailure(old(fd.script)) ==> NoFailure(fd.script)
      decreases |rest|, |fd.script|
    {
      ghost var answers := fd.script;
      var n, errno := fd.Write(rest);
      LaterNoFailure(answers);
      if n < 0 {
        if errno == EINTR {
          continue;
        }
        return false;
      }
      if n == 0 {
        return false;
      }
      Onwards(bytes, k, n);
      rest, k := rest[n..], k + n;
    }
    ok := true;
  }

  /** How `recv_exact` ends: the field is filled, the stream was at its end, or an exception. */
  datatype Exactly = Full | AtEnd | Thrown

  /** `recv_exact`. */
  method RecvExact(fd: Source, bytes: array<Byte>) returns (r: Exactly)
    modifies fd, bytes
    ensures NoFailure(old(fd.script)) ==>
              && NoFailure(fd.script)
              && r == (if |old(fd.left)| >= bytes.Length then Full else if old(fd.left) == [] then AtEnd else Thrown)
    ensures r == Full ==>
              && |old(fd.left)| >= bytes.Length
              && bytes[..] == old(fd.left)[..bytes.Length] && fd.left == old(fd.left)[bytes.Length..]
    ensures r == AtEnd ==> old(fd.left) == [] && fd.left == []
    ensures |fd.left| <= |old(fd.left)|
    ensures NoFailure(old(fd.script)) && r == Thrown ==> fd.left == []
  {
    hide NoFailure;
    var done := 0;
    ghost var all := fd.left;
    while done < bytes.Length
      invariant 0 <= done <= bytes.Length && done <= |all|
      invariant bytes[..done] == all[..done] && fd.left == all[done..]
      invariant NoFailure(old(fd.script)) ==> NoFailure(fd.script)
      decreases bytes.Length - done, |fd.script|
    {
      ghost var was, answers := bytes[..], fd.script;
      var n, errno := fd.Read(bytes, done, bytes.Length - done);
      LaterNoFailure(answers);
      if n < 0 {
        if errno == EINTR {
          continue;
        }
        return Thrown;
      }
      if n == 0 {
        return if done == 0 then AtEnd else Thrown;
      }
      assert bytes[..done] == was[..done];
      assert bytes[..done + n] == bytes[..done] + bytes[done..done + n];
      done := done + n;
    }
    r := Full;
  }

  /** `send_frame`. */
  method SendFrame(fd: Sink, body: seq<Byte>) returns (ok: bool)
    modifies fd
    ensures |body| > MAX_FRAME ==> !ok && fd.written == old(fd.written)
    ensures ok ==> |body| <= MAX_FRAME && fd.written == old(fd.written) + Header(|body|) + body
    ensures NoFailure(old(fd.script)) ==> NoFailure(fd.script) && (ok <==> |body| <= MAX_FRAME)
  {
    if |body| > MAX_FRAME {
      return false;
    }
    ok := SendAll(fd, Header(|body|));
    if ok {
      ok := SendAll(fd, body);
    }
  }

  /** `recv_frame`. */
  method RecvFrame(fd: Source) returns (r: Result)
    modifies fd
    ensures NoFailure(old(fd.script)) ==> NoFailure(fd.script) && (r, fd.left) == Parse(old(fd.left))
    ensures r.Frame? ==> (r, fd.left) == Parse(old(fd.left))
    ensures r == End ==> old(fd.left) == []
  {
    hide NoFailure, Length;
    ghost var all := fd.left;
    var len := new Byte[4];
    var got := RecvExact(fd, len);
    if got != Full {
      return if got == AtEnd then End else Error;
    }
    assert len[..] == all[..4];
    var size := Length(len[..]);
    if size > MAX_FRAME {
      return Error;
    }
    var body := new Byte[size];
    got := RecvExact(fd, body);
    if got != Full {
      return Error;
    }
    assert all[4..][..size] == all[4..4 + size];
    assert all[4..][size..] == all[4 + size..];
    return Frame(body[..]);
  }

  // ----- round trip

  lemma ParseFrame(body: seq<Byte>, rest: seq<Byte>)
    requires |body| <= MAX_FRAME
    ensures Parse(Header(|body|) + body + rest) == (Frame(body), rest)
  {
    var wire := Header(|body|) + body + rest;
    LengthOfHeader(|body|);
    assert wire[..4] == Header(|body|);
    hide Header, Length;
    assert wire[4..4 + |body|] == body && wire[4 + |body|..] == rest;
  }

  /** What is read behind a header: a body of up to 1048576 bytes, an error for a longer one, and an error
      for one that is cut short. */
  lemma BehindHeader(n: nat, rest: seq<Byte>)
    requires n < 0x1_0000_0000
    ensures Parse(Header(n) + rest) ==
            if n > 1048576 then (Error, rest)
            else if |rest| < n then (Error, [])
            else (Frame(rest[..n]), rest[n..])
  {
    LengthOfHeader(n);
    assert (Header(n) + rest)[..4] == Header(n) && (Header(n) + rest)[4..] == rest;
    hide Header, Length;
    if n <= |rest| {
      assert (Header(n) + rest)[4..4 + n] == rest[..n] && (Header(n) + rest)[4 + n..] == rest[n..];
    }
  }

  /** Every list of bodies comes back in order, and then the end. */
  lemma {:induction false} RoundTrip(bodies: seq<seq<Byte>>)
    requires Sendable(bodies)
    ensures Decode(Encode(bodies)) == (bodies, End)
    decreases |bodies|
  {
    if bodies != [] {
      ParseFrame(bodies[0], Encode(bodies[1..]));
      RoundTrip(bodies[1..]);
      assert bodies == [bodies[0]] + bodies[1..];
      hide Header, Parse;
    }
  }

  /** How many of the frames lie wholly within the first `k` bytes. */
  function Complete(bodies: seq<seq<Byte>>, k: nat): (m: nat)
    ensures m <= |bodies|
    decreases |bodies|
  {
    if bodies == [] || k < 4 + |bodies[0]| then 0 else 1 + Complete(bodies[1..], k - 4 - |bodies[0]|)
  }

  lemma CutFrame(body: seq<Byte>, rest: seq<Byte>, k: nat)
    requires |body| <= MAX_FRAME && k <= 4 + |body| + |rest|
    ensures var wire := (Header(|body|) + body + rest)[..k];
            if k == 0 then Parse(wire).0 == End
            else if k < 4 + |body| then Parse(wire).0 == Error
            else Parse(wire) == (Frame(body), rest[..k - 4 - |body|])
  {
    var wire := (Header(|body|) + body + rest)[..k];
    if k >= 4 + |body| {
      assert wire == Header(|body|) + body + rest[..k - 4 - |body|];
      ParseFrame(body, rest[..k - 4 - |body|]);
    } else if k >= 4 {
      LengthOfHeader(|body|);
      assert wire[..4] == Header(|body|);
    }
    hide Header, Length;
  }

  lemma DecodeFrame(wire: seq<Byte>, body: seq<Byte>, rest: seq<Byte>)
    requires Parse(wire) == (Frame(body), rest)
    ensures Decode(wire) == ([body] + Decode(rest).0, Decode(rest).1)
  {
  }

  lemma EncodeFirst(bodies: seq<seq<Byte>>, m: nat)
    requires Sendable(bodies) && 0 < m <= |bodies|
    ensures Sendable(bodies[1..]) && Sendable(bodies[..m]) && Sendable(bodies[1..][..m - 1])
    ensures |Encode(bodies[..m])| == 4 + |bodies[0]| + |Encode(bodies[1..][..m - 1])|
    ensures bodies[..m] == [bodies[0]] + bodies[1..][..m - 1]
  {
    assert bodies[..m][1..] == bodies[1..][..m - 1];
    hide Header;
  }

  /** A wire cut anywhere gives exactly the complete frames; then the end if it was cut between two
      frames, and an error otherwise. */
  lemma {:induction false} Truncated(bodies: seq<seq<Byte>>, k: nat)
    requires Sendable(bodies) && k <= |Encode(bodies)|
    ensures var m := Complete(bodies, k);
            Decode(Encode(bodies)[..k]) ==
              (bodies[..m], if k == |Encode(bodies[..m])| then End else Error)
    decreases |bodies|
  {
    hide Header, Parse;
    var m := Complete(bodies, k);
    if bodies == [] {
      EmptyWire();
      assert Encode(bodies)[..k] == [];
    } else {
      var body, later := bodies[0], bodies[1..];
      CutFrame(body, Encode(later), k);
      if m == 0 {
        assert bodies[..0] == [];
      } else {
        Truncated(later, k - 4 - |body|);
        EncodeFirst(bodies, m);
        hide Decode, Encode;
        DecodeFrame(Encode(bodies)[..k], body, Encode(later)[..k - 4 - |body|]);
      }
    }
  }

  lemma EmptyWire()
    ensures Parse([]) == (End, [])
  {
  }

  // ----- whole transfers

  /** `send_frame` for each body. */
  method SendFrames(fd: Sink, bodies: seq<seq<Byte>>) returns (ok: bool)
    requires Sendable(bodies)
    modifies fd
    ensures ok ==> fd.written == old(fd.written) + Encode(bodies)
    ensures NoFailure(old(fd.script)) ==> ok
  {
    hide NoFailure, Header;
    var i := 0;
    while i < |bodies|
      invariant 0 <= i <= |bodies| && fd.written == old(fd.written) + Encode(bodies[..i])
      invariant NoFailure(old(fd.script)) ==> NoFailure(fd.script)
    {
      ok := SendFrame(fd, bodies[i]);
      if !ok {
        return;
      }
      EncodeAppend(bodies[..i], bodies[i]);
      assert bodies[..i + 1] == bodies[..i] + [bodies[i]];
      i := i + 1;
    }
    assert bodies[..i] == bodies;
    ok := true;
  }

  lemma {:induction false} EncodeAppend(bodies: seq<seq<Byte>>, body: seq<Byte>)
    requires Sendable(bodies) && |body| <= MAX_FRAME
    ensures Sendable(bodies + [body]) && Encode(bodies + [body]) == Encode(bodies) + (Header(|body|) + body)
    decreases |bodies|
  {
    hide Header;
    if bodies == [] {
      assert bodies + [body] == [body];
      assert Encode([body]) == Header(|body|) + body + Encode([body][1..]);
    } else {
      EncodeAppend(bodies[1..], body);
      assert (bodies + [body])[1..] == bodies[1..] + [body];
    }
  }

  /** `recv_frame` until it answers something else than a frame. */
  method RecvFrames(fd: Source) returns (bodies: seq<seq<Byte>>, last: Result)
    modifies fd
    ensures NoFailure(old(fd.script)) ==> (bodies, last) == Decode(old(fd.left))
  {
    hide NoFailure, Parse, Decode;
    bodies := [];
    ghost var wire := fd.left;
    assert [] + Decode(wire).0 == Decode(wire).0;
    while true
      invariant NoFailure(old(fd.script)) ==>
                  && NoFailure(fd.script)
                  && Decode(wire).0 == bodies + Decode(fd.left).0 && Decode(wire).1 == Decode(fd.left).1
      decreases |fd.left|
    {
      ghost var left := fd.left;
      last := RecvFrame(fd);
      DecodeStep(left, bodies);
      if !last.Frame? {
        return;
      }
      bodies := bodies + [last.body];
    }
  }

  lemma DecodeStep(wire: seq<Byte>, bodies: seq<seq<Byte>>)
    ensures var (r, rest) := Parse(wire);
            if r.Frame? then
              bodies + Decode(wire).0 == (bodies + [r.body]) + Decode(rest).0 && Decode(wire).1 == Decode(rest).1
            else bodies + Decode(wire).0 == bodies && Decode(wire).1 == r
  {
    hide Parse;
  }

  /** From one end of a connection to the other, however both kernels chop the bytes. */
  method Transfer(bodies: seq<seq<Byte>>, sending: seq<Answer>, receiving: seq<Answer>)
    returns (got: seq<seq<Byte>>, last: Result)
    requires Sendable(bodies) && NoFailure(sending) && NoFailure(receiving)
    ensures got == bodies && last == End
  {
    var sink := new Sink(sending);
    var ok := SendFrames(sink, bodies);
    assert sink.written == Encode(bodies);
    var source := new Source(sink.written, receiving);
    got, last := RecvFrames(source);
    RoundTrip(bodies);
  }
}
