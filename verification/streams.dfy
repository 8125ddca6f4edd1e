/** The kernel's side of a byte stream: read and write move as many bytes as they like, and may be
    interrupted or fail.  A script of answers stands for these choices. */
module Streams {

  type Byte = b: int | 0 <= b < 256

  /** One answer: up to `count` bytes, an interrupt (EINTR), or another error. */
  datatype Answer = Moves(count: nat) | Interrupts | Fails

  datatype Errno = EINTR | EIO

  function Min(a: nat, b: nat): nat {
    if a < b then a else b
  }

  ghost predicate NoFailure(script: seq<Answer>) {
    forall i :: 0 <= i < |script| ==> script[i] != Fails
  }

  /** How many bytes a call for `n` out of `m` moves: at least one if there is one. */
  function Share(script: seq<Answer>, n: nat, m: nat): (k: nat)
    ensures k <= n && k <= m
    ensures k == 0 <==> n == 0 || m == 0
  {
    if script != [] && script[0].Moves? && 0 < script[0].count < Min(n, m) then script[0].count else Min(n, m)
  }

  /** `buf` holds `data` from `off` on, and is otherwise as it was. */
  ghost predicate Filled(now: seq<Byte>, was: seq<Byte>, off: nat, data: seq<Byte>) {
    && |now| == |was| && off + |data| <= |was|
    && now[..off] == was[..off] && now[off..off + |data|] == data && now[off + |data|..] == was[off + |data|..]
  }

  lemma FilledTwice(a: seq<Byte>, b: seq<Byte>, c: seq<Byte>, off: nat, d: seq<Byte>, e: seq<Byte>)
    requires Filled(b, a, off, d) && Filled(c, b, off + |d|, e)
    ensures Filled(c, a, off, d + e)
  {
    forall i | 0 <= i < |a|
      ensures c[i] == if i < off then a[i] else if i < off + |d| then d[i - off]
                      else if i < off + |d| + |e| then e[i - off - |d|] else a[i]
    {
      if i < off {
        assert c[..off + |d|][i] == b[..off + |d|][i] && b[..off][i] == a[..off][i];
      } else if i < off + |d| {
        assert c[..off + |d|][i] == b[..off + |d|][i] && b[off..off + |d|][i - off] == d[i - off];
      } else if i < off + |d| + |e| {
        assert c[off + |d|..off + |d| + |e|][i - off - |d|] == e[i - off - |d|];
      } else {
        assert c[off + |d| + |e|..][i - off - |d| - |e|] == b[off + |d| + |e|..][i - off - |d| - |e|];
        assert b[off + |d|..][i - off - |d|] == a[off + |d|..][i - off - |d|];
      }
    }
  }

  lemma Onwards(all: seq<Byte>, a: nat, b: nat)
    requires a + b <= |all|
    ensures all[..a] + all[a..][..b] == all[..a + b] && all[a..][b..] == all[a + b..]
  {
  }

  lemma LaterNoFailure(script: seq<Answer>)
    ensures NoFailure(script) ==> NoFailure(if script == [] then [] else script[1..])
  {
  }

  /** A descriptor to read from: the bytes still to come, and how the next calls will go. */
  class Source {
    var left: seq<Byte>
    var script: seq<Answer>

    constructor (wire: seq<Byte>, answers: seq<Answer>)
      ensures left == wire && script == answers
    {
      left, script := wire, answers;
    }

    /** read, recv. */
    method Read(buf: array<Byte>, off: nat, n: nat) returns (r: int, errno: Errno)
      requires off + n <= buf.Length
      modifies this, buf
      ensures r >= 0 ==>
                && r == Share(old(script), n, |old(left)|)
                && Filled(buf[..], old(buf[..]), off, old(left)[..r]) && left == old(left)[r..]
      ensures r < 0 ==> left == old(left) && buf[..] == old(buf[..]) && old(script) != []
      ensures r < 0 && errno == EIO ==> !NoFailure(old(script))
      ensures script == if old(script) == [] then [] else old(script)[1..]
    {
      errno := EIO;
      if script != [] && script[0] == Interrupts {
        script := script[1..];
        return -1, EINTR;
      }
      if script != [] && script[0] == Fails {
        script := script[1..];
        return -1, EIO;
      }
      var k := Share(script, n, |left|);
      forall j | off <= j < off + k {
        buf[j] := left[j - off];
      }
      left := left[k..];
      script := if script == [] then [] else script[1..];
      r := k;
    }
  }

  /** A descriptor to write to: the bytes written, and how the next calls will go. */
  class Sink {
    var written: seq<Byte>
    var script: seq<Answer>

    constructor (answers: seq<Answer>)
      ensures written == [] && script == answers
    {
      written, script := [], answers;
    }

    /** write, send. */
    method Write(buf: seq<Byte>) returns (r: int, errno: Errno)
      modifies this
      ensures r >= 0 ==> r == Share(old(script), |buf|, |buf|) && written == old(written) + buf[..r]
      ensures r < 0 ==> written == old(written) && old(script) != []
      ensures r < 0 && errno == EIO ==> !NoFailure(old(script))
      ensures script == if old(script) == [] then [] else old(script)[1..]
    {
      errno := EIO;
      if script != [] && script[0] == Interrupts {
        script := script[1..];
        return -1, EINTR;
      }
      if script != [] && script[0] == Fails {
        script := script[1..];
        return -1, EIO;
      }
      r := Share(script, |buf|, |buf|);
      written := written + buf[..r];
      script := if script == [] then [] else script[1..];
    }
  }
}
