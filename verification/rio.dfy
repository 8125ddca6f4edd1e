/** The Rio package (csapp.c): buffered reading that hides how the kernel chops the stream. */
module Rio {

  import opened Streams

  const RIO_BUFSIZE: nat := 8192
  const NEWLINE: Byte := 10
  const NUL: Byte := 0

  /** Where a text line of a stream ends: after the first newline, after `limit` bytes, or with the
      stream, whichever is first. */
  function LineEnd(s: seq<Byte>, limit: nat): (e: nat)
    ensures e <= limit && e <= |s|
    ensures forall i :: 0 <= i < e - 1 ==> s[i] != 10
    ensures e == limit || e == |s| || (e > 0 && s[e - 1] == 10)
    decreases limit
  {
    if limit == 0 || s == [] then 0
    else if s[0] == NEWLINE then 1
    else 1 + LineEnd(s[1..], limit - 1)
  }

  /** No newline among the first `k` bytes. */
  ghost predicate Plain(s: seq<Byte>, k: int) {
    forall i :: 0 <= i < k && i < |s| ==> s[i] != NEWLINE
  }

  lemma PlainStart(s: seq<Byte>)
    ensures Plain(s, 0) && Plain(s, -1)
  {
  }

  lemma Extended(was: seq<Byte>, all: seq<Byte>, k: nat)
    requires k < |was| && k < |all| && was[..k] == all[..k]
    ensures was[k := all[k]][..k + 1] == all[..k + 1]
  {
    assert was[k := all[k]][..k + 1] == was[..k] + [all[k]];
  }

  lemma PlainStep(s: seq<Byte>, k: nat)
    requires Plain(s, k) && k < |s|
    ensures s[k] != NEWLINE ==> Plain(s, k + 1)
  {
  }

  /** `LineEnd` is the only such place. */
  lemma LineEndIs(s: seq<Byte>, limit: nat, e: nat)
    requires e <= limit && e <= |s| && Plain(s, e - 1)
    requires e == limit || e == |s| || (e > 0 && s[e - 1] == NEWLINE)
    ensures LineEnd(s, limit) == e
  {
    hide LineEnd;
  }

  lemma Taken(buf: seq<Byte>, ptr: int, cnt: int, left: seq<Byte>, k: int)
    requires 0 <= ptr && 0 <= k <= cnt && ptr + cnt <= |buf|
    ensures (buf[ptr..ptr + cnt] + left)[..k] == buf[ptr..ptr + k]
    ensures (buf[ptr..ptr + cnt] + left)[k..] == buf[ptr + k..ptr + cnt] + left
  {
  }

  lemma Front(now: seq<Byte>, was: seq<Byte>, data: seq<Byte>)
    requires Filled(now, was, 0, data)
    ensures |data| <= |now| && now[..|data|] == data
  {
  }

  lemma NextByte(all: seq<Byte>, i: nat)
    requires i < |all|
    ensures all[i..][0] == all[i] && all[i..][1..] == all[i + 1..] && all[..i + 1] == all[..i] + [all[i]]
  {
  }

  lemma OneByte(now: seq<Byte>, was: seq<Byte>, data: seq<Byte>)
    requires Filled(now, was, 0, data) && |data| == 1
    ensures |now| > 0 && now[0] == data[0]
  {
    assert now[0..1][0] == now[0];
  }

  lemma Nothing(usr: seq<Byte>, off: nat, stream: seq<Byte>)
    requires off <= |usr|
    ensures Filled(usr, usr, off, stream[..0]) && stream[0..] == stream
  {
  }

  class Reader {
    const source: Source
    const buf: array<Byte>
    var cnt: int
    var ptr: int

    ghost predicate Valid()
      reads this
    {
      buf.Length == RIO_BUFSIZE && (cnt > 0 ==> 0 <= ptr && ptr + cnt <= buf.Length)
    }

    /** The bytes read from the descriptor and not yet handed out. */
    ghost function Unread(): seq<Byte>
      requires Valid()
      reads this, buf
    {
      if cnt > 0 then buf[ptr..ptr + cnt] else []
    }

    /** Everything still to come. */
    ghost function Stream(): seq<Byte>
      requires Valid()
      reads this, buf, source
    {
      Unread() + source.left
    }

    /** `rio_readinitb`. */
    constructor (s: Source)
      ensures Valid() && source == s && Stream() == s.left && fresh(buf) && buf.Length == 8192
    {
      source := s;
      buf := new Byte[RIO_BUFSIZE];
      cnt, ptr := 0, 0;
    }

    /** One read into the empty buffer. */
    method Fill() returns (errno: Errno)
      requires Valid() && cnt <= 0
      modifies this, buf, source
      ensures Valid() && Stream() == old(Stream())
      ensures cnt == 0 ==> Stream() == []
      ensures cnt < 0 ==> old(source.script) != [] && (errno != EINTR ==> !NoFailure(old(source.script)))
      ensures source.script == if old(source.script) == [] then [] else old(source.script)[1..]
    {
      hide NoFailure, Filled;
      ghost var was, left := buf[..], source.left;
      cnt, errno := source.Read(buf, 0, RIO_BUFSIZE);
      if cnt > 0 {
        ptr := 0;
        Front(buf[..], was, left[..cnt]);
        assert buf[..][..cnt] == buf[0..cnt];
      }
    }

    /** The refill loop of `rio_read`. */
    method Refill() returns (r: int)
      requires Valid() && cnt <= 0
      modifies this, buf, source
      ensures Valid() && Stream() == old(Stream()) && r <= 1
      ensures r > 0 ==> cnt > 0
      ensures r == 0 ==> Stream() == []
      ensures r < 0 ==> !NoFailure(old(source.script))
      ensures |source.script| <= |old(source.script)| && (NoFailure(old(source.script)) ==> NoFailure(source.script))
    {
      hide NoFailure, Filled, Stream, Unread;
      while cnt <= 0
        invariant Valid() && Stream() == old(Stream())
        invariant |source.script| <= |old(source.script)| && (NoFailure(old(source.script)) ==> NoFailure(source.script))
        decreases |source.script| + if cnt <= 0 then 1 else 0
      {
        ghost var answers := source.script;
        var errno := Fill();
        LaterNoFailure(answers);
        if cnt < 0 {
          if errno != EINTR {
            return -1;
          }
        } else if cnt == 0 {
          return 0;
        }
      }
      r := 1;
    }

    /** `rio_read`. */
    method ReadSome(usr: array<Byte>, off: nat, n: nat) returns (r: int)
      requires Valid() && usr != buf && off + n <= usr.Length
      modifies this, buf, source, usr
      ensures Valid()
      ensures r >= 0 ==> r <= n && r <= |old(Stream())| && (r == 0 <==> n == 0 || old(Stream()) == [])
      ensures r >= 0 ==> Filled(usr[..], old(usr[..]), off, old(Stream())[..r]) && Stream() == old(Stream())[r..]
      ensures r < 0 ==> usr[..] == old(usr[..]) && Stream() == old(Stream()) && !NoFailure(old(source.script))
      ensures old(cnt) > 0 ==> r == Min(n, old(cnt)) && source.left == old(source.left) && source.script == old(source.script)
      ensures |source.script| <= |old(source.script)| && (NoFailure(old(source.script)) ==> NoFailure(source.script))
    {
      hide NoFailure, Filled, Stream;
      if cnt <= 0 {
        r := Refill();
        if r <= 0 {
          Nothing(usr[..], off, Stream());
          return;
        }
      }
      r := Serve(usr, off, n);
    }

    /** The copy at the end of `rio_read`. */
    method Serve(usr: array<Byte>, off: nat, n: nat) returns (k: nat)
      requires Valid() && usr != buf && off + n <= usr.Length && cnt > 0
      modifies this, usr
      ensures Valid() && k == Min(n, old(cnt)) && k <= |old(Stream())| && (k == 0 <==> n == 0) && old(Stream()) != []
      ensures Filled(usr[..], old(usr[..]), off, old(Stream())[..k]) && Stream() == old(Stream())[k..]
    {
      k := if cnt < n then cnt else n;
      Taken(buf[..], ptr, cnt, source.left, k);
      assert buf[ptr..ptr + cnt] == buf[..][ptr..ptr + cnt];
      assert buf[ptr + k..ptr + cnt] == buf[..][ptr + k..ptr + cnt];
      assert buf[ptr..ptr + k] == buf[..][ptr..ptr + k];
      Copy(usr, off, k);
      ptr, cnt := ptr + k, cnt - k;
      hide Filled;
    }

    /** The memcpy of `rio_read`. */
    method Copy(usr: array<Byte>, off: nat, k: nat)
      requires Valid() && usr != buf && off + k <= usr.Length && k <= cnt && cnt > 0
      modifies usr
      ensures Filled(usr[..], old(usr[..]), off, buf[ptr..ptr + k])
    {
      forall j | off <= j < off + k {
        usr[j] := buf[ptr + (j - off)];
      }
      ghost var was, data := old(usr[..]), buf[ptr..ptr + k];
      assert usr[off..off + k] == data;
      assert usr[..off] == was[..off];
      assert usr[off + k..] == was[off + k..];
    }

    /** `rio_readnb`: all of the next `n` bytes, or all there are. */
    method Readnb(usr: array<Byte>, n: nat) returns (r: int)
      requires Valid() && usr != buf && n <= usr.Length
      modifies this, buf, source, usr
      ensures Valid()
      ensures r >= 0 ==>
                && r == Min(n, |old(Stream())|)
                && Filled(usr[..], old(usr[..]), 0, old(Stream())[..r]) && Stream() == old(Stream())[r..]
      ensures r < 0 ==> !NoFailure(old(source.script))
      ensures |source.script| <= |old(source.script)| && (NoFailure(old(source.script)) ==> NoFailure(source.script))
    {
      hide Filled, NoFailure, Stream;
      var nleft, bufp := n, 0;
      ghost var all, usr0 := Stream(), usr[..];
      Nothing(usr0, 0, all);
      while nleft > 0
        invariant Valid() && nleft + bufp == n && 0 <= nleft && 0 <= bufp <= |all|
        invariant Filled(usr[..], usr0, 0, all[..bufp]) && Stream() == all[bufp..]
        invariant |source.script| <= |old(source.script)| && (NoFailure(old(source.script)) ==> NoFailure(source.script))
        decreases nleft
      {
        ghost var was := usr[..];
        var nread := ReadSome(usr, bufp, nleft);
        if nread < 0 {
          return -1;
        }
        Onwards(all, bufp, nread);
        FilledTwice(usr0, was, usr[..], 0, all[..bufp], all[bufp..][..nread]);
        if nread == 0 {
          assert |all[bufp..]| == |all| - bufp;
          break;
        }
        nleft, bufp := nleft - nread, bufp + nread;
      }
      return n - nleft;
    }

    /** `rio_read` of one byte. */
    method ReadByte() returns (rc: int, c: Byte)
      requires Valid()
      modifies this, buf, source
      ensures Valid()
      ensures rc >= 0 ==> rc == Min(1, |old(Stream())|) && Stream() == old(Stream())[rc..]
      ensures rc > 0 ==> c == old(Stream())[0]
      ensures rc < 0 ==> !NoFailure(old(source.script))
      ensures |source.script| <= |old(source.script)| && (NoFailure(old(source.script)) ==> NoFailure(source.script))
    {
      hide NoFailure, Filled, Stream;
      var byte := new Byte[1];
      ghost var was, all := byte[..], Stream();
      rc := ReadSome(byte, 0, 1);
      c := byte[0];
      if rc > 0 {
        OneByte(byte[..], was, all[..1]);
      }
    }

    /** One round of the loop of `rio_readlineb`: byte `k` of the stream goes to its place. */
    method ReadByteTo(usr: array<Byte>, k: nat, ghost all: seq<Byte>) returns (rc: int, c: Byte)
      requires Valid() && usr != buf && k < usr.Length && k <= |all| && Stream() == all[k..]
      modifies this, buf, source, usr
      ensures Valid()
      ensures rc < 0 ==> !NoFailure(old(source.script))
      ensures rc == 0 ==> k == |all| && usr[..] == old(usr[..]) && Stream() == all[k..]
      ensures rc > 0 ==> k < |all| && c == all[k] && Stream() == all[k + 1..] && usr[..] == old(usr[..])[k := c]
      ensures |source.script| <= |old(source.script)| && (NoFailure(old(source.script)) ==> NoFailure(source.script))
    {
      hide NoFailure, Stream, Unread;
      rc, c := ReadByte();
      if rc > 0 {
        NextByte(all, k);
        usr[k] := c;
      }
    }

    /** The loop of `rio_readlineb`: `k` bytes stored, `rc` the last answer of `rio_read`. */
    method Collect(usr: array<Byte>, maxlen: nat) returns (k: nat, rc: int)
      requires Valid() && usr != buf && 0 < maxlen <= usr.Length
      modifies this, buf, source, usr
      ensures Valid() && k < maxlen
      ensures rc >= 0 ==>
                && k == LineEnd(old(Stream()), maxlen - 1)
                && usr[..][..k] == old(Stream())[..k] && Stream() == old(Stream())[k..]
      ensures rc < 0 ==> !NoFailure(old(source.script))
      ensures |source.script| <= |old(source.script)| && (NoFailure(old(source.script)) ==> NoFailure(source.script))
    {
      ghost var all := Stream();
      hide Filled, NoFailure, Stream, Unread, LineEnd, Plain, Valid;
      k, rc := 0, 1;
      PlainStart(all);
      while k + 1 < maxlen
        invariant Valid() && k < maxlen && k <= |all|
        invariant Stream() == all[k..] && usr[..][..k] == all[..k]
        invariant Plain(all, k) && Plain(all, k - 1)
        invariant |source.script| <= |old(source.script)| && (NoFailure(old(source.script)) ==> NoFailure(source.script))
      {
        ghost var was := usr[..];
        var c;
        rc, c := ReadByteTo(usr, k, all);
        if rc < 0 {
          return;
        }
        if rc == 0 {
          LineEndIs(all, maxlen - 1, k);
          return;
        }
        PlainStep(all, k);
        Extended(was, all, k);
        k := k + 1;
        if c == NEWLINE {
          LineEndIs(all, maxlen - 1, k);
          return;
        }
      }
      LineEndIs(all, maxlen - 1, k);
    }

    /** `rio_readlineb`: the next line, or as much of it as `maxlen` bytes with their NUL hold. */
    method Readlineb(usr: array<Byte>, maxlen: nat) returns (r: int)
      requires Valid() && usr != buf && 0 < maxlen <= usr.Length
      modifies this, buf, source, usr
      ensures Valid()
      ensures r >= 0 ==> r == LineEnd(old(Stream()), maxlen - 1)
      ensures r >= 0 ==> usr[..r] == old(Stream())[..r] && Stream() == old(Stream())[r..] && (r > 0 ==> usr[r] == 0)
      ensures r < 0 ==> !NoFailure(old(source.script))
      ensures |source.script| <= |old(source.script)| && (NoFailure(old(source.script)) ==> NoFailure(source.script))
    {
      hide NoFailure, LineEnd, Stream, Unread;
      var k, rc := Collect(usr, maxlen);
      if rc < 0 {
        return -1;
      }
      if rc == 0 && k == 0 {
        return 0;
      }
      ghost var line := usr[..k];
      assert line == usr[..][..k];
      usr[k] := NUL;
      assert usr[..k] == line;
      return k;
    }
  }

  // ----- the unbuffered calls

  /** `rio_readn`. */
  method Readn(fd: Source, usr: array<Byte>, n: nat) returns (r: int)
    requires n <= usr.Length
    modifies fd, usr
    ensures r >= 0 ==>
              && r == Min(n, |old(fd.left)|)
              && Filled(usr[..], old(usr[..]), 0, old(fd.left)[..r]) && fd.left == old(fd.left)[r..]
    ensures r < 0 ==> !NoFailure(old(fd.script))
  {
    hide Filled, NoFailure;
    var nleft, bufp := n, 0;
    ghost var all, usr0 := fd.left, usr[..];
    Nothing(usr0, 0, all);
    while nleft > 0
      invariant nleft + bufp == n && 0 <= nleft && 0 <= bufp <= |all|
      invariant Filled(usr[..], usr0, 0, all[..bufp]) && fd.left == all[bufp..]
      invariant NoFailure(old(fd.script)) ==> NoFailure(fd.script)
      decreases nleft, |fd.script|
    {
      ghost var was, answers := usr[..], fd.script;
      var nread, errno := fd.Read(usr, bufp, nleft);
      LaterNoFailure(answers);
      if nread < 0 {
        if errno == EINTR {
          nread := 0;
        } else {
          return -1;
        }
      } else {
        Onwards(all, bufp, nread);
        FilledTwice(usr0, was, usr[..], 0, all[..bufp], all[bufp..][..nread]);
        if nread == 0 {
          assert |all[bufp..]| == |all| - bufp;
          break;
        }
      }
      nleft, bufp := nleft - nread, bufp + nread;
    }
    return n - nleft;
  }

  /** `rio_writen`. */
  method Writen(fd: Sink, usr: seq<Byte>) returns (r: int)
    modifies fd
    ensures r >= 0 ==> r == |usr| && fd.written == old(fd.written) + usr
    ensures r < 0 ==> !NoFailure(old(fd.script)) && old(fd.written) <= fd.written <= old(fd.written) + usr
  {
    hide NoFailure;
    var nleft, bufp := |usr|, 0;
    while nleft > 0
      invariant nleft + bufp == |usr| && 0 <= nleft && 0 <= bufp
      invariant fd.written == old(fd.written) + usr[..bufp]
      invariant NoFailure(old(fd.script)) ==> NoFailure(fd.script)
      decreases nleft, |fd.script|
    {
      ghost var answers := fd.script;
      var nwritten, errno := fd.Write(usr[bufp..]);
      LaterNoFailure(answers);
      if nwritten <= 0 {
        if errno == EINTR {
          nwritten := 0;
        } else {
          return -1;
        }
      } else {
        Onwards(usr, bufp, nwritten);
      }
      nleft, bufp := nleft - nwritten, bufp + nwritten;
    }
    return |usr|;
  }

  // ----- runs of buffered calls

  datatype Call = ReadBytes(n: nat) | ReadLine(maxlen: nat)

  /** How many bytes of the stream a call delivers. */
  function Delivers(stream: seq<Byte>, c: Call): (k: nat)
    requires c.ReadLine? ==> c.maxlen > 0
    ensures k <= |stream|
  {
    match c
    case ReadBytes(n) => Min(n, |stream|)
    case ReadLine(maxlen) => LineEnd(stream, maxlen - 1)
  }

  ghost predicate Proper(calls: seq<Call>) {
    forall i :: 0 <= i < |calls| && calls[i].ReadLine? ==> calls[i].maxlen > 0
  }

  /** What a run of calls delivers, and what it leaves. */
  ghost function Delivered(stream: seq<Byte>, calls: seq<Call>): (r: (seq<seq<Byte>>, seq<Byte>))
    requires Proper(calls)
    ensures |r.0| == |calls|
    decreases |calls|
  {
    if calls == [] then ([], stream)
    else
      var (done, rest) := Delivered(stream, calls[..|calls| - 1]);
      var k := Delivers(rest, calls[|calls| - 1]);
      (done + [rest[..k]], rest[k..])
  }

  function Concat(pieces: seq<seq<Byte>>): seq<Byte> {
    if pieces == [] then [] else Concat(pieces[..|pieces| - 1]) + pieces[|pieces| - 1]
  }

  /** No byte is lost, invented or moved: what was delivered and what is left are the stream. */
  lemma {:induction false} StreamConserved(stream: seq<Byte>, calls: seq<Call>)
    requires Proper(calls)
    ensures Concat(Delivered(stream, calls).0) + Delivered(stream, calls).1 == stream
    decreases |calls|
  {
    if calls != [] {
      var before := calls[..|calls| - 1];
      StreamConserved(stream, before);
      var (done, rest) := Delivered(stream, before);
      var k := Delivers(rest, calls[|calls| - 1]);
      assert (done + [rest[..k]])[..|done|] == done;
      assert rest == rest[..k] + rest[k..];
      hide Delivers;
      assert (Concat(done) + rest[..k]) + rest[k..] == Concat(done) + (rest[..k] + rest[k..]);
    }
  }

  /** One buffered call. */
  method Perform(rio: Reader, c: Call) returns (r: int, piece: seq<Byte>)
    requires rio.Valid() && (c.ReadLine? ==> c.maxlen > 0)
    modifies rio, rio.buf, rio.source
    ensures rio.Valid()
    ensures r >= 0 ==>
              var k := Delivers(old(rio.Stream()), c);
              piece == old(rio.Stream())[..k] && rio.Stream() == old(rio.Stream())[k..]
    ensures r < 0 ==> !NoFailure(old(rio.source.script))
    ensures NoFailure(old(rio.source.script)) ==> NoFailure(rio.source.script)
  {
    hide NoFailure, Filled, LineEnd;
    ghost var all := rio.Stream();
    var usr := new Byte[match c case ReadBytes(n) => n case ReadLine(m) => m];
    ghost var was := usr[..];
    piece := [];
    match c {
      case ReadBytes(n) =>
        r := rio.Readnb(usr, n);
        if r >= 0 {
          Front(usr[..], was, all[..r]);
          piece := usr[..r];
        }
      case ReadLine(m) =>
        r := rio.Readlineb(usr, m);
        if r >= 0 {
          piece := usr[..r];
        }
    }
  }

  lemma DeliveredStep(stream: seq<Byte>, calls: seq<Call>, i: nat)
    requires Proper(calls) && i < |calls|
    ensures Proper(calls[..i]) && Proper(calls[..i + 1])
    ensures var (done, rest) := Delivered(stream, calls[..i]);
            var k := Delivers(rest, calls[i]);
            Delivered(stream, calls[..i + 1]) == (done + [rest[..k]], rest[k..])
  {
    assert calls[..i + 1][..i] == calls[..i];
    hide Delivers;
  }

  /** Whatever the kernel does, short of failing, a run of calls delivers what the stream alone
      determines. */
  method Session(rio: Reader, calls: seq<Call>) returns (ok: bool, pieces: seq<seq<Byte>>)
    requires rio.Valid() && Proper(calls)
    modifies rio, rio.buf, rio.source
    ensures rio.Valid()
    ensures ok ==> (pieces, rio.Stream()) == Delivered(old(rio.Stream()), calls)
    ensures NoFailure(old(rio.source.script)) ==> ok
  {
    hide NoFailure, Delivers;
    pieces := [];
    ghost var all := rio.Stream();
    var i := 0;
    while i < |calls|
      invariant 0 <= i <= |calls| && rio.Valid() && Proper(calls[..i])
      invariant (pieces, rio.Stream()) == Delivered(all, calls[..i])
      invariant NoFailure(old(rio.source.script)) ==> NoFailure(rio.source.script)
    {
      DeliveredStep(all, calls, i);
      var r, piece := Perform(rio, calls[i]);
      if r < 0 {
        return false, pieces;
      }
      pieces := pieces + [piece];
      i := i + 1;
    }
    assert calls[..i] == calls;
    ok := true;
  }
}
