// The buffered reader of proxy lab/proxylab-handout/csapp.c (rio_read,
// rio_readinitb, rio_readnb, rio_readlineb), over a descriptor whose read()
// may be interrupted, fail, or return fewer bytes than asked for.
module RioReader {
  import opened Basics

  const NEWLINE: Byte := 10
  const RIO_BUFSIZE := 8192

  // How one call of read() turns out: EINTR, another error, or at most `most` bytes (at least one).
  datatype Outcome = Interrupted | Failed | Chunk(most: nat)
  datatype Errno = NoError | Eintr | OtherError

  // How many bytes the next call of read() would give of n
  function Offered(script: seq<Outcome>, n: nat): nat {
    if script == [] || !script[0].Chunk? then n else if script[0].most == 0 then 1 else script[0].most
  }

  class Descriptor {
    var stream: seq<Byte>     // bytes that read() has not delivered yet
    var script: seq<Outcome>  // the outcomes of the coming calls; afterwards calls succeed in full

    constructor (stream: seq<Byte>, script: seq<Outcome>)
      ensures this.stream == stream && this.script == script
    {
      this.stream, this.script := stream, script;
    }

    // read(2): -1 with errno, 0 at the end of the stream, or a non-empty chunk.
    method Read(buf: array<Byte>, n: nat) returns (cnt: int, errno: Errno)
      requires 0 < n <= buf.Length
      modifies this, buf
      ensures script == if old(script) == [] then [] else old(script)[1..]
      ensures -1 <= cnt <= n && cnt <= |old(stream)|
      ensures cnt == -1 ==> stream == old(stream) && old(script) != [] && !old(script)[0].Chunk?
      ensures cnt == -1 ==> errno == if old(script)[0].Interrupted? then Eintr else OtherError
      ensures cnt >= 0 ==> stream == old(stream)[cnt..] && buf[..cnt] == old(stream)[..cnt] && errno == NoError
      ensures cnt >= 0 ==> cnt == Min(Min(n, Offered(old(script), n)), |old(stream)|)
      ensures cnt >= 0 ==> old(script) == [] || old(script)[0].Chunk?
    {
      var most := n;
      if script != [] {
        var outcome := script[0];
        script := script[1..];
        match outcome
        case Interrupted => return -1, Eintr;
        case Failed => return -1, OtherError;
        case Chunk(k) => most := if k == 0 then 1 else k;
      }
      cnt, errno := Min(Min(n, most), |stream|), NoError;
      forall i | 0 <= i < cnt {
        buf[i] := stream[i];
      }
      stream := stream[cnt..];
    }
  }

  // The outcomes that are not EINTR: a reader that retries after EINTR meets the first of these.
  function AfterInterrupts(script: seq<Outcome>): (rest: seq<Outcome>)
    ensures |rest| <= |script| && script[|script| - |rest|..] == rest && (rest != [] ==> !rest[0].Interrupted?)
    ensures forall i | 0 <= i < |script| - |rest| :: script[i].Interrupted?
  {
    if script != [] && script[0].Interrupted? then AfterInterrupts(script[1..]) else script
  }

  // From script before to script after a call, the call has failed exactly if read() has, in its last call.
  ghost predicate Reports(before: seq<Outcome>, after: seq<Outcome>, failed: bool) {
    var n := |before| - |after|;
    && 0 <= n && before[n..] == after
    && (forall i | 0 <= i < n && before[i].Failed? :: failed && i == n - 1)
    && (failed ==> 0 < n && before[n - 1].Failed?)
  }

  lemma ReportsOn(a: seq<Outcome>, b: seq<Outcome>, c: seq<Outcome>, failed: bool)
    requires Reports(a, b, false) && Reports(b, c, failed)
    ensures Reports(a, c, failed)
  {
    var n := |a| - |b|;
    assert forall i | 0 <= i < |b| :: b[i] == a[n + i];
    assert forall i | 0 <= i < |c| :: c[i] == b[|b| - |c| + i];
  }

  // One call of read() after the interrupted ones
  lemma ReportsOne(script: seq<Outcome>)
    requires AfterInterrupts(script) != []
    ensures Reports(script, AfterInterrupts(script)[1..], AfterInterrupts(script)[0].Failed?)
  {
    var rest := AfterInterrupts(script);
    var n := |script| - |rest|;
    assert script[n] == rest[0];
    assert script[n + 1..] == rest[1..];
  }

  // The script after that call
  function AfterRead(script: seq<Outcome>): seq<Outcome> {
    if AfterInterrupts(script) == [] then [] else AfterInterrupts(script)[1..]
  }

  predicate ReadFails(script: seq<Outcome>) {
    AfterInterrupts(script) != [] && AfterInterrupts(script)[0].Failed?
  }

  lemma ReportsRead(script: seq<Outcome>)
    ensures Reports(script, AfterRead(script), ReadFails(script))
  {
    if AfterInterrupts(script) != [] { ReportsOne(script); }
  }

  // The bytes of a line: through the first newline, at most `most`, or all there are.
  function LineLen(p: seq<Byte>, most: int): (n: nat)
    ensures n <= |p|
  {
    if most <= 0 || p == [] then 0 else if p[0] == NEWLINE then 1 else 1 + LineLen(p[1..], most - 1)
  }

  lemma LineLenStep(done: seq<Byte>, c: Byte, rest: seq<Byte>, most: int)
    requires 0 < most
    ensures LineLen([c] + rest, most) == if c == NEWLINE then 1 else 1 + LineLen(rest, most - 1)
    ensures done + ([c] + rest) == done + [c] + rest
  {
    assert ([c] + rest)[1..] == rest;
  }

  lemma SplitAt(u: seq<Byte>, k: nat, rest: seq<Byte>)
    requires k <= |u|
    ensures u + rest == u[..k] + (u[k..] + rest)
  {
    assert u == u[..k] + u[k..];
  }

  lemma Ended(a: seq<Byte>, b: seq<Byte>, p: seq<Byte>, n: nat)
    requires a + b == p && |a| <= n && (|a| == n || b == [])
    ensures |a| == Min(n, |p|)
  {
  }

  method Memcpy(dst: array<Byte>, off: nat, src: array<Byte>, from: nat, k: nat)
    requires off + k <= dst.Length && from + k <= src.Length && dst != src
    modifies dst
    ensures dst[off..off + k] == src[from..from + k]
    ensures forall i | 0 <= i < dst.Length && !(off <= i < off + k) :: dst[i] == old(dst[i])
  {
    forall i | 0 <= i < k {
      dst[off + i] := src[from + i];
    }
  }

  method PutByte(a: array<Byte>, k: nat, c: Byte)
    requires k < a.Length
    modifies a
    ensures a[..k + 1] == old(a[..k]) + [c] && forall i | 0 <= i < a.Length && i != k :: a[i] == old(a[i])
  {
    a[k] := c;
  }

  class Rio {
    var fd: Descriptor
    var cnt: int             // unread bytes in buf; not positive when there are none
    var bufptr: nat          // index of the next unread byte
    const buf: array<Byte>
    ghost var pending: seq<Byte> // what the caller has not received yet: buffered bytes, then the stream

    // rio_readinitb (csapp.c:823-828)
    constructor (fd: Descriptor)
      ensures Valid() && this.fd == fd && fresh(buf) && pending == fd.stream
    {
      this.fd, cnt, bufptr, pending := fd, 0, 0, fd.stream;
      buf := new Byte[RIO_BUFSIZE](_ => 0);
    }

    ghost function Unread(): seq<Byte>
      requires buf.Length == RIO_BUFSIZE && (0 < cnt ==> bufptr + cnt <= RIO_BUFSIZE)
      reads this, buf
    {
      if 0 < cnt then buf[bufptr..bufptr + cnt] else []
    }

    ghost predicate Valid()
      reads this, buf, fd
    {
      && buf.Length == RIO_BUFSIZE && (0 < cnt ==> bufptr + cnt <= RIO_BUFSIZE)
      && pending == Unread() + fd.stream
    }

    // The reader has the bytes that one call of read() gives of the stream, and none if there are none.
    ghost predicate Filled(status: int, script: seq<Outcome>, stream: seq<Byte>)
      requires buf.Length == RIO_BUFSIZE && (0 < cnt ==> bufptr + cnt <= RIO_BUFSIZE)
      reads this, buf, fd
    {
      var n := Min(Min(RIO_BUFSIZE, Offered(script, RIO_BUFSIZE)), |stream|);
      && status == (if stream == [] then 0 else 1) && cnt == n
      && Unread() == stream[..n] && fd.stream == stream[n..]
    }

    // One round of the refill loop (csapp.c:796-805); status 2 is EINTR.
    method Attempt() returns (status: int)
      requires Valid() && cnt <= 0
      modifies this, buf, fd
      ensures Valid() && fd == old(fd) && pending == old(pending)
      ensures fd.script == if old(fd.script) == [] then [] else old(fd.script)[1..]
      ensures old(fd.script) != [] && !old(fd.script)[0].Chunk? ==> cnt <= 0 && fd.stream == old(fd.stream)
      ensures status == 2 <==> old(fd.script) != [] && old(fd.script)[0].Interrupted?
      ensures status == -1 <==> old(fd.script) != [] && old(fd.script)[0].Failed?
      ensures old(fd.script) == [] || old(fd.script)[0].Chunk? ==> Filled(status, old(fd.script), old(fd.stream))
    {
      ghost var before := fd.stream;
      var errno;
      cnt, errno := fd.Read(buf, RIO_BUFSIZE);
      if cnt < 0 {
        return if errno != Eintr then -1 else 2;
      } else if cnt == 0 {
        return 0;
      } else {
        bufptr := 0;
        assert Unread() == before[..cnt] && before == before[..cnt] + before[cnt..];
        return 1;
      }
    }

    // The refill loop at the head of rio_read (csapp.c:795-806) on an empty buffer: read() is called until it
    // is not interrupted; then its error is reported and the stream left alone, or its bytes are in the buffer.
    method RefillEmpty() returns (status: int)
      requires Valid() && cnt <= 0
      modifies this, buf, fd
      ensures Valid() && fd == old(fd) && pending == old(pending)
      ensures fd.script == AfterRead(old(fd.script))
      ensures if ReadFails(old(fd.script)) then status == -1 && cnt <= 0 && fd.stream == old(fd.stream)
              else Filled(status, AfterInterrupts(old(fd.script)), old(fd.stream))
    {
      status := 2;
      while status == 2
        invariant Valid() && fd == old(fd) && pending == old(pending)
        invariant status == 2 ==> cnt <= 0 && fd.stream == old(fd.stream)
        invariant status == 2 ==> AfterInterrupts(fd.script) == AfterInterrupts(old(fd.script))
        invariant status != 2 ==> fd.script == AfterRead(old(fd.script))
        invariant status != 2 ==>
          if ReadFails(old(fd.script)) then status == -1 && cnt <= 0 && fd.stream == old(fd.stream)
          else Filled(status, AfterInterrupts(old(fd.script)), old(fd.stream))
        decreases |fd.script|, status
      {
        status := Attempt();
      }
    }

    // The refill loop; nothing happens while there are bytes in the buffer.
    method Refill() returns (status: int)
      requires Valid()
      modifies this, buf, fd
      ensures Valid() && fd == old(fd) && pending == old(pending)
      ensures status == 1 || status == 0 || status == -1
      ensures status == 1 <==> 0 < cnt
      ensures status == 0 ==> pending == []
      ensures old(cnt) > 0 ==> status == 1 && cnt == old(cnt)
      ensures old(cnt) > 0 ==> fd.script == old(fd.script) && fd.stream == old(fd.stream)
      ensures old(cnt) <= 0 ==> fd.script == AfterRead(old(fd.script)) && (status == -1 <==> ReadFails(old(fd.script)))
      ensures Reports(old(fd.script), fd.script, status == -1)
    {
      ReportsRead(fd.script);
      if cnt > 0 {
        status := 1;
      } else {
        status := RefillEmpty();
      }
    }

    // The end of rio_read (csapp.c:812-814).
    method Deliver(usrbuf: array<Byte>, off: nat, k: nat)
      requires Valid() && 0 < cnt && k <= cnt && off + k <= usrbuf.Length && usrbuf != buf
      modifies this`cnt, this`bufptr, this`pending, usrbuf
      ensures Valid() && old(pending) == usrbuf[off..off + k] + pending
      ensures forall i | 0 <= i < usrbuf.Length && !(off <= i < off + k) :: usrbuf[i] == old(usrbuf[i])
    {
      ghost var unread, rest := Unread(), fd.stream;
      Memcpy(usrbuf, off, buf, bufptr, k);
      assert usrbuf[off..off + k] == unread[..k];
      bufptr := bufptr + k;
      cnt := cnt - k;
      assert Unread() == unread[k..];
      SplitAt(unread, k, rest);
      pending := unread[k..] + rest;
    }

    // rio_read (csapp.c:791-816) into usrbuf[off..off + n]
    method Read(usrbuf: array<Byte>, off: nat, n: nat) returns (r: int)
      requires Valid() && off + n <= usrbuf.Length && usrbuf != buf
      modifies this, buf, fd, usrbuf
      ensures Valid() && fd == old(fd) && -1 <= r <= n
      ensures r == -1 ==> pending == old(pending)
      ensures r >= 0 ==> old(pending) == usrbuf[off..off + r] + pending
      ensures r == 0 ==> n == 0 || old(pending) == []
      ensures forall i | 0 <= i < usrbuf.Length && !(off <= i < off + r) :: usrbuf[i] == old(usrbuf[i])
      ensures old(cnt) > 0 ==> r == Min(n, old(cnt)) && fd.script == old(fd.script)
      ensures old(cnt) <= 0 ==> fd.script == AfterRead(old(fd.script)) && (r == -1 <==> ReadFails(old(fd.script)))
      ensures Reports(old(fd.script), fd.script, r == -1)
    {
      ghost var p := pending;
      r := Refill();
      ghost var script := fd.script;
      if r > 0 {
        r := if cnt < n then cnt else n;
        Deliver(usrbuf, off, r);
        assert p == usrbuf[off..off + r] + pending && fd.script == script;
      }
    }

    // rio_read after got bytes: delivered bytes and pending bytes together stay the same
    method ReadMore(usrbuf: array<Byte>, got: nat, n: nat) returns (r: int)
      requires Valid() && got + n <= usrbuf.Length && usrbuf != buf
      modifies this, buf, fd, usrbuf
      ensures Valid() && fd == old(fd) && -1 <= r <= n
      ensures r >= 0 ==> usrbuf[..got + r] + pending == old(usrbuf[..got] + pending)
      ensures r == -1 ==> usrbuf[..got] + pending == old(usrbuf[..got] + pending)
      ensures r == 0 ==> n == 0 || pending == []
      ensures forall i | 0 <= i < usrbuf.Length && !(got <= i < got + r) :: usrbuf[i] == old(usrbuf[i])
      ensures Reports(old(fd.script), fd.script, r == -1)
    {
      ghost var done := usrbuf[..got];
      r := Read(usrbuf, got, n);
      assert usrbuf[..got] == done;
      if r >= 0 {
        ghost var part := usrbuf[got..got + r];
        assert usrbuf[..got + r] == done + part;
        assert done + (part + pending) == done + part + pending;
      }
    }

    // rio_readnb (csapp.c:835-851); after an error, got bytes had already been delivered
    method ReadN(usrbuf: array<Byte>, n: nat) returns (r: int, ghost got: nat)
      requires Valid() && n <= usrbuf.Length && usrbuf != buf
      modifies this, buf, fd, usrbuf
      ensures Valid() && fd == old(fd) && got <= n && usrbuf[..got] + pending == old(pending)
      ensures Reports(old(fd.script), fd.script, r == -1)
      ensures r != -1 ==> r == got == Min(n, |old(pending)|)
      ensures forall i | got <= i < usrbuf.Length :: usrbuf[i] == old(usrbuf[i])
    {
      var nleft, nread := n, 1;
      got := 0;
      ghost var p := pending;
      while nleft > 0
        invariant Valid() && fd == old(fd) && 0 <= nleft <= n && got == n - nleft && 0 < nread
        invariant usrbuf[..got] + pending == p
        invariant forall i | got <= i < usrbuf.Length :: usrbuf[i] == old(usrbuf[i])
        invariant Reports(old(fd.script), fd.script, false)
      {
        ghost var script := fd.script;
        nread := ReadMore(usrbuf, n - nleft, nleft);
        ReportsOn(old(fd.script), script, fd.script, nread == -1);
        if nread <= 0 {
          break;
        }
        nleft := nleft - nread;
        got := got + nread;
      }
      if nread < 0 {
        return -1, got;
      }
      Ended(usrbuf[..got], pending, p, n);
      r := n - nleft;
    }

    // rio_read(rp, &c, 1), as rio_readlineb calls it
    method ReadByte() returns (rc: int, c: Byte)
      requires Valid()
      modifies this, buf, fd
      ensures Valid() && fd == old(fd)
      ensures rc == 1 || rc == 0 || rc == -1
      ensures rc == 1 ==> old(pending) == [c] + pending
      ensures rc <= 0 ==> pending == old(pending)
      ensures rc == 0 ==> pending == []
      ensures Reports(old(fd.script), fd.script, rc == -1)
    {
      var one := new Byte[1];
      rc := Read(one, 0, 1);
      c := one[0];
      assert rc == 1 ==> one[0..1] == [c];
    }

    // One byte, stored at usrbuf[k] if there is one (csapp.c:863-864)
    method NextByte(usrbuf: array<Byte>, k: nat) returns (rc: int, c: Byte)
      requires Valid() && k < usrbuf.Length && usrbuf != buf
      modifies this, buf, fd, usrbuf
      ensures Valid() && fd == old(fd)
      ensures rc == 1 || rc == 0 || rc == -1
      ensures rc == 1 ==> old(pending) == [c] + pending && usrbuf[..k + 1] == old(usrbuf[..k]) + [c]
      ensures rc <= 0 ==> pending == old(pending) && usrbuf[..k] == old(usrbuf[..k])
      ensures rc == 0 ==> pending == []
      ensures Reports(old(fd.script), fd.script, rc == -1)
      ensures forall i | 0 <= i < usrbuf.Length && (i != k || rc <= 0) :: usrbuf[i] == old(usrbuf[i])
    {
      rc, c := ReadByte();
      if rc == 1 {
        PutByte(usrbuf, k, c);
      }
    }

    // The loop of rio_readlineb (csapp.c:862-876); got bytes are delivered in any case
    method ReadLineBytes(usrbuf: array<Byte>, maxlen: nat) returns (ok: bool, got: nat)
      requires Valid() && 1 <= usrbuf.Length && maxlen <= usrbuf.Length && usrbuf != buf
      modifies this, buf, fd, usrbuf
      ensures Valid() && fd == old(fd) && got < usrbuf.Length && old(pending) == usrbuf[..got] + pending
      ensures Reports(old(fd.script), fd.script, !ok)
      ensures ok ==> got == LineLen(old(pending), maxlen - 1)
      ensures forall i | got <= i < usrbuf.Length :: usrbuf[i] == old(usrbuf[i])
    {
      ghost var p, done := pending, [];
      var n := 1;
      ok := true;
      while n < maxlen
        invariant Valid() && fd == old(fd) && 1 <= n && (n == 1 || n <= maxlen) && ok
        invariant usrbuf[..n - 1] == done && p == done + pending
        invariant forall i | n - 1 <= i < usrbuf.Length :: usrbuf[i] == old(usrbuf[i])
        invariant LineLen(p, maxlen - 1) == n - 1 + LineLen(pending, maxlen - n)
        invariant Reports(old(fd.script), fd.script, false)
      {
        ghost var script := fd.script;
        var rc, c := NextByte(usrbuf, n - 1);
        ReportsOn(old(fd.script), script, fd.script, rc == -1);
        if rc <= 0 {
          ok := rc == 0;
          break;
        }
        LineLenStep(done, c, pending, maxlen - n);
        done := done + [c];
        n := n + 1;
        if c == NEWLINE {
          break;
        }
      }
      got := n - 1;
    }

    // rio_readlineb (csapp.c:857-880); the byte after the line is cleared, except when nothing was read at end of file
    method ReadLine(usrbuf: array<Byte>, maxlen: nat) returns (r: int, ghost got: nat)
      requires Valid() && 1 <= usrbuf.Length && maxlen <= usrbuf.Length && usrbuf != buf
      modifies this, buf, fd, usrbuf
      ensures Valid() && fd == old(fd) && got < usrbuf.Length && old(pending) == usrbuf[..got] + pending
      ensures Reports(old(fd.script), fd.script, r == -1)
      ensures r != -1 ==> r == got == LineLen(old(pending), maxlen - 1)
      ensures r > 0 || (r == 0 && maxlen <= 1) ==> usrbuf[r] == 0
      ensures r == 0 && maxlen > 1 ==> usrbuf[0] == old(usrbuf[0])
      ensures forall i | got < i < usrbuf.Length :: usrbuf[i] == old(usrbuf[i])
    {
      var ok, n := ReadLineBytes(usrbuf, maxlen);
      got := n;
      if !ok {
        return -1, got;
      }
      if n == 0 && maxlen > 1 {
        return 0, got;
      }
      ghost var done := usrbuf[..got];
      usrbuf[n] := 0;
      assert usrbuf[..got] == done;
      r := n;
    }
  }

  // ---------- what callers see ----------

  // A line, from the outside: no newline before its last byte, and it ends only for a reason.
  lemma {:induction false} LineLenSpec(p: seq<Byte>, most: int)
    ensures var n := LineLen(p, most);
      && (n <= most || n == 0)
      && (forall i | 0 <= i < n - 1 :: p[i] != NEWLINE)
      && (n >= most || n == |p| || (0 < n && p[n - 1] == NEWLINE))
    decreases |p|
  {
    if most <= 0 || p == [] || p[0] == NEWLINE {
    } else {
      LineLenSpec(p[1..], most - 1);
      var n := LineLen(p[1..], most - 1);
      forall i | 0 <= i < n ensures p[i] != NEWLINE { assert i > 0 ==> p[i] == p[1..][i - 1]; }
    }
  }

  datatype Request = Bytes(n: nat) | Line(maxlen: nat)

  // The reply to one request and the bytes left, whatever the buffering and chunking.
  function Reply(p: seq<Byte>, q: Request): (n: nat)
    ensures n <= |p|
  {
    match q
    case Bytes(n) => Min(n, |p|)
    case Line(maxlen) => LineLen(p, maxlen - 1)
  }

  function Replies(p: seq<Byte>, qs: seq<Request>): seq<seq<Byte>> {
    if qs == [] then [] else [p[..Reply(p, qs[0])]] + Replies(p[Reply(p, qs[0])..], qs[1..])
  }

  function Concat(parts: seq<seq<Byte>>): seq<Byte> {
    if parts == [] then [] else parts[0] + Concat(parts[1..])
  }

  // Any interleaving of requests delivers a prefix of the stream, in order, nothing lost or repeated.
  lemma {:induction false} RepliesArePrefix(p: seq<Byte>, qs: seq<Request>)
    ensures Concat(Replies(p, qs)) <= p
  {
    if qs == [] {
    } else {
      var n := Reply(p, qs[0]);
      RepliesArePrefix(p[n..], qs[1..]);
      assert Replies(p, qs)[1..] == Replies(p[n..], qs[1..]);
      assert p == p[..n] + p[n..];
    }
  }

  function Room(q: Request): nat {
    match q
    case Bytes(n) => n
    case Line(maxlen) => if maxlen == 0 then 1 else maxlen
  }

  method ServeOne(rp: Rio, q: Request) returns (ok: bool, part: seq<Byte>)
    requires rp.Valid()
    modifies rp, rp.buf, rp.fd
    ensures rp.Valid() && rp.fd == old(rp.fd)
    ensures var n := Reply(old(rp.pending), q);
      ok ==> part == old(rp.pending)[..n] && rp.pending == old(rp.pending)[n..]
    ensures Reports(old(rp.fd.script), rp.fd.script, !ok)
  {
    var usrbuf, r := new Byte[Room(q)], 0;
    ghost var got;
    match q {
      case Bytes(n) => r, got := rp.ReadN(usrbuf, n);
      case Line(maxlen) => r, got := rp.ReadLine(usrbuf, maxlen);
    }
    ok := r >= 0;
    part := if ok then usrbuf[..r] else [];
  }

  // A client making calls on one rio_t until one fails: that happens exactly when a read() fails, and if none
  // does, the replies are those of the plain stream.
  method Serve(rp: Rio, qs: seq<Request>) returns (ok: bool, parts: seq<seq<Byte>>)
    requires rp.Valid()
    modifies rp, rp.buf, rp.fd
    ensures rp.Valid() && rp.fd == old(rp.fd)
    ensures ok ==> parts == Replies(old(rp.pending), qs)
    ensures Reports(old(rp.fd.script), rp.fd.script, !ok)
    decreases |qs|
  {
    if qs == [] {
      return true, [];
    }
    var part;
    ok, part := ServeOne(rp, qs[0]);
    if !ok {
      return false, [];
    }
    ghost var script := rp.fd.script;
    ok, parts := Serve(rp, qs[1..]);
    ReportsOn(old(rp.fd.script), script, rp.fd.script, !ok);
    parts := [part] + parts;
  }
}
