/** The poll server's line processing: server/aesdsocket.c. */
module PollServer {
  import opened Bytes
  import opened Sequences

  const BUFFSIZE: nat := 8192
  const MAXLINE: nat := 4096
  const TWO_31: int := 0x8000_0000

  // The log file, its bytes and the position of its one descriptor.
  class LogFile {
    var bytes: seq<Byte>
    var pos: nat

    ghost predicate Valid()
      reads this
    {
      pos <= |bytes|
    }

    constructor Create()
      ensures Valid() && bytes == []
    {
      bytes, pos := [], 0;
    }

    method Write(data: seq<Byte>)
      requires Valid()
      modifies this
      ensures Valid() && pos == old(pos) + |data|
      ensures bytes == old(bytes)[..old(pos)] + data + old(bytes)[Min(pos, |old(bytes)|)..]
    {
      var after := pos + |data|;
      bytes := bytes[..pos] + data + bytes[Min(after, |bytes|)..];
      pos := after;
    }

    method Read(n: nat) returns (data: seq<Byte>)
      requires Valid()
      modifies this`pos
      ensures Valid() && pos == Min(old(pos) + n, |bytes|)
      ensures data == bytes[old(pos)..pos]
    {
      var after := Min(pos + n, |bytes|);
      data := bytes[pos..after];
      pos := after;
    }

    method Lseek(to: nat)
      requires Valid() && to <= |bytes|
      modifies this`pos
      ensures Valid() && pos == to
    {
      pos := to;
    }
  }

  // A connection: descriptors are used again, so it takes the descriptor and how often accept had returned it.
  datatype Conn = Conn(fd: int, use: nat)

  // What one read delivers, and the connection it comes from.
  datatype Event = Event(conn: Conn, chunk: seq<Byte>)

  // All that was sent on a connection.
  function Of(received: map<Conn, seq<Byte>>, conn: Conn): seq<Byte> {
    if conn in received then received[conn] else []
  }

  // More was sent on one connection, and nothing on the others.
  ghost predicate Adds(before: map<Conn, seq<Byte>>, after: map<Conn, seq<Byte>>, conn: Conn, data: seq<Byte>) {
    forall c :: Of(after, c) == Of(before, c) + if c == conn then data else []
  }

  lemma AddsNothing(received: map<Conn, seq<Byte>>, conn: Conn)
    ensures Adds(received, received, conn, [])
  {
  }

  lemma AddsBoth(before: map<Conn, seq<Byte>>, mid: map<Conn, seq<Byte>>, after: map<Conn, seq<Byte>>, conn: Conn,
                 data: seq<Byte>, more: seq<Byte>)
    requires Adds(before, mid, conn, data) && Adds(mid, after, conn, more)
    ensures Adds(before, after, conn, data + more)
  {
    forall c
      ensures Of(after, c) == Of(before, c) + if c == conn then data + more else []
    {
      assert Of(mid, c) == Of(before, c) + if c == conn then data else [];
    }
  }

  // The connection that a descriptor stands for, given how often accept returned each.
  function ConnOf(uses: map<int, nat>, fd: int): Conn {
    Conn(fd, if fd in uses then uses[fd] else 0)
  }

  function Handed(uses: map<int, nat>, fd: int): map<int, nat> {
    uses[fd := ConnOf(uses, fd).use + 1]
  }

  // The descriptors and the connections' other ends.
  class Network {
    var uses: map<int, nat>
    var received: map<Conn, seq<Byte>>

    constructor ()
      ensures uses == map[] && received == map[]
    {
      uses, received := map[], map[];
    }

    method Accept(fd: int)
      modifies this`uses
      ensures uses == Handed(old(uses), fd)
      ensures forall f :: ConnOf(uses, f) == Conn(f, ConnOf(old(uses), f).use + if f == fd then 1 else 0)
    {
      uses := Handed(uses, fd);
    }

    method Write(fd: int, data: seq<Byte>)
      modifies this`received
      ensures Adds(old(received), received, ConnOf(uses, fd), data)
    {
      var conn := ConnOf(uses, fd);
      received := received[conn := Of(received, conn) + data];
    }
  }

  // What one chunk makes the server send: after each newline it finds, the whole log up to there.
  function Echoes(log: seq<Byte>, buf: seq<Byte>): seq<Byte>
    decreases |buf|
  {
    var p := Strchr(buf);
    if p < 0 then [] else
      var log' := log + buf[..p + 1];
      log' + Echoes(log', buf[p + 1..])
  }

  lemma EchoesStep(log: seq<Byte>, buf: seq<Byte>)
    ensures var p := Strchr(buf);
            Echoes(log, buf) == if p < 0 then [] else
                                  log + buf[..p + 1] + Echoes(log + buf[..p + 1], buf[p + 1..])
    ensures Echoes(log, []) == []
  {
  }

  class Server {
    const log: LogFile
    var fileSize: int

    // Between calls the descriptor stands at the end of the log, which is where fileSize says.
    ghost predicate Valid()
      reads this, log
    {
      log.Valid() && log.pos == |log.bytes| == fileSize
    }

    constructor Initialize()
      ensures Valid() && fresh(log) && log.bytes == []
    {
      log := new LogFile.Create();
      fileSize := 0;
    }

    /** The whole log goes to the client, in pieces, and the position comes back to the end. */
    method DumpFileToClient(net: Network, fd: int)
      requires log.Valid() && fileSize == |log.bytes|
      modifies log`pos, net`received
      ensures Valid()
      ensures Adds(old(net.received), net.received, ConnOf(net.uses, fd), log.bytes)
    {
      hide Adds;
      log.Lseek(0);
      var bytesLeft := fileSize;
      AddsNothing(net.received, ConnOf(net.uses, fd));
      while bytesLeft > 0
        invariant log.Valid() && bytesLeft == |log.bytes| - log.pos
        invariant Adds(old(net.received), net.received, ConnOf(net.uses, fd), log.bytes[..log.pos])
      {
        ghost var at, was := log.pos, net.received;
        var tmpbuf := log.Read(BUFFSIZE);
        if |tmpbuf| > 0 {
          net.Write(fd, tmpbuf);
          AddsBoth(old(net.received), was, net.received, ConnOf(net.uses, fd), log.bytes[..at], tmpbuf);
          SlicesJoin(log.bytes, 0, at, log.pos);
          bytesLeft := bytesLeft - |tmpbuf|;
        } else {
          break;
        }
      }
      assert log.bytes[..log.pos] == log.bytes;
      log.Lseek(0);
      log.Lseek(fileSize);
    }

    /** One received chunk: it is appended to the log, and each newline found is answered. */
    method ProcessMessage(net: Network, fd: int, buf: seq<Byte>)
      requires Valid() && |log.bytes| + |buf| < TWO_31
      modifies this, log, net`received
      ensures Valid() && log.bytes == old(log.bytes) + buf
      ensures Adds(old(net.received), net.received, ConnOf(net.uses, fd), Echoes(old(log.bytes), buf))
      decreases |buf|
    {
      hide Echoes, Strchr, Adds;
      EchoesStep(log.bytes, buf);
      if |buf| <= 0 {
        assert buf == [] && log.bytes == log.bytes + buf;
        AddsNothing(net.received, ConnOf(net.uses, fd));
        return;
      }
      var nl := Strchr(buf);
      if nl >= 0 {
        ghost var before := log.bytes;
        Append(buf[..nl + 1]);
        DumpFileToClient(net, fd);
        ghost var mid := net.received;
        var bytesLeft := |buf| - (nl + 1);
        LineAndRest(before, buf, nl + 1);
        EchoesStep(before + buf[..nl + 1], []);
        if bytesLeft > 0 {
          ProcessMessage(net, fd, buf[nl + 1..]);
        } else {
          AddsNothing(mid, ConnOf(net.uses, fd));
        }
        AddsBoth(old(net.received), mid, net.received, ConnOf(net.uses, fd), before + buf[..nl + 1],
                 Echoes(before + buf[..nl + 1], buf[nl + 1..]));
      } else {
        Append(buf);
        AddsNothing(net.received, ConnOf(net.uses, fd));
      }
    }

    // A write at the end of the log, and the running total.
    method Append(data: seq<Byte>)
      requires Valid()
      modifies this, log
      ensures Valid() && log.bytes == old(log.bytes) + data && fileSize == old(fileSize) + |data|
    {
      log.Write(data);
      fileSize := fileSize + |data|;
    }

    lemma LineAndRest(before: seq<Byte>, buf: seq<Byte>, n: nat)
      requires n <= |buf|
      ensures before + buf == before + buf[..n] + buf[n..]
      ensures n == |buf| ==> buf[n..] == [] && before + buf[..n] == before + buf
    {
      assert buf == buf[..n] + buf[n..];
    }

    /** Chunks of any number of connections, one after the other, while no descriptor changes hands. */
    method Serve(net: Network, events: seq<Event>)
      requires forall e :: e in events ==> e.conn == ConnOf(net.uses, e.conn.fd)
      requires Valid() && |log.bytes| + |Logged(events)| < TWO_31
      modifies this, log, net`received
      ensures Valid() && log.bytes == old(log.bytes) + Logged(events)
      ensures Replied(old(net.received), net.received, old(log.bytes), events)
      decreases |events|
    {
      hide Echoes, Replied, Adds, Valid;
      if events == [] {
        RepliedNothing(net.received, log.bytes);
      } else {
        ghost var before, was := log.bytes, net.received;
        var e := events[0];
        ProcessMessage(net, e.conn.fd, e.chunk);
        RepliedOne(was, net.received, before, e);
        ghost var mid := net.received;
        Serve(net, events[1..]);
        RepliedBoth(was, mid, net.received, before, [e], events[1..]);
        assert [e] + events[1..] == events;
      }
    }
  }

  // All chunks, whoever sent them.
  function Logged(events: seq<Event>): seq<Byte> {
    if events == [] then [] else events[0].chunk + Logged(events[1..])
  }

  // What is sent on one connection: the echoes of its own chunks, over the log of all.
  function ReceivedBy(log: seq<Byte>, events: seq<Event>, c: Conn): seq<Byte>
    decreases |events|
  {
    if events == [] then [] else
      var e := events[0];
      (if e.conn == c then Echoes(log, e.chunk) else []) + ReceivedBy(log + e.chunk, events[1..], c)
  }

  ghost predicate Replied(before: map<Conn, seq<Byte>>, after: map<Conn, seq<Byte>>, log: seq<Byte>,
                          events: seq<Event>)
  {
    forall c :: Of(after, c) == Of(before, c) + ReceivedBy(log, events, c)
  }

  lemma RepliedNothing(received: map<Conn, seq<Byte>>, log: seq<Byte>)
    ensures Replied(received, received, log, []) && log + Logged([]) == log
  {
  }

  lemma RepliedOne(before: map<Conn, seq<Byte>>, after: map<Conn, seq<Byte>>, log: seq<Byte>, e: Event)
    requires Adds(before, after, e.conn, Echoes(log, e.chunk))
    ensures Replied(before, after, log, [e])
    ensures Logged([e]) == e.chunk
  {
    assert [e][1..] == [];
    forall c
      ensures Of(after, c) == Of(before, c) + ReceivedBy(log, [e], c)
    {
      assert ReceivedBy(log, [e], c) == if c == e.conn then Echoes(log, e.chunk) else [];
    }
  }

  lemma RepliedBoth(before: map<Conn, seq<Byte>>, mid: map<Conn, seq<Byte>>, after: map<Conn, seq<Byte>>,
                    log: seq<Byte>, some: seq<Event>, more: seq<Event>)
    requires Replied(before, mid, log, some) && Replied(mid, after, log + Logged(some), more)
    ensures Replied(before, after, log, some + more)
    ensures log + Logged(some + more) == log + Logged(some) + Logged(more)
  {
    hide Of, ReceivedBy;
    LoggedAppend(some, more);
    forall c
      ensures Of(after, c) == Of(before, c) + ReceivedBy(log, some + more, c)
    {
      ReceivedAppend(log, some, more, c);
      assert Of(mid, c) == Of(before, c) + ReceivedBy(log, some, c);
    }
  }

  lemma {:induction false} LoggedAppend(a: seq<Event>, b: seq<Event>)
    ensures Logged(a + b) == Logged(a) + Logged(b)
  {
    if a == [] {
      assert a + b == b;
    } else {
      assert (a + b)[0] == a[0] && (a + b)[1..] == a[1..] + b;
      LoggedAppend(a[1..], b);
    }
  }

  lemma {:induction false} ReceivedAppend(log: seq<Byte>, a: seq<Event>, b: seq<Event>, c: Conn)
    ensures ReceivedBy(log, a + b, c) == ReceivedBy(log, a, c) + ReceivedBy(log + Logged(a), b, c)
    decreases |a|
  {
    hide Echoes;
    if a == [] {
      assert a + b == b && log + Logged(a) == log;
    } else {
      assert (a + b)[0] == a[0] && (a + b)[1..] == a[1..] + b;
      ReceivedAppend(log + a[0].chunk, a[1..], b, c);
      assert log + a[0].chunk + Logged(a[1..]) == log + Logged(a);
    }
  }
}
