/** What the poll server's clients are owed, and how far it depends on where its reads cut their bytes. */
module Fragmentation {
  import opened Bytes
  import opened PollServer

  // A byte and the connection it comes from.
  datatype Tagged = Tagged(conn: Conn, byte: Byte)

  function Tag(conn: Conn, chunk: seq<Byte>): (t: seq<Tagged>)
    ensures |t| == |chunk|
  {
    seq(|chunk|, (i: nat) requires i < |chunk| => Tagged(conn, chunk[i]))
  }

  function Untag(t: seq<Tagged>): (s: seq<Byte>)
    ensures |s| == |t|
  {
    seq(|t|, (i: nat) requires i < |t| => t[i].byte)
  }

  // All bytes in the order in which they arrive.
  function Arrival(events: seq<Event>): seq<Tagged> {
    if events == [] then [] else Tag(events[0].conn, events[0].chunk) + Arrival(events[1..])
  }

  lemma {:induction false} UntagArrival(events: seq<Event>)
    ensures Untag(Arrival(events)) == Logged(events)
  {
    if events != [] {
      var first, rest := Tag(events[0].conn, events[0].chunk), Arrival(events[1..]);
      UntagArrival(events[1..]);
      assert Untag(first + rest) == events[0].chunk + Untag(rest);
    }
  }

  // The specification on the arriving bytes: per own newline, in order, the log up to and with it.
  function OwnNewlines(log: seq<Byte>, t: seq<Tagged>, c: Conn): seq<Byte>
    decreases |t|
  {
    if t == [] then [] else
      var log' := log + [t[0].byte];
      (if t[0] == Tagged(c, NEWLINE) then log' else []) + OwnNewlines(log', t[1..], c)
  }

  // No newline behind a NUL in the same chunk.
  predicate Clean(buf: seq<Byte>) {
    forall i, j :: 0 <= i < j < |buf| ==> !(buf[i] == NUL && buf[j] == NEWLINE)
  }

  lemma {:induction false} NothingOwned(log: seq<Byte>, t: seq<Tagged>, c: Conn)
    requires Tagged(c, NEWLINE) !in t
    ensures OwnNewlines(log, t, c) == []
    decreases |t|
  {
    if t != [] {
      NothingOwned(log + [t[0].byte], t[1..], c);
    }
  }

  lemma OwnStep(log: seq<Byte>, t: seq<Tagged>, c: Conn)
    requires t != []
    ensures var log' := log + [t[0].byte];
            OwnNewlines(log, t, c) ==
            (if t[0] == Tagged(c, NEWLINE) then log' else []) + OwnNewlines(log', t[1..], c)
  {
  }

  lemma {:induction false} OwnAppend(log: seq<Byte>, a: seq<Tagged>, b: seq<Tagged>, c: Conn)
    ensures OwnNewlines(log, a + b, c) == OwnNewlines(log, a, c) + OwnNewlines(log + Untag(a), b, c)
    decreases |a|
  {
    if a == [] {
      assert a + b == b && log + Untag(a) == log;
    } else {
      hide OwnNewlines;
      OwnStep(log, a, c);
      OwnStep(log, a + b, c);
      assert (a + b)[1..] == a[1..] + b;
      OwnAppend(log + [a[0].byte], a[1..], b, c);
      assert log + [a[0].byte] + Untag(a[1..]) == log + Untag(a);
    }
  }

  // Up to the newline that strchr finds there is no other, and if it finds none in a clean chunk there is none.
  lemma {:induction false} StrchrFirst(buf: seq<Byte>)
    ensures Strchr(buf) >= 0 ==> NEWLINE !in buf[..Strchr(buf)]
    ensures Strchr(buf) < 0 && Clean(buf) ==> NEWLINE !in buf
  {
    if buf != [] && buf[0] != NUL && buf[0] != NEWLINE {
      var rest := buf[1..];
      StrchrFirst(rest);
      var p := Strchr(rest);
      if p >= 0 {
        assert buf[..p + 1] == [buf[0]] + rest[..p];
      } else if Clean(buf) {
        CleanPart(buf, 1, |buf|);
        assert buf == [buf[0]] + rest;
      }
    }
  }

  lemma CleanPart(buf: seq<Byte>, lo: nat, hi: nat)
    requires Clean(buf) && lo <= hi <= |buf|
    ensures Clean(buf[lo..hi])
  {
  }

  lemma TagAppend(conn: Conn, a: seq<Byte>, b: seq<Byte>)
    ensures Tag(conn, a + b) == Tag(conn, a) + Tag(conn, b)
    ensures Untag(Tag(conn, a)) == a
  {
  }

  // A clean chunk is answered as the arriving bytes demand.
  lemma {:induction false} CleanEchoes(log: seq<Byte>, buf: seq<Byte>, conn: Conn)
    requires Clean(buf)
    ensures Echoes(log, buf) == OwnNewlines(log, Tag(conn, buf), conn)
    decreases |buf|
  {
    hide Strchr, OwnNewlines, Echoes, Clean, Tag;
    StrchrFirst(buf);
    EchoesStep(log, buf);
    var p := Strchr(buf);
    if p < 0 {
      PlainOwnsNothing(log, buf, conn);
    } else {
      var line, rest := buf[..p + 1], buf[p + 1..];
      assert buf == line + rest && line == buf[..p] + [NEWLINE];
      LineEcho(log, buf[..p], conn);
      TagAppend(conn, line, rest);
      OwnAppend(log, Tag(conn, line), Tag(conn, rest), conn);
      CleanPart(buf, p + 1, |buf|);
      assert rest == buf[p + 1..|buf|];
      CleanEchoes(log + line, rest, conn);
    }
  }

  lemma PlainOwnsNothing(log: seq<Byte>, buf: seq<Byte>, conn: Conn)
    requires NEWLINE !in buf
    ensures OwnNewlines(log, Tag(conn, buf), conn) == []
  {
    NothingOwned(log, Tag(conn, buf), conn);
  }

  lemma LineEcho(log: seq<Byte>, front: seq<Byte>, conn: Conn)
    requires NEWLINE !in front
    ensures OwnNewlines(log, Tag(conn, front + [NEWLINE]), conn) == log + (front + [NEWLINE])
  {
    var last := [Tagged(conn, NEWLINE)];
    PlainOwnsNothing(log, front, conn);
    TagAppend(conn, front, [NEWLINE]);
    assert Tag(conn, [NEWLINE]) == last;
    OwnAppend(log, Tag(conn, front), last, conn);
    OwnStep(log + front, last, conn);
    assert OwnNewlines(log + front + [NEWLINE], last[1..], conn) == [];
  }

  // The events are one way in which these bytes may be read.
  ghost predicate Fragments(events: seq<Event>, t: seq<Tagged>) {
    && Arrival(events) == t
    && forall k :: 0 <= k < |events| ==> 0 < |events[k].chunk| <= MAXLINE
  }

  lemma {:induction false} CleanReplies(log: seq<Byte>, events: seq<Event>, c: Conn)
    requires forall k :: 0 <= k < |events| ==> Clean(events[k].chunk)
    ensures ReceivedBy(log, events, c) == OwnNewlines(log, Arrival(events), c)
    decreases |events|
  {
    hide Clean, OwnNewlines, Echoes;
    if events == [] {
      NothingOwned(log, [], c);
    } else {
      var e := events[0];
      var t := Tag(e.conn, e.chunk);
      CleanReplies(log + e.chunk, events[1..], c);
      OwnAppend(log, t, Arrival(events[1..]), c);
      TagAppend(e.conn, e.chunk, []);
      if e.conn == c {
        CleanEchoes(log, e.chunk, c);
      } else {
        NothingOwned(log, t, c);
      }
    }
  }

  // No newline comes behind a NUL of the same connection so soon that one read could deliver both.
  predicate CleanWithin(t: seq<Tagged>, n: nat) {
    forall i, j :: 0 <= i < j < |t| && j - i < n && OneConn(t[i..j + 1]) ==>
                     !(t[i].byte == NUL && t[j].byte == NEWLINE)
  }

  predicate OneConn(t: seq<Tagged>) {
    forall i, j :: 0 <= i < |t| && 0 <= j < |t| ==> t[i].conn == t[j].conn
  }

  lemma {:induction false} FragmentPlace(events: seq<Event>, k: nat) returns (start: nat)
    requires k < |events|
    ensures start + |events[k].chunk| <= |Arrival(events)|
    ensures Arrival(events)[start..start + |events[k].chunk|] == Tag(events[k].conn, events[k].chunk)
  {
    if k == 0 {
      start := 0;
    } else {
      var rest := FragmentPlace(events[1..], k - 1);
      var n := |events[0].chunk|;
      start := n + rest;
      var t := Arrival(events);
      assert t[n..] == Arrival(events[1..]);
      assert t[start..start + |events[k].chunk|] == t[n..][rest..rest + |events[k].chunk|];
    }
  }

  lemma FragmentClean(events: seq<Event>, k: nat)
    requires k < |events| && |events[k].chunk| <= MAXLINE && CleanWithin(Arrival(events), MAXLINE)
    ensures Clean(events[k].chunk)
  {
    hide Arrival;
    var start := FragmentPlace(events, k);
    var t, e := Arrival(events), events[k];
    forall i, j | 0 <= i < j < |e.chunk|
      ensures !(e.chunk[i] == NUL && e.chunk[j] == NEWLINE)
    {
      var part := t[start..start + |e.chunk|];
      assert part[i] == t[start + i] && part[j] == t[start + j];
      assert t[start + i..start + j + 1] == part[i..j + 1];
      assert OneConn(t[start + i..start + j + 1]);
    }
  }

  function Singles(t: seq<Tagged>): (events: seq<Event>)
    ensures |events| == |t|
    ensures forall k :: 0 <= k < |t| ==> events[k] == Event(t[k].conn, [t[k].byte])
  {
    seq(|t|, (k: nat) requires k < |t| => Event(t[k].conn, [t[k].byte]))
  }

  lemma {:induction false} SinglesArrive(t: seq<Tagged>)
    ensures Arrival(Singles(t)) == t
    ensures Logged(Singles(t)) == Untag(t)
  {
    if t != [] {
      assert Singles(t)[1..] == Singles(t[1..]);
      SinglesArrive(t[1..]);
      assert Tag(t[0].conn, [t[0].byte]) == [t[0]];
      assert Untag(t) == [t[0].byte] + Untag(t[1..]);
    }
  }

  lemma SinglesReplied(log: seq<Byte>, t: seq<Tagged>, c: Conn)
    ensures ReceivedBy(log, Singles(t), c) == OwnNewlines(log, t, c)
  {
    SinglesArrive(t);
    CleanReplies(log, Singles(t), c);
  }

  lemma {:induction false} ArrivalAppend(a: seq<Event>, b: seq<Event>)
    ensures Arrival(a + b) == Arrival(a) + Arrival(b)
  {
    if a == [] {
      assert a + b == b;
    } else {
      assert (a + b)[0] == a[0] && (a + b)[1..] == a[1..] + b;
      ArrivalAppend(a[1..], b);
    }
  }

  lemma Cut(a: seq<Tagged>, e: Event, b: seq<Tagged>)
    requires 0 < |e.chunk| <= MAXLINE
    ensures Fragments(Singles(a) + ([e] + Singles(b)), a + (Tag(e.conn, e.chunk) + b))
  {
    SinglesArrive(a);
    SinglesArrive(b);
    ArrivalAppend(Singles(a), [e] + Singles(b));
    ArrivalAppend([e], Singles(b));
    assert [e][1..] == [];
    assert Arrival([e]) == Tag(e.conn, e.chunk) + Arrival([]);
  }

  // An own newline among the arriving bytes is owed a non-empty response.
  lemma {:induction false} NewlineOwed(log: seq<Byte>, t: seq<Tagged>, c: Conn)
    requires Tagged(c, NEWLINE) in t
    ensures OwnNewlines(log, t, c) != []
    decreases |t|
  {
    if t[0] != Tagged(c, NEWLINE) {
      assert Tagged(c, NEWLINE) in t[1..];
      NewlineOwed(log + [t[0].byte], t[1..], c);
    }
  }

  lemma LostChunk(log: seq<Byte>, e: Event)
    requires e.chunk != [] && e.chunk[0] == NUL
    ensures ReceivedBy(log, [e], e.conn) == [] && Logged([e]) == e.chunk
  {
    assert [e][1..] == [];
    assert Echoes(log, e.chunk) == [];
  }

  // If the bytes i to j arrive in one read, the newline at j is not answered.
  lemma HiddenNewline(log: seq<Byte>, t: seq<Tagged>, i: nat, j: nat) returns (events: seq<Event>)
    requires i < j < |t| && j - i < MAXLINE && OneConn(t[i..j + 1])
    requires t[i].byte == NUL && t[j].byte == NEWLINE
    ensures Fragments(events, t) && ReceivedBy(log, events, t[i].conn) != OwnNewlines(log, t, t[i].conn)
  {
    hide OwnNewlines, ReceivedBy, Logged, Arrival, Fragments, Singles;
    var c := t[i].conn;
    var a, m, b := t[..i], t[i..j + 1], t[j + 1..];
    var e := Event(c, Untag(m));
    assert m[0] == t[i] && m[j - i] == t[j];
    assert Tag(c, e.chunk) == m;
    events := Singles(a) + ([e] + Singles(b));
    assert t == a + (m + b);
    Cut(a, e, b);
    SinglesArrive(a);
    ReceivedAppend(log, Singles(a), [e] + Singles(b), c);
    LostChunk(log + Untag(a), e);
    ReceivedAppend(log + Untag(a), [e], Singles(b), c);
    SinglesReplied(log, a, c);
    SinglesReplied(log + Untag(a) + Untag(m), b, c);
    OwnAppend(log, a, m + b, c);
    OwnAppend(log + Untag(a), m, b, c);
    NewlineOwed(log + Untag(a), m, c);
    assert |OwnNewlines(log, t, c)| > |ReceivedBy(log, events, c)|;
  }

  /** Every client is sent what the arriving bytes of all of them demand, for every way these may be cut into
      reads, exactly when no newline follows a NUL of the same connection within the reach of one read. */
  lemma FragmentationIndependent(log: seq<Byte>, t: seq<Tagged>)
    ensures (forall events, c :: Fragments(events, t) ==> ReceivedBy(log, events, c) == OwnNewlines(log, t, c))
            <==> CleanWithin(t, MAXLINE)
  {
    hide ReceivedBy, OwnNewlines;
    if CleanWithin(t, MAXLINE) {
      forall events: seq<Event>, c | Fragments(events, t)
        ensures ReceivedBy(log, events, c) == OwnNewlines(log, t, c)
      {
        forall k: nat | k < |events|
          ensures Clean(events[k].chunk)
        {
          FragmentClean(events, k);
        }
        CleanReplies(log, events, c);
      }
    } else {
      var i, j :| 0 <= i < j < |t| && j - i < MAXLINE && OneConn(t[i..j + 1])
                  && t[i].byte == NUL && t[j].byte == NEWLINE;
      var events := HiddenNewline(log, t, i, j);
    }
  }
}
