/** The slot table and the service loop: server/aesdsocket.c. */
module PollTable {
  import opened Bytes
  import opened Sequences
  import opened PollServer
  import opened PollRounds

  // How a round ends: the loop goes on, or it is left because no slot is free.
  datatype Outcome = Goes | TableFull

  // The log's length stays below what file_size can count.
  predicate Room(log: seq<Byte>, events: seq<Event>) {
    |log| + |Logged(events)| < TWO_31
  }

  // The log and the clients once `events` have been read and processed.
  ghost predicate Answered(log: seq<Byte>, log': seq<Byte>, sent: map<Conn, seq<Byte>>, sent': map<Conn, seq<Byte>>,
                           events: seq<Event>)
  {
    log' == log + Logged(events) && Replied(sent, sent', log, events)
  }

  lemma AnsweredIs(log: seq<Byte>, log': seq<Byte>, sent: map<Conn, seq<Byte>>, sent': map<Conn, seq<Byte>>,
                   events: seq<Event>)
    requires Answered(log, log', sent, sent', events)
    ensures log' == log + Logged(events)
    ensures forall c :: Of(sent', c) == Of(sent, c) + ReceivedBy(log, events, c)
  {
  }

  lemma AnsweredNothing(log: seq<Byte>, sent: map<Conn, seq<Byte>>)
    ensures Answered(log, log, sent, sent, [])
  {
    RepliedNothing(sent, log);
  }

  lemma AnsweredBoth(log: seq<Byte>, log1: seq<Byte>, log2: seq<Byte>, sent: map<Conn, seq<Byte>>,
                     sent1: map<Conn, seq<Byte>>, sent2: map<Conn, seq<Byte>>, some: seq<Event>, more: seq<Event>)
    requires Answered(log, log1, sent, sent1, some) && Answered(log1, log2, sent1, sent2, more)
    ensures Answered(log, log2, sent, sent2, some + more)
  {
    hide Replied, Logged;
    RepliedBoth(sent, sent1, sent2, log, some, more);
  }

  // What comes later still fits.
  lemma RoomLater(log: seq<Byte>, log1: seq<Byte>, some: seq<Event>, more: seq<Event>)
    requires Room(log, some + more) && log1 == log + Logged(some)
    ensures Room(log1, more) && Room(log, some)
  {
    LoggedAppend(some, more);
  }

  lemma RoomNow(log: seq<Byte>, log1: seq<Byte>, sent: map<Conn, seq<Byte>>, sent1: map<Conn, seq<Byte>>,
                done: seq<Event>, events: seq<Event>, all: seq<Event>)
    requires Answered(log, log1, sent, sent1, done) && Room(log, all) && done + events <= all
    ensures Room(log1, events)
  {
    assert all == done + events + all[|done + events|..];
    RoomLater(log, log + Logged(done + events), done + events, all[|done + events|..]);
    RoomLater(log, log1, done, events);
  }

  lemma RunStep(done: seq<Event>, fds: seq<int>, uses: map<int, nat>, rounds: seq<RoundInput>, n: nat)
    requires n < |rounds| && fds != [] && forall i :: 0 <= i < |rounds| ==> |fds| <= |rounds[i].poll|
    ensures done + RunEvents(fds, uses, rounds[n..]) ==
            done + RoundEvents(fds, uses, rounds[n])
            + if Leaves(fds, rounds[n]) then []
              else RunEvents(AfterRound(fds, rounds[n]), UsesAfter(fds, uses, rounds[n]), rounds[n + 1..])
    ensures RunLeaves(fds, rounds[n..]) <==>
            Leaves(fds, rounds[n]) || RunLeaves(AfterRound(fds, rounds[n]), rounds[n + 1..])
  {
    hide RoundEvents, AfterRound, UsesAfter, Leaves;
    assert rounds[n..][0] == rounds[n] && rounds[n..][1..] == rounds[n + 1..];
  }

  lemma RunEnds(fds: seq<int>, uses: map<int, nat>, rounds: seq<RoundInput>)
    requires fds != [] && forall i :: 0 <= i < |rounds| ==> |fds| <= |rounds[i].poll|
    ensures rounds[0..] == rounds
    ensures RunEvents(fds, uses, rounds[|rounds|..]) == [] && !RunLeaves(fds, rounds[|rounds|..])
  {
  }

  class Table {
    const fd: array<int>
    const revents: array<Revents>
    var maxi: nat
    var nready: int

    // Slots above maxi are free and have never been polled.
    ghost predicate Valid()
      reads this, fd, revents
    {
      && fd.Length == revents.Length == OPEN_MAX && maxi < OPEN_MAX
      && fd[0] >= 0
      && forall i :: maxi < i < OPEN_MAX ==> fd[i] < 0 && revents[i] == NONE
    }

    constructor Initialize(listenfd: nat)
      ensures Valid() && fresh(fd) && fresh(revents)
      ensures maxi == 0 && fd[0] == listenfd && forall i :: 0 < i < OPEN_MAX ==> fd[i] < 0
    {
      fd := new int[OPEN_MAX](_ => -1);
      revents := new Revents[OPEN_MAX](_ => NONE);
      maxi, nready := 0, 0;
      new;
      fd[0] := listenfd;
    }

    // What poll may report: nothing for a free slot.
    ghost predicate Reports(reported: seq<Revents>)
      reads this, fd
      requires fd.Length == OPEN_MAX
    {
      |reported| == maxi + 1 <= OPEN_MAX && forall i :: 0 <= i <= maxi && fd[i] < 0 ==> reported[i] == NONE
    }

    method Poll(reported: seq<Revents>)
      requires Valid() && Reports(reported)
      modifies this`nready, revents
      ensures Valid() && revents[..maxi + 1] == reported && nready == NonZero(reported)
    {
      var i := 0;
      while i <= maxi
        invariant 0 <= i <= maxi + 1
        invariant revents[..i] == reported[..i]
        invariant forall k :: maxi < k < OPEN_MAX ==> revents[k] == NONE
      {
        revents[i] := reported[i];
        i := i + 1;
      }
      nready := NonZero(reported);
    }

    // The accept branch: the first free slot, or OPEN_MAX.
    method Accept(connfd: int) returns (i: nat)
      requires Valid()
      modifies this`maxi, fd
      ensures 0 < i <= OPEN_MAX
      ensures forall k :: 0 < k < i ==> old(fd[k]) >= 0
      ensures i < OPEN_MAX ==>
                && Valid() && old(fd[i]) < 0
                && fd[..] == old(fd[..])[i := connfd]
                && maxi == Max(old(maxi), i)
      ensures i == OPEN_MAX ==> fd[..] == old(fd[..]) && maxi == old(maxi)
    {
      i := 1;
      while i < OPEN_MAX
        invariant 0 < i <= OPEN_MAX && fd[..] == old(fd[..]) && maxi == old(maxi)
        invariant forall k :: 0 < k < i ==> fd[k] >= 0
      {
        if fd[i] < 0 {
          fd[i] := connfd;
          break;
        }
        i := i + 1;
      }
      if i == OPEN_MAX {
        return;
      }
      if i > maxi {
        maxi := i;
      }
    }

    // One ready client: what it sent is processed, and a connection that has ended gives its slot back.
    method ReadClient(server: Server, net: Network, k: nat, read: nat -> ReadOutcome, ghost fds: seq<int>,
                      ghost uses: map<int, nat>, ghost served: seq<nat>, ghost all: seq<nat>, ghost log: seq<Byte>,
                      ghost sent: map<Conn, seq<Byte>>)
      requires 0 < k <= maxi && Valid() && k < |fds| && fds[k] == fd[k] && uses == net.uses
      requires server.Valid() && served + [k] <= all && Room(log, Delivered(fds, uses, all, read))
      requires Answered(log, server.log.bytes, sent, net.received, Delivered(fds, uses, served, read))
      modifies fd, server, server.log, net`received
      ensures Valid() && server.Valid()
      ensures fd[..] == if Closes(read(k)) then old(fd[..])[k := -1] else old(fd[..])
      ensures Answered(log, server.log.bytes, sent, net.received, Delivered(fds, uses, served + [k], read))
    {
      hide Replied, Adds, Delivered;
      ghost var log1, sent1, rest := server.log.bytes, net.received, all[|served| + 1..];
      assert all == served + [k] + rest;
      DeliveredAppend(fds, uses, served, [k], read);
      DeliveredOne(fds, uses, k, read);
      DeliveredAppend(fds, uses, served + [k], rest, read);
      ghost var next := Delivered(fds, uses, served + [k], read);
      RoomLater(log, log + Logged(next), next, Delivered(fds, uses, rest, read));
      RoomLater(log, log1, Delivered(fds, uses, served, read), Delivered(fds, uses, [k], read));
      var n := read(k);
      if n.Data? {
        server.ProcessMessage(net, fd[k], n.chunk);
        RepliedOne(sent1, net.received, log1, Event(ConnOf(uses, fd[k]), n.chunk));
      } else {
        AnsweredNothing(log1, sent1);
        if Closes(n) {
          fd[k] := -1;
        }
      }
      AnsweredBoth(log, log1, server.log.bytes, sent, sent1, net.received,
                   Delivered(fds, uses, served, read), Delivered(fds, uses, [k], read));
    }

    // The service loop. Whatever order the countdown ends in, it serves the ready clients in order, up to
    // the first failed read.
    method Service(server: Server, net: Network, read: nat -> ReadOutcome) returns (served: seq<nat>)
      requires Valid() && nready >= NonZero(revents[1..maxi + 1])
      requires forall i :: 0 < i <= maxi && Ready(revents[i]) ==> fd[i] >= 0
      requires server.Valid()
      requires var serves := UpToFailed(ReadySlots(revents[..maxi + 1], 1), read);
               Room(server.log.bytes, Delivered(fd[..], net.uses, serves, read))
      modifies this`nready, fd, server, server.log, net`received
      ensures Valid() && server.Valid()
      ensures served == UpToFailed(ReadySlots(revents[..maxi + 1], 1), read)
      ensures fd[..] == Afterwards(old(fd[..]), served, read)
      ensures Answered(old(server.log.bytes), server.log.bytes, old(net.received), net.received,
                       Delivered(old(fd[..]), net.uses, served, read))
    {
      hide UpToFailed, ReadySlots, NonZero, Afterwards, AllBelow, Answered, Delivered, Room, Closes, Server.Valid;
      ghost var r, before, uses := revents[..maxi + 1], fd[..], net.uses;
      ghost var log, sent, all := server.log.bytes, net.received, UpToFailed(ReadySlots(r, 1), read);
      assert r[1..] == revents[1..maxi + 1];
      AfterwardsNobody(before, uses, read);
      AnsweredNothing(log, sent);
      served := [];
      var i := 1;
      while i <= maxi
        invariant 0 < i <= maxi + 1
        invariant nready >= NonZero(r[i..])
        invariant served + UpToFailed(ReadySlots(r, i), read) == all
        invariant AllBelow(served, i)
        invariant fd[..] == Afterwards(before, served, read)
        invariant Valid()
        invariant server.Valid()
        invariant Answered(log, server.log.bytes, sent, net.received, Delivered(before, uses, served, read))
      {
        NonZeroStep(r, i);
        ReadyStep(served, r, i, read);
        AfterwardsStep(before, served, i, read);
        var sockfd := fd[i];
        if sockfd < 0 {
          i := i + 1;
          continue;
        }
        if Ready(revents[i]) {
          var n := read(i);
          ReadClient(server, net, i, read, before, uses, served, all, log, sent);
          served := served + [i];
          if n == Failed {
            return;
          }
          nready := nready - 1;
          if nready <= 0 {
            NoneReady(r, i + 1);
            return;
          }
        }
        i := i + 1;
      }
      AllNone(r, i);
    }

    // The round, in terms of the functions that say whom it serves and what that does to the slots.
    method ServeRound(server: Server, net: Network, reported: seq<Revents>, connfd: int, read: nat -> ReadOutcome)
      returns (outcome: Outcome, served: seq<nat>, slot: nat)
      requires Valid() && Reports(reported)
      requires server.Valid()
      requires var uses := Uses(net.uses, reported, connfd);
               Room(server.log.bytes, Delivered(fd[..], uses, Serves(fd[..], reported, read), read))
      modifies this, fd, revents, server, server.log, net
      ensures outcome == Goes ==> Valid()
      ensures server.Valid()
      ensures net.uses == Uses(old(net.uses), reported, connfd)
      ensures outcome == TableFull <==> reported[0].pollin && Full(old(fd[..]))
      ensures served == Serves(old(fd[..]), reported, read)
      ensures 0 < slot <= OPEN_MAX && (slot < OPEN_MAX <==> outcome == Goes && reported[0].pollin)
      ensures slot < OPEN_MAX ==>
                && slot !in served
                && old(fd[slot]) < 0 && forall k :: 0 < k < slot ==> old(fd[k]) >= 0
      ensures var fds := if slot < OPEN_MAX then old(fd[..])[slot := connfd] else old(fd[..]);
              fd[..] == Afterwards(fds, served, read)
      ensures Answered(old(server.log.bytes), server.log.bytes, old(net.received), net.received,
                       Delivered(old(fd[..]), net.uses, served, read))
    {
      hide UpToFailed, ReadySlots, NonZero, Afterwards, Answered, Delivered, Room, Server.Valid;
      ghost var before := fd[..];
      Poll(reported);
      served := [];
      var goes;
      slot, outcome, goes := Listen(net, reported, connfd);
      AnsweredNothing(server.log.bytes, net.received);
      AfterwardsNobody(before, net.uses, read);
      if goes {
        ghost var serves := UpToFailed(ReadySlots(reported, 1), read);
        if slot < OPEN_MAX {
          if slot in serves {
            ServedReady(reported, 1, read, slot);
          }
          DeliveredElsewhere(before, net.uses, slot, connfd, serves, read);
        }
        served := Service(server, net, read);
      } else {
        AfterwardsNobody(fd[..], net.uses, read);
      }
    }

    /** One round after poll returned: every client that is ready is served once, in order, up to the first
        failed read; a connection accepted in this round is not, and takes the first free slot. */
    method Round(server: Server, net: Network, reported: seq<Revents>, connfd: int, read: nat -> ReadOutcome)
      returns (outcome: Outcome, served: seq<nat>, slot: nat)
      requires Valid() && Reports(reported)
      requires server.Valid()
      requires var uses := Uses(net.uses, reported, connfd);
               Room(server.log.bytes, Delivered(fd[..], uses, Serves(fd[..], reported, read), read))
      modifies this, fd, revents, server, server.log, net
      ensures outcome == Goes ==> Valid()
      ensures server.Valid()
      ensures net.uses == Uses(old(net.uses), reported, connfd)
      ensures forall f :: ConnOf(net.uses, f) ==
                          Conn(f, ConnOf(old(net.uses), f).use + if reported[0].pollin && f == connfd then 1 else 0)
      ensures outcome == TableFull <==> reported[0].pollin && Full(old(fd[..]))
      ensures served == Serves(old(fd[..]), reported, read)
      ensures outcome == TableFull <==> reported[0].pollin && forall k :: 0 < k < OPEN_MAX ==> old(fd[k]) >= 0
      ensures forall k: nat :: k in served <==>
                && outcome == Goes && 0 < k < |reported| && (reported[k].pollin || reported[k].pollerr)
                && forall j :: 0 < j < k && (reported[j].pollin || reported[j].pollerr) ==> read(j) != Failed
      ensures forall a, b :: 0 <= a < b < |served| ==> served[a] < served[b]
      ensures 0 < slot <= OPEN_MAX && (slot < OPEN_MAX <==> outcome == Goes && reported[0].pollin)
      ensures slot < OPEN_MAX ==>
                && slot !in served
                && old(fd[slot]) < 0 && forall k :: 0 < k < slot ==> old(fd[k]) >= 0
      ensures var fds := if slot < OPEN_MAX then old(fd[..])[slot := connfd] else old(fd[..]);
              fd[..] == Afterwards(fds, served, read)
      ensures forall k: nat :: k < OPEN_MAX ==>
                fd[k] == if k in served && (read(k) == Eof || read(k) == Reset) then -1
                         else if k == slot then connfd else old(fd[k])
      ensures var events := Delivered(old(fd[..]), net.uses, served, read);
              && server.log.bytes == old(server.log.bytes) + Logged(events)
              && forall c :: Of(net.received, c) ==
                             Of(old(net.received), c) + ReceivedBy(old(server.log.bytes), events, c)
      ensures Answered(old(server.log.bytes), server.log.bytes, old(net.received), net.received,
                       Delivered(old(fd[..]), net.uses, served, read))
    {
      outcome, served, slot := ServeRound(server, net, reported, connfd, read);
      ServesExact(old(fd[..]), reported, read);
    }

    // The part of a round that looks at the listening socket, and whether the clients come next.
    method Listen(net: Network, reported: seq<Revents>, connfd: int)
      returns (slot: nat, outcome: Outcome, goes: bool)
      requires Valid() && Reports(reported)
      requires revents[..maxi + 1] == reported && nready == NonZero(reported)
      modifies this`nready, this`maxi, fd, net`uses
      ensures net.uses == Uses(old(net.uses), reported, connfd)
      ensures 0 < slot <= OPEN_MAX && (slot < OPEN_MAX <==> outcome == Goes && reported[0].pollin)
      ensures outcome == TableFull <==>
              reported[0].pollin && forall k :: 0 < k < OPEN_MAX ==> old(fd[k]) >= 0
      ensures slot < OPEN_MAX ==> old(fd[slot]) < 0 && forall k :: 0 < k < slot ==> old(fd[k]) >= 0
      ensures fd[..] == if slot < OPEN_MAX then old(fd[..])[slot := connfd] else old(fd[..])
      ensures slot < |reported| ==> reported[slot] == NONE
      ensures outcome == Goes ==> Valid() && old(maxi) <= maxi
      ensures outcome == Goes && !goes ==> ReadySlots(reported, 1) == []
      ensures goes ==>
                && outcome == Goes
                && nready >= NonZero(revents[1..maxi + 1])
                && ReadySlots(revents[..maxi + 1], 1) == ReadySlots(reported, 1)
                && forall i :: 0 < i <= maxi && Ready(revents[i]) ==> fd[i] >= 0
    {
      hide ReadySlots, NonZero;
      slot, outcome, goes := OPEN_MAX, Goes, true;
      ghost var before := fd[..];
      NonZeroStep(reported, 0);
      assert reported[0..] == reported;
      if revents[0].pollin {
        net.Accept(connfd);
        slot := Accept(connfd);
        if slot == OPEN_MAX {
          return slot, TableFull, false;
        }
        nready := nready - 1;
        if nready <= 0 {
          NoneReady(reported, 1);
          return slot, Goes, false;
        }
      }
      PolledPart(reported);
    }

    // The slots up to maxi, of which the last one may not have been polled.
    lemma PolledPart(reported: seq<Revents>)
      requires Valid() && 0 < |reported| <= maxi + 1 && revents[..|reported|] == reported
      requires forall k :: |reported| <= k <= maxi ==> revents[k] == NONE
      ensures NonZero(revents[1..maxi + 1]) == NonZero(reported[1..])
      ensures ReadySlots(revents[..maxi + 1], 1) == ReadySlots(reported, 1)
    {
      hide ReadySlots, NonZero;
      var r := revents[..maxi + 1];
      UnpolledSlots(reported, r, 1);
      assert revents[1..maxi + 1] == r[1..];
    }

    // One turn of the main loop, seen as if all slots were polled.
    method Turn(server: Server, net: Network, r: RoundInput) returns (outcome: Outcome)
      requires Valid() && server.Valid() && |r.poll| == OPEN_MAX
      requires Room(server.log.bytes, RoundEvents(fd[..], net.uses, r))
      modifies this, fd, revents, server, server.log, net
      ensures server.Valid() && (outcome == Goes ==> Valid())
      ensures outcome == TableFull <==> Leaves(old(fd[..]), r)
      ensures fd[..] == AfterRound(old(fd[..]), r) && net.uses == UsesAfter(old(fd[..]), old(net.uses), r)
      ensures Answered(old(server.log.bytes), server.log.bytes, old(net.received), net.received,
                       RoundEvents(old(fd[..]), old(net.uses), r))
    {
      hide Serves, Afterwards, Accepted, Answered, Delivered, Room, Server.Valid;
      ghost var fds := fd[..];
      var reported := Masked(fd[..], r.poll, maxi + 1);
      UnpolledRound(fds, r.poll, maxi + 1, r.read);
      var served, slot;
      outcome, served, slot := Round(server, net, reported, r.connfd, r.read);
      AcceptedIs(fds, Masked(fds, r.poll, OPEN_MAX), r.connfd, slot);
    }

    /** Any number of rounds, until one finds the table full: the log gets what the clients sent in the order in
        which they are served, and each client is sent the echoes of its own chunks. */
    method Run(server: Server, net: Network, rounds: seq<RoundInput>) returns (outcome: Outcome)
      requires Valid() && server.Valid()
      requires forall i :: 0 <= i < |rounds| ==> |rounds[i].poll| == OPEN_MAX
      requires Room(server.log.bytes, RunEvents(fd[..], net.uses, rounds))
      modifies this, fd, revents, server, server.log, net
      ensures server.Valid() && (outcome == Goes ==> Valid())
      ensures outcome == TableFull <==> RunLeaves(old(fd[..]), rounds)
      ensures var events := RunEvents(old(fd[..]), old(net.uses), rounds);
              && server.log.bytes == old(server.log.bytes) + Logged(events)
              && forall c :: Of(net.received, c) ==
                             Of(old(net.received), c) + ReceivedBy(old(server.log.bytes), events, c)
    {
      hide RunEvents, RunLeaves, RoundEvents, AfterRound, UsesAfter, Leaves, Answered, Room, Server.Valid;
      RunEnds(fd[..], net.uses, rounds);
      ghost var log, sent, all := server.log.bytes, net.received, RunEvents(fd[..], net.uses, rounds);
      ghost var done: seq<Event> := [];
      AnsweredNothing(log, sent);
      outcome := Goes;
      var n := 0;
      while n < |rounds| && outcome == Goes
        invariant n <= |rounds| && server.Valid() && (outcome == Goes ==> Valid())
        invariant Answered(log, server.log.bytes, sent, net.received, done)
        invariant all == done + if outcome == Goes then RunEvents(fd[..], net.uses, rounds[n..]) else []
        invariant RunLeaves(old(fd[..]), rounds) <==> outcome == TableFull || RunLeaves(fd[..], rounds[n..])
      {
        ghost var log1, sent1, events := server.log.bytes, net.received, RoundEvents(fd[..], net.uses, rounds[n]);
        RunStep(done, fd[..], net.uses, rounds, n);
        RoomNow(log, log1, sent, sent1, done, events, all);
        outcome := Turn(server, net, rounds[n]);
        AnsweredBoth(log, log1, server.log.bytes, sent, sent1, net.received, done, events);
        done := done + events;
        n := n + 1;
      }
      RunEnds(fd[..], net.uses, rounds);
      assert done + [] == done;
      AnsweredIs(log, server.log.bytes, sent, net.received, done);
    }
  }
}
