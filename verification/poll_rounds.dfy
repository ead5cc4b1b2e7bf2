/** What the rounds of the poll server do to its slots, and in which order they serve: server/aesdsocket.c. */
module PollRounds {
  import opened Bytes
  import opened PollServer
  import opened Fragmentation

  const OPEN_MAX: nat := 256

  // The bits of a revents field that matter, and any others.
  datatype Revents = Revents(pollin: bool, pollerr: bool, others: bool)

  const NONE := Revents(false, false, false)

  // How a read of a ready client ends.
  datatype ReadOutcome = Data(chunk: seq<Byte>) | Eof | Reset | Failed

  predicate Ready(r: Revents) {
    r.pollin || r.pollerr
  }

  // poll's result: the entries with any bit set.
  function NonZero(revents: seq<Revents>): nat {
    if revents == [] then 0 else (if revents[0] != NONE then 1 else 0) + NonZero(revents[1..])
  }

  // The ready ones among the slots from i on, in order.
  function ReadySlots(revents: seq<Revents>, i: nat): (slots: seq<nat>)
    decreases |revents| - i
  {
    if i >= |revents| then []
    else (if Ready(revents[i]) then [i] else []) + ReadySlots(revents, i + 1)
  }

  // The slots up to the first one whose read fails, with it.
  function UpToFailed(slots: seq<nat>, read: nat -> ReadOutcome): seq<nat> {
    if slots == [] then []
    else if read(slots[0]) == Failed then [slots[0]]
    else [slots[0]] + UpToFailed(slots[1..], read)
  }

  lemma {:induction false} NoneReady(revents: seq<Revents>, i: nat)
    requires i <= |revents| && NonZero(revents[i..]) == 0
    ensures ReadySlots(revents, i) == []
    decreases |revents| - i
  {
    if i < |revents| {
      assert revents[i..][1..] == revents[i + 1..];
      NoneReady(revents, i + 1);
    }
  }

  lemma NonZeroStep(revents: seq<Revents>, i: nat)
    requires i < |revents|
    ensures NonZero(revents[i..]) == (if revents[i] != NONE then 1 else 0) + NonZero(revents[i + 1..])
  {
    assert revents[i..][1..] == revents[i + 1..];
  }

  // The list to be served, of which `served` is done and slot i comes next.
  lemma ReadyStep(served: seq<nat>, revents: seq<Revents>, i: nat, read: nat -> ReadOutcome)
    requires i < |revents|
    ensures var rest := UpToFailed(ReadySlots(revents, i + 1), read);
            served + UpToFailed(ReadySlots(revents, i), read) ==
            if !Ready(revents[i]) then served + rest
            else if read(i) == Failed then served + [i]
            else served + [i] + rest
  {
    var later := ReadySlots(revents, i + 1);
    assert ([i] + later)[1..] == later && [] + later == later;
    var rest := UpToFailed(later, read);
    assert served + ([i] + rest) == served + [i] + rest;
  }

  // Entries that were not polled change nothing.
  lemma {:induction false} UnpolledSlots(revents: seq<Revents>, more: seq<Revents>, i: nat)
    requires i <= |revents| && forall k :: |revents| <= k < |more| ==> more[k] == NONE
    requires revents <= more
    ensures NonZero(more[i..]) == NonZero(revents[i..])
    ensures ReadySlots(more, i) == ReadySlots(revents, i)
    decreases |revents| - i
  {
    if i < |revents| {
      NonZeroStep(revents, i);
      NonZeroStep(more, i);
      UnpolledSlots(revents, more, i + 1);
    } else {
      AllNone(more, i);
    }
  }

  lemma {:induction false} AllNone(revents: seq<Revents>, i: nat)
    requires i <= |revents| && forall k :: i <= k < |revents| ==> revents[k] == NONE
    ensures NonZero(revents[i..]) == 0 && ReadySlots(revents, i) == []
    decreases |revents| - i
  {
    if i < |revents| {
      NonZeroStep(revents, i);
      AllNone(revents, i + 1);
    }
  }

  lemma {:induction false} ListedExact(revents: seq<Revents>, i: nat, k: nat)
    ensures k in ReadySlots(revents, i) <==> i <= k < |revents| && (revents[k].pollin || revents[k].pollerr)
    decreases |revents| - i
  {
    if i < |revents| {
      ListedExact(revents, i + 1, k);
    }
  }

  ghost predicate Increasing(slots: seq<nat>) {
    forall a, b :: 0 <= a < b < |slots| ==> slots[a] < slots[b]
  }

  lemma {:induction false} ListedIncreasing(revents: seq<Revents>, i: nat)
    ensures Increasing(ReadySlots(revents, i))
    decreases |revents| - i
  {
    if i < |revents| {
      ListedIncreasing(revents, i + 1);
      var rest := ReadySlots(revents, i + 1);
      forall a | 0 <= a < |rest|
        ensures i < rest[a]
      {
        ListedExact(revents, i + 1, rest[a]);
      }
    }
  }

  lemma {:induction false} UpToFailedExact(slots: seq<nat>, read: nat -> ReadOutcome, k: nat)
    requires Increasing(slots)
    ensures UpToFailed(slots, read) <= slots
    ensures k in UpToFailed(slots, read) <==> k in slots && forall j :: j in slots && j < k ==> read(j) != Failed
  {
    if slots != [] {
      var rest := slots[1..];
      UpToFailedExact(rest, read, k);
      assert slots == [slots[0]] + rest;
      assert k in rest ==> slots[0] < k;
      assert forall j :: j in slots <==> j == slots[0] || j in rest;
    }
  }

  /** A slot is served exactly if it has POLLIN or POLLERR set and no read of such a slot before it failed; and
      the slots are served in order, each once. */
  lemma ServedExact(revents: seq<Revents>, i: nat, read: nat -> ReadOutcome)
    ensures var served := UpToFailed(ReadySlots(revents, i), read);
            && Increasing(served)
            && forall k: nat :: k in served <==>
                 && i <= k < |revents| && (revents[k].pollin || revents[k].pollerr)
                 && forall j :: i <= j < k && (revents[j].pollin || revents[j].pollerr) ==> read(j) != Failed
  {
    var slots := ReadySlots(revents, i);
    ListedIncreasing(revents, i);
    UpToFailedExact(slots, read, 0);
    forall k: nat
      ensures k in UpToFailed(slots, read) <==>
              && i <= k < |revents| && (revents[k].pollin || revents[k].pollerr)
              && forall j :: i <= j < k && (revents[j].pollin || revents[j].pollerr) ==> read(j) != Failed
    {
      UpToFailedExact(slots, read, k);
      ListedExact(revents, i, k);
      forall j: nat | j < k < |revents|
        ensures j in slots <==> i <= j && (revents[j].pollin || revents[j].pollerr)
      {
        ListedExact(revents, i, j);
      }
    }
  }

  // Only a ready slot is served.
  lemma ServedReady(revents: seq<Revents>, i: nat, read: nat -> ReadOutcome, k: nat)
    requires k in UpToFailed(ReadySlots(revents, i), read)
    ensures i <= k < |revents| && (revents[k].pollin || revents[k].pollerr)
  {
    ServedExact(revents, i, read);
  }

  // What the reads of `served` deliver.
  function Delivered(fds: seq<int>, uses: map<int, nat>, served: seq<nat>, read: nat -> ReadOutcome): seq<Event> {
    if served == [] then []
    else
      var k := served[0];
      (if k < |fds| && read(k).Data? then [Event(ConnOf(uses, fds[k]), read(k).chunk)] else [])
      + Delivered(fds, uses, served[1..], read)
  }

  lemma {:induction false} DeliveredAppend(fds: seq<int>, uses: map<int, nat>, a: seq<nat>, b: seq<nat>,
                                           read: nat -> ReadOutcome)
    ensures Delivered(fds, uses, a + b, read) == Delivered(fds, uses, a, read) + Delivered(fds, uses, b, read)
  {
    if a == [] {
      assert a + b == b;
    } else {
      assert (a + b)[0] == a[0] && (a + b)[1..] == a[1..] + b;
      DeliveredAppend(fds, uses, a[1..], b, read);
    }
  }

  lemma DeliveredOne(fds: seq<int>, uses: map<int, nat>, k: nat, read: nat -> ReadOutcome)
    requires k < |fds|
    ensures Delivered(fds, uses, [k], read) ==
            if read(k).Data? then [Event(ConnOf(uses, fds[k]), read(k).chunk)] else []
  {
    assert [k][1..] == [];
  }

  // A slot that is not served may change its descriptor.
  lemma {:induction false} DeliveredElsewhere(fds: seq<int>, uses: map<int, nat>, slot: nat, fd: int,
                                              served: seq<nat>, read: nat -> ReadOutcome)
    requires slot < |fds| && slot !in served
    ensures Delivered(fds[slot := fd], uses, served, read) == Delivered(fds, uses, served, read)
  {
    if served != [] {
      DeliveredElsewhere(fds, uses, slot, fd, served[1..], read);
    }
  }

  predicate Closes(outcome: ReadOutcome) {
    outcome == Eof || outcome == Reset
  }

  // The descriptors once the reads of `served` have closed some of them.
  function Afterwards(fds: seq<int>, served: seq<nat>, read: nat -> ReadOutcome): (after: seq<int>)
    ensures |after| == |fds|
  {
    seq(|fds|, (k: nat) requires k < |fds| => if k in served && Closes(read(k)) then -1 else fds[k])
  }

  predicate AllBelow(served: seq<nat>, i: nat) {
    forall k :: k in served ==> 0 < k < i
  }

  lemma AfterwardsStep(fds: seq<int>, served: seq<nat>, i: nat, read: nat -> ReadOutcome)
    requires 0 < i < |fds| && AllBelow(served, i)
    ensures AllBelow(served, i + 1) && AllBelow(served + [i], i + 1)
    ensures var now := Afterwards(fds, served, read);
            && now[i] == fds[i]
            && Afterwards(fds, served + [i], read) == if Closes(read(i)) then now[i := -1] else now
  {
  }

  lemma AfterwardsNobody(fds: seq<int>, uses: map<int, nat>, read: nat -> ReadOutcome)
    ensures Afterwards(fds, [], read) == fds && Delivered(fds, uses, [], read) == []
    ensures UpToFailed([], read) == [] && AllBelow([], 1)
  {
  }

  // One round's input: what poll would report of each descriptor, the accepted connection, and the reads.
  datatype RoundInput = RoundInput(poll: seq<Revents>, connfd: int, read: nat -> ReadOutcome)

  // poll says nothing of a free slot.
  function Masked(fds: seq<int>, poll: seq<Revents>, n: nat): (reported: seq<Revents>)
    requires n <= |fds| <= |poll|
    ensures |reported| == n
  {
    seq(n, (i: nat) requires i < n => if fds[i] < 0 then NONE else poll[i])
  }

  predicate Full(fds: seq<int>) {
    forall k :: 0 < k < |fds| ==> fds[k] >= 0
  }

  // Who is served in a round, in order: nobody if a connection comes and finds no slot.
  function Serves(fds: seq<int>, reported: seq<Revents>, read: nat -> ReadOutcome): seq<nat>
    requires reported != []
  {
    if reported[0].pollin && Full(fds) then [] else UpToFailed(ReadySlots(reported, 1), read)
  }

  // Who is served, by the bits that poll reported.
  lemma ServesExact(fds: seq<int>, reported: seq<Revents>, read: nat -> ReadOutcome)
    requires reported != []
    ensures var served := Serves(fds, reported, read);
            && Increasing(served)
            && forall k: nat :: k in served <==>
                 && !(reported[0].pollin && Full(fds))
                 && 0 < k < |reported| && (reported[k].pollin || reported[k].pollerr)
                 && forall j :: 0 < j < k && (reported[j].pollin || reported[j].pollerr) ==> read(j) != Failed
  {
    ServedExact(reported, 1, read);
  }

  function FirstFree(fds: seq<int>, i: nat): (k: nat)
    requires i <= |fds|
    ensures i <= k <= |fds| && (k < |fds| ==> fds[k] < 0)
    ensures forall j :: i <= j < k ==> fds[j] >= 0
    decreases |fds| - i
  {
    if i < |fds| && fds[i] >= 0 then FirstFree(fds, i + 1) else i
  }

  // The slots with the accepted connection.
  function Accepted(fds: seq<int>, reported: seq<Revents>, connfd: int): (after: seq<int>)
    requires fds != [] && reported != []
    ensures |after| == |fds|
  {
    if reported[0].pollin && !Full(fds) then fds[FirstFree(fds, 1) := connfd] else fds
  }

  // A round's connections: the accepted one is new even if its descriptor is not.
  function Uses(uses: map<int, nat>, reported: seq<Revents>, connfd: int): map<int, nat>
    requires reported != []
  {
    if reported[0].pollin then Handed(uses, connfd) else uses
  }

  // A round that polls all slots: what is read, the slots and connections after it, and whether the loop is left.
  function RoundEvents(fds: seq<int>, uses: map<int, nat>, r: RoundInput): seq<Event>
    requires 0 < |fds| <= |r.poll|
  {
    Delivered(fds, UsesAfter(fds, uses, r), Serves(fds, Masked(fds, r.poll, |fds|), r.read), r.read)
  }

  function UsesAfter(fds: seq<int>, uses: map<int, nat>, r: RoundInput): map<int, nat>
    requires 0 < |fds| <= |r.poll|
  {
    Uses(uses, Masked(fds, r.poll, |fds|), r.connfd)
  }

  function AfterRound(fds: seq<int>, r: RoundInput): (after: seq<int>)
    requires 0 < |fds| <= |r.poll|
    ensures |after| == |fds|
  {
    var reported := Masked(fds, r.poll, |fds|);
    Afterwards(Accepted(fds, reported, r.connfd), Serves(fds, reported, r.read), r.read)
  }

  predicate Leaves(fds: seq<int>, r: RoundInput)
    requires 0 < |fds| <= |r.poll|
  {
    Masked(fds, r.poll, |fds|)[0].pollin && Full(fds)
  }

  // All that is read in a run of the loop, in the order in which it is read.
  function RunEvents(fds: seq<int>, uses: map<int, nat>, rounds: seq<RoundInput>): seq<Event>
    requires fds != [] && forall i :: 0 <= i < |rounds| ==> |fds| <= |rounds[i].poll|
    decreases |rounds|
  {
    if rounds == [] then []
    else
      RoundEvents(fds, uses, rounds[0])
      + if Leaves(fds, rounds[0]) then []
        else RunEvents(AfterRound(fds, rounds[0]), UsesAfter(fds, uses, rounds[0]), rounds[1..])
  }

  // What a round does, by what poll says of the descriptors and how the reads end.
  predicate Waits(fds: seq<int>, poll: seq<Revents>, k: nat)
    requires k < |fds| <= |poll|
  {
    fds[k] >= 0 && (poll[k].pollin || poll[k].pollerr)
  }

  /** The round serves, in order, exactly the waiting clients with no failed read before them, and nobody if a
      connection finds all slots taken. */
  lemma RoundServes(fds: seq<int>, r: RoundInput)
    requires 0 < |fds| <= |r.poll|
    ensures var served := Serves(fds, Masked(fds, r.poll, |fds|), r.read);
            var full := fds[0] >= 0 && r.poll[0].pollin && forall k :: 0 < k < |fds| ==> fds[k] >= 0;
            && (Leaves(fds, r) <==> full)
            && Increasing(served)
            && forall k: nat :: k in served <==>
                 && !full && 0 < k < |fds| && fds[k] >= 0 && (r.poll[k].pollin || r.poll[k].pollerr)
                 && forall j :: 0 < j < k && Waits(fds, r.poll, j) ==> r.read(j) != Failed
  {
    var reported := Masked(fds, r.poll, |fds|);
    ServedExact(reported, 1, r.read);
    forall j: nat | j < |fds|
      ensures Waits(fds, r.poll, j) <==> reported[j].pollin || reported[j].pollerr
    {
    }
  }

  /** After the round, a slot is free if its client was served and had closed or reset the connection; the
      accepted connection is in the first free slot, and all other slots are as they were. */
  lemma RoundSlots(fds: seq<int>, r: RoundInput, k: nat)
    requires 0 < |fds| <= |r.poll| && k < |fds|
    ensures var served := Serves(fds, Masked(fds, r.poll, |fds|), r.read);
            var taken := && fds[0] >= 0 && r.poll[0].pollin
                         && 0 < k && fds[k] < 0 && forall j :: 0 < j < k ==> fds[j] >= 0;
            AfterRound(fds, r)[k] ==
            if k in served && (r.read(k) == Eof || r.read(k) == Reset) then -1
            else if taken then r.connfd else fds[k]
  {
  }

  // Some round of the run finds the table full.
  predicate RunLeaves(fds: seq<int>, rounds: seq<RoundInput>)
    requires fds != [] && forall i :: 0 <= i < |rounds| ==> |fds| <= |rounds[i].poll|
    decreases |rounds|
  {
    rounds != [] && (Leaves(fds, rounds[0]) || RunLeaves(AfterRound(fds, rounds[0]), rounds[1..]))
  }

  // It makes no difference that the slots behind the last used one are not polled.
  lemma UnpolledRound(fds: seq<int>, poll: seq<Revents>, n: nat, read: nat -> ReadOutcome)
    requires 0 < n <= |fds| <= |poll| && forall k :: n <= k < |fds| ==> fds[k] < 0
    ensures Masked(fds, poll, n)[0] == Masked(fds, poll, |fds|)[0]
    ensures Serves(fds, Masked(fds, poll, n), read) == Serves(fds, Masked(fds, poll, |fds|), read)
  {
    UnpolledSlots(Masked(fds, poll, n), Masked(fds, poll, |fds|), 1);
  }

  lemma AcceptedIs(fds: seq<int>, reported: seq<Revents>, connfd: int, slot: nat)
    requires fds != [] && reported != []
    requires 0 < slot <= |fds| && (slot < |fds| <==> reported[0].pollin && !Full(fds))
    requires slot < |fds| ==> fds[slot] < 0 && forall k :: 0 < k < slot ==> fds[k] >= 0
    ensures Accepted(fds, reported, connfd) == if slot < |fds| then fds[slot := connfd] else fds
  {
  }

  // A read delivers something and no more than the buffer holds.
  ghost predicate ReadsFit(rounds: seq<RoundInput>) {
    forall i, k: nat :: 0 <= i < |rounds| && rounds[i].read(k).Data? ==> 0 < |rounds[i].read(k).chunk| <= MAXLINE
  }

  lemma {:induction false} DeliveredFits(fds: seq<int>, uses: map<int, nat>, served: seq<nat>,
                                         read: nat -> ReadOutcome)
    requires forall k: nat :: read(k).Data? ==> 0 < |read(k).chunk| <= MAXLINE
    ensures forall k :: 0 <= k < |Delivered(fds, uses, served, read)| ==>
              0 < |Delivered(fds, uses, served, read)[k].chunk| <= MAXLINE
  {
    if served != [] {
      DeliveredFits(fds, uses, served[1..], read);
    }
  }

  lemma {:induction false} RunFits(fds: seq<int>, uses: map<int, nat>, rounds: seq<RoundInput>)
    requires fds != [] && forall i :: 0 <= i < |rounds| ==> |fds| <= |rounds[i].poll|
    requires ReadsFit(rounds)
    ensures Fragments(RunEvents(fds, uses, rounds), Arrival(RunEvents(fds, uses, rounds)))
    decreases |rounds|
  {
    if rounds != [] {
      var r := rounds[0];
      DeliveredFits(fds, UsesAfter(fds, uses, r), Serves(fds, Masked(fds, r.poll, |fds|), r.read), r.read);
      forall i, k: nat | 0 <= i < |rounds[1..]| && rounds[1..][i].read(k).Data?
        ensures 0 < |rounds[1..][i].read(k).chunk| <= MAXLINE
      {
        assert rounds[1..][i] == rounds[i + 1];
      }
      RunFits(AfterRound(fds, r), UsesAfter(fds, uses, r), rounds[1..]);
    }
  }

  /** Over all rounds and clients: when no newline follows a NUL of the same connection within the reach of one
      read, every client is sent, for each of its own newlines in the order of arrival, the log up to there. */
  lemma RunAnswers(log: seq<Byte>, fds: seq<int>, uses: map<int, nat>, rounds: seq<RoundInput>, c: Conn)
    requires fds != [] && forall i :: 0 <= i < |rounds| ==> |fds| <= |rounds[i].poll|
    requires ReadsFit(rounds) && CleanWithin(Arrival(RunEvents(fds, uses, rounds)), MAXLINE)
    ensures var events := RunEvents(fds, uses, rounds);
            && ReceivedBy(log, events, c) == OwnNewlines(log, Arrival(events), c)
            && Logged(events) == Untag(Arrival(events))
  {
    RunFits(fds, uses, rounds);
    FragmentationIndependent(log, Arrival(RunEvents(fds, uses, rounds)));
    UntagArrival(RunEvents(fds, uses, rounds));
  }
}
