/** Any number of open files on one device, and any interleaving of their calls. */
module Sessions {
  import opened Bytes
  import opened Sequences
  import opened Lines
  import opened Positions
  import opened CommandSeek

  type Handle = nat

  // A write stands for the bytes it took. A read comes with what can be delivered to the caller's buffer:
  // from byte n on, arrives(n) bytes.
  datatype Call =
    | Open(h: Handle)
    | Write(bytes: seq<Byte>)
    | Read(h: Handle, count: nat, arrives: nat -> nat)
    | Llseek(h: Handle, offset: int, whence: int)
    | Ioctl(h: Handle, k: nat, o: nat)

  datatype System = System(stream: seq<Byte>, pos: map<Handle, nat>) {
    function Total(): nat {
      |Visible(stream)|
    }

    // A call on a file that is not open does nothing.
    function Step(c: Call): System {
      match c
      case Open(h) => this.(pos := pos[h := 0])
      case Write(bytes) => this.(stream := stream + bytes)
      case Read(h, count, arrives) =>
        if h in pos then this.(pos := pos[h := ReadStop(Visible(stream), pos[h], count, arrives)]) else this
      case Llseek(h, offset, whence) =>
        if h in pos && Accepts(Total(), pos[h], offset, whence)
        then this.(pos := pos[h := Target(Total(), pos[h], offset, whence)]) else this
      case Ioctl(h, k, o) =>
        var lines := Parse(stream).lines;
        if h in pos && InCommand(lines, k, o) then this.(pos := pos[h := CommandStart(lines, k) + o]) else this
    }

    function Run(calls: seq<Call>): System
      decreases |calls|
    {
      if calls == [] then this else Step(calls[0]).Run(calls[1..])
    }

    // Whether a read fails on its way, and whether its very first copy does.
    predicate Fails(h: Handle, count: nat, arrives: nat -> nat)
      requires h in pos
    {
      Faults(Visible(stream), pos[h], count, arrives)
    }

    predicate FailsAtOnce(h: Handle, count: nat, arrives: nat -> nat)
      requires h in pos
    {
      FirstCopyFails(Visible(stream), pos[h], count, arrives)
    }

    // What a read returns; nothing if it fails.
    function Got(h: Handle, count: nat, arrives: nat -> nat): seq<Byte>
      requires h in pos
    {
      var n := ReadLength(Total(), pos[h], count);
      if n == 0 || Fails(h, count, arrives) then [] else Visible(stream)[pos[h]..pos[h] + n]
    }
  }

  // All complete lines ever written, and how many of their bytes the ring has dropped.
  function Committed(stream: seq<Byte>): seq<Byte> {
    Flatten(Parse(stream).lines)
  }

  function Dropped(lines: seq<Line>): seq<Line> {
    lines[..|lines| - |Window(lines)|]
  }

  function Evicted(stream: seq<Byte>): nat {
    |Flatten(Dropped(Parse(stream).lines))|
  }

  lemma DroppedAndWindow(lines: seq<Line>)
    ensures Flatten(lines) == Flatten(Dropped(lines)) + Flatten(Window(lines))
  {
    FlattenAppend(Dropped(lines), Window(lines));
    assert lines == Dropped(lines) + Window(lines);
  }

  lemma VisibleIsSuffix(stream: seq<Byte>)
    ensures Evicted(stream) <= |Committed(stream)|
    ensures Visible(stream) == Committed(stream)[Evicted(stream)..]
  {
    DroppedAndWindow(Parse(stream).lines);
  }

  lemma PrefixFlattens(a: seq<Line>, b: seq<Line>)
    requires a <= b
    ensures Flatten(a) <= Flatten(b)
  {
    assert b == a + b[|a|..];
    FlattenAppend(a, b[|a|..]);
  }

  // More input only adds to what is committed and to what is dropped.
  lemma StreamGrows(s: seq<Byte>, more: seq<Byte>)
    ensures Committed(s) <= Committed(s + more)
    ensures Evicted(s) <= Evicted(s + more)
  {
    ParseAppend(s, more);
    var a, b := Parse(s).lines, Parse(s + more).lines;
    PrefixFlattens(a, b);
    assert Dropped(a) <= Dropped(b);
    PrefixFlattens(Dropped(a), Dropped(b));
  }

  // The lines that a write completes, and those that leave the ring for them, oldest first.
  function Completed(stream: seq<Byte>, bytes: seq<Byte>): seq<Line> {
    Parse(Parse(stream).tail + bytes).lines
  }

  function Displaced(stream: seq<Byte>, bytes: seq<Byte>): seq<Line> {
    Dropped(Window(Parse(stream).lines) + Completed(stream, bytes))
  }

  lemma WindowAppend(lines: seq<Line>, more: seq<Line>)
    ensures Window(lines + more) == Window(Window(lines) + more)
  {
  }

  // Dropping in two steps drops as much as dropping at once.
  lemma DroppedAppend(lines: seq<Line>, more: seq<Line>)
    ensures |Flatten(Dropped(lines + more))| ==
            |Flatten(Dropped(lines))| + |Flatten(Dropped(Window(lines) + more))|
  {
    hide Window, Dropped, Flatten;
    WindowAppend(lines, more);
    FlattenAppend(lines, more);
    FlattenAppend(Window(lines), more);
    DroppedAndWindow(lines);
    DroppedAndWindow(lines + more);
    DroppedAndWindow(Window(lines) + more);
  }

  /** A whole write: the completed lines are appended to the data, and the displaced ones leave its front. */
  lemma WriteShifts(stream: seq<Byte>, bytes: seq<Byte>)
    ensures var both := Visible(stream) + Flatten(Completed(stream, bytes));
            var gone := |Flatten(Displaced(stream, bytes))|;
            gone <= |both| && Visible(stream + bytes) == both[gone..]
    ensures Committed(stream + bytes) == Committed(stream) + Flatten(Completed(stream, bytes))
    ensures Evicted(stream + bytes) == Evicted(stream) + |Flatten(Displaced(stream, bytes))|
  {
    hide Window, Dropped, Flatten, Parse;
    var lines, more := Parse(stream).lines, Completed(stream, bytes);
    ParseAppend(stream, bytes);
    FlattenAppend(lines, more);
    FlattenAppend(Window(lines), more);
    WindowAppend(lines, more);
    DroppedAppend(lines, more);
    DroppedAndWindow(Window(lines) + more);
  }

  /** One byte: a newline appends the line, and drops the oldest one from the front if there were MAX_OPS. */
  lemma CommitShifts(s: seq<Byte>, b: Byte)
    ensures var w, line := Window(Parse(s).lines), Parse(s).tail + [b];
            Visible(s + [b]) ==
            if b != NEWLINE then Visible(s)
            else if |w| < MAX_OPS then Visible(s) + line
            else Visible(s)[|w[0]|..] + line
  {
    var p := Parse(s);
    var w, line := Window(p.lines), p.tail + [b];
    ParseStep(s, b);
    if b == NEWLINE {
      WindowStep(p.lines, line);
      FlattenSnoc(w, line);
      if |w| == MAX_OPS {
        FlattenSnoc(w[1..], line);
      }
    }
  }

  lemma {:induction false} RunGrows(s: System, calls: seq<Call>) returns (more: seq<Byte>)
    ensures s.Run(calls).stream == s.stream + more
    decreases |calls|
  {
    if calls == [] {
      more := [];
    } else {
      var rest := RunGrows(s.Step(calls[0]), calls[1..]);
      more := (if calls[0].Write? then calls[0].bytes else []) + rest;
      assert s.Step(calls[0]).stream + rest == s.stream + more;
    }
  }

  // One read of a file, placed in the stream of all committed bytes.
  datatype Piece = Piece(start: nat, bytes: seq<Byte>)

  // The file h is only read, though reads may fail.
  predicate OnlyReads(h: Handle, calls: seq<Call>) {
    forall i :: 0 <= i < |calls| ==>
      calls[i].Write? || calls[i].Read? || calls[i].h != h
  }

  // The bytes that failing reads of the file h pass over.
  function Skips(s: System, h: Handle, c: Call): nat
    requires h in s.pos
  {
    if c.Read? && c.h == h && s.Fails(h, c.count, c.arrives)
    then ReadStop(Visible(s.stream), s.pos[h], c.count, c.arrives) - s.pos[h] else 0
  }

  function Skipped(s: System, h: Handle, calls: seq<Call>): nat
    requires h in s.pos
    decreases |calls|
  {
    if calls == [] then 0 else Skips(s, h, calls[0]) + Skipped(s.Step(calls[0]), h, calls[1..])
  }

  // A read of the file h that fails does so in its very first copy.
  predicate FailsEarly(s: System, h: Handle, c: Call)
    requires h in s.pos
  {
    c.Read? && c.h == h && s.Fails(h, c.count, c.arrives) ==> s.FailsAtOnce(h, c.count, c.arrives)
  }

  predicate AllFailEarly(s: System, h: Handle, calls: seq<Call>)
    requires h in s.pos
    decreases |calls|
  {
    calls == [] || (FailsEarly(s, h, calls[0]) && AllFailEarly(s.Step(calls[0]), h, calls[1..]))
  }

  lemma {:induction false} SkippedNothing(s: System, h: Handle, calls: seq<Call>)
    requires h in s.pos
    ensures Skipped(s, h, calls) == 0 <==> AllFailEarly(s, h, calls)
    decreases |calls|
  {
    if calls != [] {
      var c := calls[0];
      if c.Read? && c.h == h && s.Fails(h, c.count, c.arrives) {
        FaultMoves(Visible(s.stream), s.pos[h], c.count, c.arrives);
      }
      assert Skips(s, h, c) == 0 <==> FailsEarly(s, h, c);
      hide System.Step, Skips, FailsEarly;
      SkippedNothing(s.Step(c), h, calls[1..]);
    }
  }

  function Pieces(s: System, h: Handle, calls: seq<Call>): seq<Piece>
    requires h in s.pos
    decreases |calls|
  {
    if calls == [] then []
    else
      var rest := Pieces(s.Step(calls[0]), h, calls[1..]);
      if calls[0].Read? && calls[0].h == h
      then [Piece(Evicted(s.stream) + s.pos[h], s.Got(h, calls[0].count, calls[0].arrives))] + rest
      else rest
  }

  ghost predicate Within(p: Piece, committed: seq<Byte>) {
    p.bytes != [] ==> p.start + |p.bytes| <= |committed| && p.bytes == committed[p.start..p.start + |p.bytes|]
  }

  // Each piece is that part of `committed`, and none goes back behind the one before.
  ghost predicate Forward(pieces: seq<Piece>, from: nat, committed: seq<Byte>) {
    pieces == [] ||
    var p := pieces[0];
    && from <= p.start
    && Within(p, committed)
    && Forward(pieces[1..], p.start + |p.bytes|, committed)
  }

  lemma {:induction false} ForwardLater(pieces: seq<Piece>, from: nat, later: nat, committed: seq<Byte>)
    requires from <= later && Forward(pieces, later, committed)
    ensures Forward(pieces, from, committed)
  {
  }

  lemma ForwardNone(from: nat, committed: seq<Byte>)
    ensures Forward([], from, committed)
  {
  }

  lemma ForwardFirst(p: Piece, rest: seq<Piece>, committed: seq<Byte>)
    requires Within(p, committed) && Forward(rest, p.start + |p.bytes|, committed)
    ensures Forward([p] + rest, p.start, committed)
  {
    assert ([p] + rest)[1..] == rest;
  }

  lemma WithinMore(p: Piece, some: seq<Byte>, more: seq<Byte>)
    requires Within(p, some) && some <= more
    ensures Within(p, more)
  {
  }

  // What one read gets is where its position points to in the committed stream.
  lemma GotIsCommitted(s: System, h: Handle, count: nat, arrives: nat -> nat)
    requires h in s.pos
    ensures var start, got := Evicted(s.stream) + s.pos[h], s.Got(h, count, arrives);
            && |got| == (if s.Fails(h, count, arrives) then 0 else ReadLength(s.Total(), s.pos[h], count))
            && (got != [] ==> start + |got| <= |Committed(s.stream)|
                              && got == Committed(s.stream)[start..start + |got|])
  {
    VisibleIsSuffix(s.stream);
  }

  // What one call does to a file that is only read.
  lemma ReaderStep(s: System, h: Handle, c: Call)
    requires h in s.pos && OnlyReads(h, [c])
    ensures var t := s.Step(c);
            && h in t.pos
            && Committed(s.stream) <= Committed(t.stream)
            && Evicted(s.stream) <= Evicted(t.stream)
            && if c.Read? && c.h == h
               then t.pos[h] == s.pos[h] + |s.Got(h, c.count, c.arrives)| + Skips(s, h, c) && t.stream == s.stream
               else t.pos[h] == s.pos[h] && Skips(s, h, c) == 0
  {
    assert [c][0] == c;
    if c.Write? {
      StreamGrows(s.stream, c.bytes);
    }
    if c.Read? && c.h == h {
      GotIsCommitted(s, h, c.count, c.arrives);
    }
  }

  lemma RunCommits(s: System, calls: seq<Call>)
    ensures Committed(s.stream) <= Committed(s.Run(calls).stream)
    ensures Evicted(s.stream) <= Evicted(s.Run(calls).stream)
  {
    var more := RunGrows(s, calls);
    StreamGrows(s.stream, more);
  }

  lemma GotIsWithin(s: System, h: Handle, count: nat, arrives: nat -> nat)
    requires h in s.pos
    ensures Within(Piece(Evicted(s.stream) + s.pos[h], s.Got(h, count, arrives)), Committed(s.stream))
  {
    GotIsCommitted(s, h, count, arrives);
  }

  lemma {:induction false} PiecesForward(s: System, h: Handle, calls: seq<Call>)
    requires h in s.pos && OnlyReads(h, calls)
    ensures Forward(Pieces(s, h, calls), Evicted(s.stream) + s.pos[h], Committed(s.Run(calls).stream))
    decreases |calls|
  {
    hide Evicted, Committed, Visible, Window, Parse, System.Step, System.Got, Forward, Within;
    var committed := Committed(s.Run(calls).stream);
    if calls == [] {
      ForwardNone(Evicted(s.stream) + s.pos[h], committed);
    } else {
      var c, t := calls[0], s.Step(calls[0]);
      assert OnlyReads(h, [c]) && OnlyReads(h, calls[1..]);
      ReaderStep(s, h, c);
      PiecesForward(t, h, calls[1..]);
      RunCommits(s, calls);
      if c.Read? && c.h == h {
        GotIsWithin(s, h, c.count, c.arrives);
        var piece := Piece(Evicted(s.stream) + s.pos[h], s.Got(h, c.count, c.arrives));
        WithinMore(piece, Committed(s.stream), committed);
        ForwardLater(Pieces(t, h, calls[1..]), piece.start + |piece.bytes|, Evicted(t.stream) + t.pos[h], committed);
        ForwardFirst(piece, Pieces(t, h, calls[1..]), committed);
      } else {
        ForwardLater(Pieces(t, h, calls[1..]), Evicted(s.stream) + s.pos[h], Evicted(t.stream) + t.pos[h], committed);
      }
    }
  }

  lemma {:induction false} ForwardOrdered(pieces: seq<Piece>, from: nat, committed: seq<Byte>)
    requires Forward(pieces, from, committed)
    ensures forall i :: 0 <= i < |pieces| ==> from <= pieces[i].start
    ensures forall i :: 0 <= i < |pieces| && pieces[i].bytes != [] ==>
              var end := pieces[i].start + |pieces[i].bytes|;
              end <= |committed| && pieces[i].bytes == committed[pieces[i].start..end]
    ensures forall i, j :: 0 <= i < j < |pieces| ==> pieces[i].start + |pieces[i].bytes| <= pieces[j].start
  {
    if pieces != [] {
      ForwardOrdered(pieces[1..], pieces[0].start + |pieces[0].bytes|, committed);
      assert pieces == [pieces[0]] + pieces[1..];
    }
  }

  /** A file that is only read sees the committed stream in order, whatever others write, read or seek
      in between: it may lose bytes to eviction or to a fault but never sees one twice or out of order. */
  lemma ReaderMovesForward(s: System, h: Handle, calls: seq<Call>)
    requires h in s.pos && OnlyReads(h, calls)
    ensures var pieces, committed := Pieces(s, h, calls), Committed(s.Run(calls).stream);
            && (forall i :: 0 <= i < |pieces| ==> Evicted(s.stream) + s.pos[h] <= pieces[i].start)
            && (forall i :: 0 <= i < |pieces| && pieces[i].bytes != [] ==>
                  var end := pieces[i].start + |pieces[i].bytes|;
                  end <= |committed| && pieces[i].bytes == committed[pieces[i].start..end])
            && (forall i, j :: 0 <= i < j < |pieces| ==> pieces[i].start + |pieces[i].bytes| <= pieces[j].start)
  {
    hide Forward, Pieces, Evicted, Committed, System.Run;
    PiecesForward(s, h, calls);
    ForwardOrdered(Pieces(s, h, calls), Evicted(s.stream) + s.pos[h], Committed(s.Run(calls).stream));
  }

  function Joined(pieces: seq<Piece>): seq<Byte> {
    if pieces == [] then [] else pieces[0].bytes + Joined(pieces[1..])
  }

  ghost predicate FileInRange(s: System, h: Handle) {
    h in s.pos && s.pos[h] <= s.Total()
  }

  ghost predicate InRange(s: System) {
    forall h :: h in s.pos ==> FileInRange(s, h)
  }

  // While nothing is dropped, what is visible only grows at its end.
  lemma StepEvictsNothing(s: System, c: Call, calls: seq<Call>)
    requires Evicted(s.Step(c).Run(calls).stream) == Evicted(s.stream)
    ensures Evicted(s.Step(c).stream) == Evicted(s.stream)
    ensures Visible(s.stream) <= Visible(s.Step(c).stream)
  {
    RunCommits(s.Step(c), calls);
    if c.Write? {
      StreamGrows(s.stream, c.bytes);
    }
    VisibleIsSuffix(s.stream);
    VisibleIsSuffix(s.Step(c).stream);
  }

  /** As long as nothing is evicted, the old data is a prefix of the new. */
  lemma OldDataIsPrefix(s: System, calls: seq<Call>)
    requires Evicted(s.Run(calls).stream) == Evicted(s.stream)
    ensures Visible(s.stream) <= Visible(s.Run(calls).stream)
  {
    RunCommits(s, calls);
    VisibleIsSuffix(s.stream);
    VisibleIsSuffix(s.Run(calls).stream);
  }

  lemma StepInRange(s: System, c: Call, h: Handle)
    requires FileInRange(s, h) && Evicted(s.Step(c).stream) == Evicted(s.stream)
    ensures FileInRange(s.Step(c), h)
  {
    match c
    case Write(bytes) =>
      StreamGrows(s.stream, bytes);
      VisibleIsSuffix(s.stream);
      VisibleIsSuffix(s.stream + bytes);
    case Ioctl(_, k, o) =>
      if InCommand(Parse(s.stream).lines, k, o) {
        CommandWithin(Parse(s.stream).lines, k, o);
      }
    case _ =>
  }

  /** A run that evicts nothing keeps a position that is within the data there, however much was evicted
      before and wherever other files stand. */
  lemma {:induction false} FileStaysInRange(s: System, h: Handle, calls: seq<Call>)
    requires FileInRange(s, h) && Evicted(s.Run(calls).stream) == Evicted(s.stream)
    ensures FileInRange(s.Run(calls), h)
    decreases |calls|
  {
    hide FileInRange, Evicted, System.Step;
    if calls != [] {
      var c := calls[0];
      StepEvictsNothing(s, c, calls[1..]);
      StepInRange(s, c, h);
      FileStaysInRange(s.Step(c), h, calls[1..]);
    }
  }

  // A file that is new in a step was opened.
  lemma StepKeepsAllInRange(s: System, c: Call)
    requires InRange(s) && Evicted(s.Step(c).stream) == Evicted(s.stream)
    ensures InRange(s.Step(c))
  {
    forall h | h in s.Step(c).pos
      ensures FileInRange(s.Step(c), h)
    {
      if h in s.pos {
        StepInRange(s, c, h);
      }
    }
  }

  /** The same for all files, also those opened on the way. */
  lemma {:induction false} RunInRange(s: System, calls: seq<Call>)
    requires InRange(s) && Evicted(s.Run(calls).stream) == Evicted(s.stream)
    ensures InRange(s.Run(calls))
    decreases |calls|
  {
    hide InRange, Evicted, System.Step;
    if calls != [] {
      var c := calls[0];
      StepEvictsNothing(s, c, calls[1..]);
      StepKeepsAllInRange(s, c);
      RunInRange(s.Step(c), calls[1..]);
    }
  }

  lemma WriteKeepsFile(s: System, bytes: seq<Byte>, h: Handle)
    requires h in s.pos
    ensures FileInRange(s.Step(Write(bytes)), h) <==>
            s.pos[h] + |Flatten(Displaced(s.stream, bytes))| <= s.Total() + |Flatten(Completed(s.stream, bytes))|
  {
    WriteShifts(s.stream, bytes);
    var t := s.Step(Write(bytes));
    assert t.Total() == s.Total() + |Flatten(Completed(s.stream, bytes))| - |Flatten(Displaced(s.stream, bytes))|;
  }

  /** Only a write can leave a position behind the end of the data, and a caller can tell beforehand: it
      does so exactly if some position, once moved up by the bytes to be displaced, is behind the data
      with the bytes to be completed. */
  lemma WriteInRange(s: System, bytes: seq<Byte>)
    ensures InRange(s.Step(Write(bytes))) <==>
            forall h :: h in s.pos ==>
              s.pos[h] + |Flatten(Displaced(s.stream, bytes))| <= s.Total() + |Flatten(Completed(s.stream, bytes))|
  {
    forall h | h in s.pos
      ensures FileInRange(s.Step(Write(bytes)), h) <==>
              s.pos[h] + |Flatten(Displaced(s.stream, bytes))| <= s.Total() + |Flatten(Completed(s.stream, bytes))|
    {
      WriteKeepsFile(s, bytes, h);
    }
  }

  /** A write keeps every position that may exist in range exactly if it completes at least as many bytes
      as it displaces. */
  lemma WriteKeepsAnyPosition(stream: seq<Byte>, bytes: seq<Byte>)
    ensures (forall pos :: InRange(System(stream, pos)) ==> InRange(System(stream, pos).Step(Write(bytes))))
            <==> |Flatten(Displaced(stream, bytes))| <= |Flatten(Completed(stream, bytes))|
  {
    forall pos
      ensures InRange(System(stream, pos).Step(Write(bytes))) <==>
              forall h :: h in pos ==>
                pos[h] + |Flatten(Displaced(stream, bytes))| <= |Visible(stream)| + |Flatten(Completed(stream, bytes))|
    {
      WriteInRange(System(stream, pos), bytes);
    }
    var atEnd: map<Handle, nat> := map[0 := |Visible(stream)|];
    assert InRange(System(stream, atEnd)) && 0 in atEnd;
  }

  /** For a single byte: only a newline on a full ring displaces a line, the oldest one. */
  lemma CommitKeepsFile(s: System, b: Byte, h: Handle)
    requires FileInRange(s, h)
    ensures var w, line := Window(Parse(s.stream).lines), Parse(s.stream).tail + [b];
            FileInRange(s.Step(Write([b])), h) <==>
            (b == NEWLINE && |w| == MAX_OPS ==> s.pos[h] + |w[0]| <= s.Total() + |line|)
  {
    CommitShifts(s.stream, b);
    var w := Window(Parse(s.stream).lines);
    if |w| == MAX_OPS {
      FlattenAt(w, 0, 0, |w[0]|);
    }
  }

  /** The same for all files. */
  lemma CommitInRange(s: System, b: Byte)
    requires InRange(s)
    ensures var w, line := Window(Parse(s.stream).lines), Parse(s.stream).tail + [b];
            InRange(s.Step(Write([b]))) <==>
            (b == NEWLINE && |w| == MAX_OPS ==> forall h :: h in s.pos ==> s.pos[h] + |w[0]| <= s.Total() + |line|)
  {
    hide Parse, Window;
    forall h | h in s.pos
      ensures var w, line := Window(Parse(s.stream).lines), Parse(s.stream).tail + [b];
              FileInRange(s.Step(Write([b])), h) <==>
              (b == NEWLINE && |w| == MAX_OPS ==> s.pos[h] + |w[0]| <= s.Total() + |line|)
    {
      CommitKeepsFile(s, b, h);
    }
  }

  lemma RunTwo(s: System, calls: seq<Call>)
    requires |calls| == 2
    ensures s.Run(calls) == s.Step(calls[0]).Step(calls[1])
  {
    var t, rest := s.Step(calls[0]), calls[1..];
    assert t.Run(rest) == t.Step(rest[0]).Run(rest[1..]);
  }

  lemma RunThree(s: System, calls: seq<Call>)
    requires |calls| == 3
    ensures s.Run(calls) == s.Step(calls[0]).Step(calls[1]).Step(calls[2])
  {
    var t := s.Step(calls[0]);
    var rest := calls[1..];
    assert t.Run(rest) == t.Step(rest[0]).Run(rest[1..]);
    assert t.Step(rest[0]).Run(rest[1..]) == t.Step(rest[0]).Step(rest[1..][0]).Run(rest[1..][1..]);
  }

  // Every copy of a read of so many bytes can be delivered.
  function Reliable(count: nat): nat -> nat {
    n => count
  }

  lemma ReliableDelivers(data: seq<Byte>, pos: int, count: nat)
    ensures !Faults(data, pos, count, Reliable(count))
    ensures ReadStop(data, pos, count, Reliable(count)) == pos + ReadLength(|data|, pos, count)
  {
    FaultsExact(data, pos, count, Reliable(count));
  }

  // Ten lines, the oldest of them longer than the last.
  lemma LongFirst() returns (stream: seq<Byte>)
    ensures var w := Window(Parse(stream).lines);
            Parse(stream).tail == [] && Visible(stream) == stream && |w| == MAX_OPS && |w[0]| > 1
  {
    var long: Line, short: Line := [97, NEWLINE], [NEWLINE];
    var lines := [long] + seq(MAX_OPS - 1, _ => short);
    stream := Flatten(lines);
    assert IsLine(long) && IsLine(short);
    SplittingUnique(stream, Parsed(lines, []));
    assert Window(lines) == lines;
  }

  lemma ReadToEnd(stream: seq<Byte>)
    requires Visible(stream) == stream
    ensures System([], map[]).Run([Open(0), Write(stream), Read(0, |stream|, Reliable(|stream|))])
            == System(stream, map[0 := |stream|])
  {
    hide Visible, ReadStop;
    ReliableDelivers(stream, 0, |stream|);
    RunThree(System([], map[]), [Open(0), Write(stream), Read(0, |stream|, Reliable(|stream|))]);
    assert [] + stream == stream;
  }

  /** A run from a device just loaded that leaves a position behind the end of the data. */
  lemma EvictionStrandsReader() returns (calls: seq<Call>, last: Call)
    ensures var s := System([], map[]).Run(calls);
            InRange(s) && last.Write? && !InRange(s.Step(last))
  {
    hide Window, Parse, Visible;
    var stream := LongFirst();
    calls, last := [Open(0), Write(stream), Read(0, |stream|, Reliable(|stream|))], Write([NEWLINE]);
    ReadToEnd(stream);
    var s := System([], map[]).Run(calls);
    assert InRange(s) && 0 in s.pos;
    CommitInRange(s, NEWLINE);
  }

  // What the reads deliver and what they pass over make up the way of the position.
  lemma {:induction false} DeliveredOrSkipped(s: System, h: Handle, calls: seq<Call>)
    requires h in s.pos && OnlyReads(h, calls)
    ensures h in s.Run(calls).pos
    ensures s.pos[h] + |Joined(Pieces(s, h, calls))| + Skipped(s, h, calls) == s.Run(calls).pos[h]
    decreases |calls|
  {
    hide Evicted, Committed, Visible, Window, Parse, System.Step, System.Got, Skips;
    if calls != [] {
      var c, t := calls[0], s.Step(calls[0]);
      assert OnlyReads(h, [c]) && OnlyReads(h, calls[1..]);
      ReaderStep(s, h, c);
      DeliveredOrSkipped(t, h, calls[1..]);
      if c.Read? && c.h == h {
        assert Pieces(s, h, calls)[1..] == Pieces(t, h, calls[1..]);
      }
    }
  }

  lemma {:induction false} NothingSkipped(s: System, h: Handle, calls: seq<Call>)
    requires FileInRange(s, h) && OnlyReads(h, calls) && Skipped(s, h, calls) == 0
    requires Evicted(s.Run(calls).stream) == Evicted(s.stream)
    ensures h in s.Run(calls).pos
    ensures var final := s.Run(calls);
            && s.pos[h] <= final.pos[h] <= final.Total()
            && Joined(Pieces(s, h, calls)) == Visible(final.stream)[s.pos[h]..final.pos[h]]
    decreases |calls|
  {
    hide Evicted, Committed, Visible, Window, Parse, System.Step, System.Got, Skips;
    if calls != [] {
      var c, t := calls[0], s.Step(calls[0]);
      assert OnlyReads(h, [c]) && OnlyReads(h, calls[1..]);
      StepEvictsNothing(s, c, calls[1..]);
      StepInRange(s, c, h);
      ReaderStep(s, h, c);
      OldDataIsPrefix(s, calls);
      NothingSkipped(t, h, calls[1..]);
      if c.Read? && c.h == h {
        var seen, end := Visible(s.Run(calls).stream), s.Run(calls).pos[h];
        GotIsVisible(s, h, c.count, c.arrives);
        assert Pieces(s, h, calls)[1..] == Pieces(t, h, calls[1..]);
        assert s.Got(h, c.count, c.arrives) == seen[s.pos[h]..t.pos[h]];
        SlicesJoin(seen, s.pos[h], t.pos[h], end);
      }
    }
  }

  /** A run that evicts nothing delivers to a file that is only read the data from its position on, without
      a gap, up to where it ends, exactly if each read of it that fails does so in its very first copy. */
  lemma ReaderSeesPrefix(s: System, h: Handle, calls: seq<Call>)
    requires FileInRange(s, h) && OnlyReads(h, calls)
    requires Evicted(s.Run(calls).stream) == Evicted(s.stream)
    ensures h in s.Run(calls).pos
    ensures var final := s.Run(calls);
            && s.pos[h] <= final.pos[h] <= final.Total()
            && (Joined(Pieces(s, h, calls)) == Visible(final.stream)[s.pos[h]..final.pos[h]] <==>
                AllFailEarly(s, h, calls))
  {
    hide Evicted, Visible, Joined, Pieces, Skipped, AllFailEarly;
    DeliveredOrSkipped(s, h, calls);
    SkippedNothing(s, h, calls);
    FileStaysInRange(s, h, calls);
    if Skipped(s, h, calls) == 0 {
      NothingSkipped(s, h, calls);
    }
  }

  /** A file just opened on two lines, and a read of them whose second copy fails: it delivers nothing, and
      the first line is passed over. */
  lemma FaultSkips() returns (s: System, read: Call)
    ensures s == System([], map[]).Run([Open(0), Write([NEWLINE, NEWLINE])])
    ensures 0 in s.pos && s.pos[0] == 0 && read.Read? && read.h == 0 && read.count == 2
    ensures s.Fails(0, 2, read.arrives) && s.Step(read).pos[0] == 1 && Joined(Pieces(s, 0, [read])) == []
  {
    var stream := [NEWLINE, NEWLINE];
    var data, arrives := FaultMovesOn();
    var lines: seq<Line> := [[NEWLINE], [NEWLINE]];
    assert IsLine([NEWLINE]) && lines[1..] == [[NEWLINE]] && Flatten(lines[1..]) == [NEWLINE];
    SplittingUnique(stream, Parsed(lines, []));
    assert Window(lines) == lines && Visible(stream) == data;
    s, read := System(stream, map[0 := 0]), Read(0, 2, arrives);
    RunTwo(System([], map[]), [Open(0), Write(stream)]);
    assert [] + stream == stream;
    assert [read][1..] == [];
  }

  lemma GotIsVisible(s: System, h: Handle, count: nat, arrives: nat -> nat)
    requires FileInRange(s, h)
    ensures var end := s.pos[h] + |s.Got(h, count, arrives)|;
            end <= |Visible(s.stream)| && s.Got(h, count, arrives) == Visible(s.stream)[s.pos[h]..end]
  {
  }

  // Reading on with buffers of the given sizes.
  function Reads(h: Handle, sizes: seq<nat>): (calls: seq<Call>)
    ensures |calls| == |sizes|
  {
    seq(|sizes|, (i: nat) requires i < |sizes| => Read(h, sizes[i], Reliable(sizes[i])))
  }

  lemma ReliableStep(s: System, h: Handle, count: nat)
    requires FileInRange(s, h)
    ensures var t, got := s.Step(Read(h, count, Reliable(count))), s.Got(h, count, Reliable(count));
            && t.stream == s.stream && FileInRange(t, h)
            && s.pos[h] <= t.pos[h] == Min(s.pos[h] + count, s.Total())
            && got == Visible(s.stream)[s.pos[h]..t.pos[h]]
  {
    hide Visible, ReadStop, Faults;
    ReliableDelivers(Visible(s.stream), s.pos[h], count);
  }

  /** Whatever the buffer sizes, reading on delivers the data without gap or repeat, as far as they reach. */
  lemma {:induction false} DrainYields(s: System, h: Handle, sizes: seq<nat>)
    requires FileInRange(s, h)
    ensures var calls := Reads(h, sizes);
            var final := s.Run(calls);
            && final.stream == s.stream && h in final.pos
            && s.pos[h] <= final.pos[h] == Min(s.pos[h] + Sum(sizes), s.Total())
            && Joined(Pieces(s, h, calls)) == Visible(s.stream)[s.pos[h]..final.pos[h]]
    decreases |sizes|
  {
    hide Visible, System.Step, System.Got;
    if sizes != [] {
      var c := Read(h, sizes[0], Reliable(sizes[0]));
      var t := s.Step(c);
      ReliableStep(s, h, sizes[0]);
      var calls := Reads(h, sizes);
      assert calls[0] == c && calls[1..] == Reads(h, sizes[1..]);
      DrainYields(t, h, sizes[1..]);
      assert Pieces(s, h, calls)[1..] == Pieces(t, h, calls[1..]);
      SlicesJoin(Visible(s.stream), s.pos[h], t.pos[h], s.Run(calls).pos[h]);
    }
  }

  /** With positive sizes, the data is drained after as many reads as there are bytes left, if not before. */
  lemma DrainEnds(s: System, h: Handle, sizes: seq<nat>)
    requires FileInRange(s, h)
    requires (forall i :: 0 <= i < |sizes| ==> sizes[i] > 0) && |sizes| >= s.Total() - s.pos[h]
    ensures Joined(Pieces(s, h, Reads(h, sizes))) == Visible(s.stream)[s.pos[h]..]
  {
    hide Reads, System.Run, Pieces, Visible, Joined;
    DrainYields(s, h, sizes);
    SumOfPositive(sizes);
  }

  lemma {:induction false} SumOfPositive(sizes: seq<nat>)
    requires forall i :: 0 <= i < |sizes| ==> sizes[i] > 0
    ensures Sum(sizes) >= |sizes|
  {
    if sizes != [] {
      SumOfPositive(sizes[1..]);
    }
  }
}
