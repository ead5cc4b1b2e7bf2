/** The threaded server as a client of the driver: server/aesd_server_thrd.c, one connection. */
module ThreadServer {
  import opened Bytes
  import opened Sequences
  import opened Lines
  import opened KernelMemory
  import opened RingModel
  import opened Positions
  import opened CommandSeek
  import opened Device

  const BUFFSIZE: nat := 8192

  // Whether sscanf recognises a chunk as a seek command.
  datatype Recognised = Text | SeekTo(cmd: Uint32, offset: Uint32)

  // What the connection has been sent.
  class Client {
    var received: seq<Byte>

    constructor ()
      ensures received == []
    {
      received := [];
    }

    method Send(bytes: seq<Byte>)
      modifies this
      ensures received == old(received) + bytes
    {
      received := received + bytes;
    }
  }

  /** Reading on until nothing comes sends everything from the position to the end. */
  method Dump(dev: AesdDevice, file: File, client: Client)
    requires dev.Valid() && 0 <= file.fPos <= |dev.Data()|
    modifies file, client
    ensures dev.Valid()
    ensures client.received == old(client.received) + dev.Data()[old(file.fPos)..]
  {
    hide AesdDevice.Valid, AesdDevice.Data;
    ghost var start, data := file.fPos, dev.Data();
    var rn: int := 1;
    while rn > 0
      invariant dev.Valid() && dev.Data() == data
      invariant start <= file.fPos <= |data|
      invariant rn >= 0 && (rn == 0 ==> file.fPos == |data|)
      invariant client.received == old(client.received) + data[start..file.fPos]
      decreases |data| - file.fPos, rn
    {
      var tmpbuf := new Byte[BUFFSIZE](_ => NUL);
      ghost var before := file.fPos;
      rn := dev.Read(file, tmpbuf, BUFFSIZE, ReadFaults(true, n => BUFFSIZE));
      if rn > 0 {
        SlicesJoin(data, start, before, file.fPos);
        client.Send(tmpbuf[..rn]);
      }
    }
  }

  // The reply to one chunk: a seek command is answered from its position on, any other chunk with
  // everything, if strchr finds a newline in it.
  function Reply(before: seq<Byte>, buf: seq<Byte>, cmd: Recognised): seq<Byte> {
    match cmd
    case Text => if Strchr(buf) >= 0 then Visible(before + buf) else []
    case SeekTo(k, o) =>
      var lines := Lines.Parse(before).lines;
      if InCommand(lines, k, o) then
        CommandWithin(lines, k, o);
        Visible(before)[CommandStart(lines, k) + o..]
      else []
  }

  /** One received chunk: it is written and answered, or taken as a seek command and answered. */
  method ProcessMessage(dev: AesdDevice, client: Client, buf: seq<Byte>, cmd: Recognised, faults: WriteFaults)
    returns (failed: bool)
    requires dev.Valid()
    modifies dev.Repr(), client
    ensures dev.Valid()
    ensures !failed ==>
              && dev.stream == old(dev.stream) + (if cmd.Text? then buf else [])
              && client.received == old(client.received) +
                                    (if buf == [] then [] else Reply(old(dev.stream), buf, cmd))
    // a chunk of text without a NUL is answered with all data if it holds a newline, and else not at all
    ensures !failed && cmd.Text? && NUL !in buf ==>
              client.received == old(client.received) + if NEWLINE in buf then dev.Data() else []
    // a seek command for a byte of a used slot, or one further, is answered from there on, any other not at all
    ensures cmd.SeekTo? && buf != [] ==>
              var entry := dev.ring.entry;
              if cmd.cmd < entry.Length && entry[cmd.cmd].buffptr != NULL && cmd.offset <= entry[cmd.cmd].size
              then
                var start := TotalSize(entry[..cmd.cmd]) + cmd.offset;
                start <= |dev.Data()| && client.received == old(client.received) + dev.Data()[start..]
              else client.received == old(client.received)
    ensures failed ==> cmd.Text? && client.received == old(client.received)
    ensures failed ==> exists taken: nat :: taken <= |buf| && dev.stream == old(dev.stream) + buf[..taken]
    ensures dev.kmem.used <= old(dev.kmem.used) + |buf|
    ensures !failed <== faults == NoFaults(|buf|) && old(dev.kmem.used) + 2 * |buf| <= CAPACITY
  {
    hide AesdDevice.Valid, Visible, CommandStart, InCommand, Strchr;
    failed := false;
    if NUL !in buf {
      NulFreeFinds(buf);
    }
    if |buf| <= 0 {
      assert dev.stream == old(dev.stream) + buf == old(dev.stream) + [];
      return;
    }
    if cmd.SeekTo? {
      var logFd := new File.Open();
      var rc := dev.Ioctl(logFd, IOCSEEKTO, true, cmd.cmd, cmd.offset);
      assert dev.stream == old(dev.stream) + [];
      if rc >= 0 {
        ghost var before := dev.ring.entry[..cmd.cmd];
        Dump(dev, logFd, client);
        assert dev.ring.entry[..cmd.cmd] == before;
      }
    } else {
      var nbytes, taken := dev.Write(buf, faults);
      if nbytes < 0 {
        failed := true;
        return;
      }
      assert buf[..taken] == buf;
      if Strchr(buf) >= 0 {
        var logFd := new File.Open();
        Dump(dev, logFd, client);
      }
    }
  }

  function NoFaults(n: nat): WriteFaults {
    WriteFaults(true, n, true, n, NUL)
  }

  function Replies(before: seq<Byte>, chunks: seq<seq<Byte>>): seq<Byte>
    decreases |chunks|
  {
    if chunks == [] then []
    else (if chunks[0] == [] then [] else Reply(before, chunks[0], Text)) + Replies(before + chunks[0], chunks[1..])
  }

  lemma RepliesStep(before: seq<Byte>, sent: seq<Byte>, chunks: seq<seq<Byte>>)
    ensures chunks == [] ==> before + Flatten(chunks) == before && sent + Replies(before, chunks) == sent
    ensures chunks != [] ==>
              var first, rest := chunks[0], chunks[1..];
              && before + Flatten(chunks) == before + first + Flatten(rest)
              && |Flatten(chunks)| == |first| + |Flatten(rest)|
              && sent + Replies(before, chunks) ==
                 sent + (if first == [] then [] else Reply(before, first, Text)) + Replies(before + first, rest)
  {
  }

  // One more chunk in front: the stream so far is reckoned from before it.
  lemma PrefixBehind(before: seq<Byte>, chunks: seq<seq<Byte>>, i: nat)
    requires i < |chunks|
    ensures before + Flatten(chunks[..i + 1]) == before + chunks[0] + Flatten(chunks[1..][..i])
  {
    assert chunks[..i + 1] == [chunks[0]] + chunks[1..][..i];
    assert chunks[..i + 1][1..] == chunks[1..][..i];
  }

  // The reply to a single chunk, if it has no NUL: the last lines of the stream so far for one with a newline.
  lemma TextReply(before: seq<Byte>, chunk: seq<Byte>)
    requires NUL !in chunk
    ensures (if chunk == [] then [] else Reply(before, chunk, Text)) ==
            if NEWLINE in chunk then Visible(before + chunk) else []
  {
    NulFreeFinds(chunk);
  }

  lemma {:induction false} RepliesExact(before: seq<Byte>, chunks: seq<seq<Byte>>) returns (replies: seq<seq<Byte>>)
    ensures |replies| == |chunks| && Replies(before, chunks) == Flatten(replies)
    ensures forall i :: 0 <= i < |chunks| && NUL !in chunks[i] ==>
              replies[i] == if NEWLINE in chunks[i] then Visible(before + Flatten(chunks[..i + 1])) else []
    decreases |chunks|
  {
    hide Visible, Reply;
    if chunks == [] {
      replies := [];
    } else {
      var rest := RepliesExact(before + chunks[0], chunks[1..]);
      replies := [if chunks[0] == [] then [] else Reply(before, chunks[0], Text)] + rest;
      assert replies[1..] == rest;
      hide Flatten, Replies;
      forall i | 0 <= i < |chunks| && NUL !in chunks[i]
        ensures replies[i] == if NEWLINE in chunks[i] then Visible(before + Flatten(chunks[..i + 1])) else []
      {
        PrefixBehind(before, chunks, i);
        if i == 0 {
          TextReply(before, chunks[0]);
          FlattenNone(chunks[1..]);
          assert before + chunks[0] + [] == before + chunks[0];
        } else {
          assert i - 1 + 1 == i;
          assert chunks[1..][i - 1] == chunks[i] && replies[i] == rest[i - 1];
        }
      }
    }
  }

  lemma FlattenNone(chunks: seq<seq<Byte>>)
    ensures Flatten(chunks[..0]) == []
  {
  }

  // The chunks, in terms of the reply to each.
  method ServeChunks(dev: AesdDevice, client: Client, chunks: seq<seq<Byte>>) returns (failed: bool)
    requires dev.Valid()
    modifies dev.Repr(), client
    ensures dev.Valid()
    ensures !failed ==>
              && dev.stream == old(dev.stream) + Flatten(chunks)
              && client.received == old(client.received) + Replies(old(dev.stream), chunks)
    ensures !failed <== old(dev.kmem.used) + 2 * |Flatten(chunks)| <= CAPACITY
    decreases |chunks|
  {
    hide AesdDevice.Valid, Reply, Replies, Flatten;
    RepliesStep(dev.stream, client.received, chunks);
    failed := false;
    if chunks == [] {
      return;
    }
    failed := ProcessMessage(dev, client, chunks[0], Text, NoFaults(|chunks[0]|));
    var rest := ServeChunks(dev, client, chunks[1..]);
    failed := failed || rest;
  }

  /** A whole connection: the device ends up with the stream, however it was cut into chunks, and each
      chunk in which a newline is found is answered with what is visible right after it. */
  method Serve(dev: AesdDevice, client: Client, chunks: seq<seq<Byte>>)
    returns (failed: bool, ghost replies: seq<seq<Byte>>)
    requires dev.Valid()
    modifies dev.Repr(), client
    ensures dev.Valid()
    ensures !failed ==>
              && dev.stream == old(dev.stream) + Flatten(chunks)
              && |replies| == |chunks| && client.received == old(client.received) + Flatten(replies)
              && forall i :: 0 <= i < |chunks| && NUL !in chunks[i] ==>
                   replies[i] == if NEWLINE in chunks[i]
                                 then Visible(old(dev.stream) + Flatten(chunks[..i + 1])) else []
    ensures !failed ==> client.received == old(client.received) + Replies(old(dev.stream), chunks)
    ensures !failed <== old(dev.kmem.used) + 2 * |Flatten(chunks)| <= CAPACITY
  {
    replies := RepliesExact(dev.stream, chunks);
    failed := ServeChunks(dev, client, chunks);
  }

}
