/** The character driver: aesd-char-driver/main.c. */
module Device {
  import opened Bytes
  import opened Sequences
  import opened Lines
  import opened KernelMemory
  import opened RingModel
  import opened CircularBuffer
  import opened Ownership
  import opened Positions
  import opened CommandSeek

  // An open file: only its position belongs to the driver.
  class File {
    var fPos: Int64

    constructor Open()
      ensures fPos == 0
    {
      fPos := 0;
    }
  }

  // The outcomes one write call meets: of kmalloc, of copy_from_user (bytes that arrive), of the
  // lock, and how many krealloc calls the allocator grants before refusing one.
  datatype WriteFaults = WriteFaults(kmalloc: bool, arrives: nat, lock: bool, grants: nat, junk: Byte)

  // The outcomes one read call meets: of the lock, and how many bytes copy_to_user can deliver to byte n of
  // the caller's buffer and on.
  datatype ReadFaults = ReadFaults(lock: bool, arrives: nat -> nat)

  // The first n bytes of the caller's buffer are data from `start` on, the others as they were before.
  ghost predicate Copied(buf: seq<Byte>, before: seq<Byte>, data: seq<Byte>, start: int, n: nat) {
    && |buf| == |before| && n <= |buf|
    && (n > 0 ==> 0 <= start && start + n <= |data| && buf[..n] == data[start..start + n])
    && buf[n..] == before[n..]
  }

  lemma NothingCopied(buf: seq<Byte>, data: seq<Byte>, start: int)
    ensures Copied(buf, buf, data, start, 0)
  {
  }

  lemma CopiedMeans(buf: seq<Byte>, before: seq<Byte>, data: seq<Byte>, start: int, n: nat)
    requires Copied(buf, before, data, start, n)
    ensures n <= |buf| == |before| && buf[n..] == before[n..]
    ensures n > 0 ==> 0 <= start && start + n <= |data| && buf[..n] == data[start..start + n]
  {
  }

  lemma CopiedFront(buf: seq<Byte>, before: seq<Byte>, data: seq<Byte>, start: nat, n: nat)
    requires Copied(buf, before, data, start, n) && start + n <= |data|
    ensures n <= |buf| && buf[..n] == data[start..start + n]
  {
  }

  lemma MoreCopied(was: seq<Byte>, buf: seq<Byte>, before: seq<Byte>, data: seq<Byte>, start: nat, n: nat, m: nat)
    requires Copied(was, before, data, start, n)
    requires |buf| == |was| && n <= m <= |buf| && start + m <= |data|
    requires buf[..n] == was[..n] && buf[m..] == was[m..] && buf[n..m] == data[start + n..start + m]
    ensures Copied(buf, before, data, start, m)
  {
    SlicesJoin(buf, 0, n, m);
    SlicesJoin(data, start, start + n, start + m);
    assert was[m..] == was[n..][m - n..] == before[n..][m - n..] == before[m..];
  }

  class AesdDevice {
    const kmem: Kmem
    const ring: Ring
    var gBuff: Ptr
    var gLen: nat
    // every byte accepted since the module was loaded
    ghost var stream: seq<Byte>

    // The fields and the kernel memory hold exactly `p`, next to `tempBytes` bytes at `temp`.
    ghost predicate Holds(p: Parsed, temp: set<Ptr>, tempBytes: nat)
      reads this, kmem, ring, ring.entry
    {
      && kmem.Valid()
      && ring.Valid()
      && Owns(kmem.mem, ring.Contents(), gBuff, temp, p)
      && gLen == |p.tail|
      && |ring.added| == |p.lines|
      && kmem.used == TotalSize(ring.Contents()) + gLen + tempBytes
    }

    ghost predicate Valid()
      reads this, kmem, ring, ring.entry
    {
      Holds(Parse(stream), {}, 0)
    }

    ghost function Repr(): set<object>
    {
      {this, kmem, ring, ring.entry}
    }

    constructor Init()
      ensures Valid() && fresh(Repr()) && stream == []
    {
      kmem := new Kmem();
      ring := new Ring.Init();
      gBuff, gLen, stream := NULL, 0, [];
    }

    // One round of the write loop.
    method WriteByte(b: Byte, grant: bool, junk: Byte, ghost temp: set<Ptr>, ghost tempBytes: nat)
      returns (ok: bool)
      requires Holds(Parse(stream), temp, tempBytes)
      modifies this, kmem, ring, ring.entry
      ensures Holds(Parse(stream), temp, tempBytes)
      ensures stream == if ok then old(stream) + [b] else old(stream)
      ensures !ok ==> kmem.mem == old(kmem.mem) && gBuff == old(gBuff)
      ensures ok ==> grant
      ensures ok <== grant && old(kmem.used) < CAPACITY
      ensures kmem.used <= old(kmem.used) + if ok then 1 else 0
      ensures forall p :: p in temp ==> p in kmem.mem && kmem.mem[p] == old(kmem.mem[p])
    {
      ghost var p := Parse(stream);
      ParseStep(stream, b);
      ok := Grow(b, grant, junk, p, temp, tempBytes);
      if !ok {
        return;
      }
      if b == NEWLINE {
        Commit(Parsed(p.lines, p.tail + [b]), temp, tempBytes);
      }
      stream := stream + [b];
    }

    // The pending buffer takes one more byte, if krealloc grants it.
    method Grow(b: Byte, grant: bool, junk: Byte, ghost p: Parsed, ghost temp: set<Ptr>, ghost tempBytes: nat)
      returns (ok: bool)
      requires Holds(p, temp, tempBytes)
      modifies this`gBuff, this`gLen, kmem
      ensures Holds(if ok then Parsed(p.lines, p.tail + [b]) else p, temp, tempBytes)
      ensures !ok ==> kmem.mem == old(kmem.mem) && gBuff == old(gBuff)
      ensures ok ==> grant
      ensures ok <== grant && old(kmem.used) < CAPACITY
      ensures kmem.used <= old(kmem.used) + if ok then 1 else 0
      ensures forall q :: q in temp ==> q in kmem.mem && kmem.mem[q] == old(kmem.mem[q])
    {
      var q := kmem.Krealloc(gBuff, gLen + 1, grant, junk);
      if q == NULL {
        return false;
      }
      PendingGrows(old(kmem.mem), ring.Contents(), gBuff, temp, p, q, b);
      gBuff := q;
      kmem.Store(gBuff, gLen, b);
      assert kmem.mem[q] == p.tail + [b];
      gLen := gLen + 1;
      ok := true;
    }

    // The pending line goes to the ring, which may give a block back to be freed.
    method Commit(ghost p: Parsed, ghost temp: set<Ptr>, ghost tempBytes: nat)
      requires Holds(p, temp, tempBytes) && p.tail != []
      modifies this`gBuff, this`gLen, kmem, ring, ring.entry
      ensures Holds(Parsed(p.lines + [p.tail], []), temp, tempBytes)
      ensures kmem.used <= old(kmem.used)
      ensures forall q :: q in temp ==> q in kmem.mem && kmem.mem[q] == old(kmem.mem[q])
    {
      hide Owns, Slots, Window, TotalSize;
      var e := Entry(gBuff, gLen);
      LineCommits(kmem.mem, ring.Contents(), gBuff, temp, p);
      CommittedSize(ring.Contents(), e);
      var oldBuff := ring.AddEntry(e);
      if oldBuff != NULL {
        kmem.Kfree(oldBuff);
      }
      gBuff := NULL;
      gLen := 0;
    }

    /** A write takes all of `buf`, or a prefix of it when the allocator gives up on the way. */
    method Write(buf: seq<Byte>, faults: WriteFaults) returns (ret: int, ghost taken: nat)
      requires Valid()
      modifies this, kmem, ring, ring.entry
      ensures Valid()
      ensures taken <= |buf| && stream == old(stream) + buf[..taken]
      ensures ret >= 0 ==> ret == taken == |buf|
      ensures kmem.used <= old(kmem.used) + taken
      ensures ret < 0 ==> taken < |buf| || taken == 0
      ensures ret < 0 ==> (ret == -ENOMEM || (taken == 0 && (ret == -EFAULT || ret == -ERESTARTSYS)))
      ensures ret < 0 && taken == 0 ==> kmem.mem == old(kmem.mem) && gBuff == old(gBuff)
      ensures taken <= faults.grants
      ensures var granted := faults.kmalloc && old(kmem.used) + |buf| <= CAPACITY;
              && (!granted ==> ret == -ENOMEM && taken == 0)
              && (granted && faults.arrives < |buf| ==> ret == -EFAULT && taken == 0)
              && (granted && faults.arrives >= |buf| && !faults.lock ==> ret == -ERESTARTSYS && taken == 0)
              && (granted && faults.arrives >= |buf| && faults.lock ==>
                    ret == if taken == |buf| then |buf| else -ENOMEM)
      ensures faults.kmalloc && faults.arrives >= |buf| && faults.lock && old(kmem.used) + 2 * |buf| <= CAPACITY ==>
                taken == Min(|buf|, faults.grants) && (taken == |buf| ==> ret >= 0)
    {
      hide Holds, Parse;
      var wbuff, err := Fetch(buf, faults);
      taken := 0;
      if wbuff == NULL {
        return err, 0;
      }
      var i := 0;
      while i < |buf|
        invariant 0 <= i <= |buf| && taken == i <= faults.grants
        invariant Holds(Parse(stream), {wbuff}, |buf|)
        invariant wbuff in kmem.mem && kmem.mem[wbuff] == buf
        invariant i == 0 ==> kmem.mem == old(kmem.mem)[wbuff := buf] && gBuff == old(gBuff)
        invariant stream == old(stream) + buf[..i]
        invariant kmem.used <= old(kmem.used) + |buf| + i
      {
        var ok := WriteByte(kmem.mem[wbuff][i], i < faults.grants, faults.junk, {wbuff}, |buf|);
        if !ok {
          Release(wbuff, |buf|);
          return -ENOMEM, taken;
        }
        assert buf[..i + 1] == buf[..i] + [buf[i]];
        i := i + 1;
        taken := i;
      }
      Release(wbuff, |buf|);
      ret := i;
    }

    // Before the loop: a kernel copy of the caller's bytes, and the lock.
    method Fetch(buf: seq<Byte>, faults: WriteFaults) returns (wbuff: Ptr, err: int)
      requires Valid()
      modifies kmem
      ensures wbuff == NULL ==> Valid() && (err == -ENOMEM || err == -EFAULT || err == -ERESTARTSYS)
      ensures wbuff == NULL ==> kmem.mem == old(kmem.mem) && kmem.used == old(kmem.used)
      ensures wbuff == NULL ==>
                err == if !faults.kmalloc || old(kmem.used) + |buf| > CAPACITY then -ENOMEM
                       else if faults.arrives < |buf| then -EFAULT else -ERESTARTSYS
      ensures wbuff != NULL ==>
                && Holds(Parse(stream), {wbuff}, |buf|)
                && wbuff !in old(kmem.mem) && kmem.mem == old(kmem.mem)[wbuff := buf]
                && kmem.used == old(kmem.used) + |buf|
      ensures wbuff != NULL <==>
              faults.kmalloc && faults.arrives >= |buf| && faults.lock && old(kmem.used) + |buf| <= CAPACITY
    {
      hide Owns, Slots, Window, TotalSize;
      assert NULL !in kmem.mem;
      ghost var mem, p := kmem.mem, Parse(stream);
      wbuff := kmem.Kmalloc(|buf|, faults.kmalloc, faults.junk);
      err := -ENOMEM;
      if wbuff != NULL {
        var left := kmem.CopyFromUser(wbuff, buf, faults.arrives);
        ghost var block := kmem.mem[wbuff];
        assert kmem.mem == mem[wbuff := block];
        TempTaken(mem, ring.Contents(), gBuff, p, wbuff, block);
        if left != 0 || !faults.lock {
          err := if left != 0 then -EFAULT else -ERESTARTSYS;
          kmem.Kfree(wbuff);
          assert kmem.mem == mem;
          wbuff := NULL;
        }
      }
    }

    method Release(wbuff: Ptr, ghost tempBytes: nat)
      requires Holds(Parse(stream), {wbuff}, tempBytes)
      requires wbuff in kmem.mem && |kmem.mem[wbuff]| == tempBytes
      modifies kmem
      ensures Valid() && kmem.mem == old(kmem.mem) - {wbuff} && kmem.used == old(kmem.used) - tempBytes
    {
      hide Owns, Slots, Window, TotalSize;
      TempGivenBack(kmem.mem, ring.Contents(), gBuff, Parse(stream), wbuff);
      kmem.Kfree(wbuff);
    }

    // What a reader can see now.
    ghost function Data(): seq<Byte>
      reads this
    {
      Visible(stream)
    }

    // The ring's sizes add up to the readable bytes, and those fit a signed 64-bit offset.
    lemma DataSize()
      requires Valid()
      ensures TotalSize(ring.Contents()) == |Data()| < TWO_63
      ensures NonEmpty(ring.Contents()) && AllStored(ring.Contents())
      ensures Measures(ring.Contents(), Window(Parse(stream).lines))
    {
      ParseSplits(stream);
      MeasuredTotal(ring.Contents(), Window(Parse(stream).lines));
    }

    // What an entry's pointer leads to.
    ghost function Held(p: Ptr): seq<Byte>
      reads kmem
    {
      if p in kmem.mem then kmem.mem[p] else []
    }

    lemma NothingAtNull()
      requires Valid()
      ensures Held(NULL) == []
    {
    }

    /** All that the driver keeps is a function of the accepted bytes: the offsets in closed form, the
        lines by slot in ring order, and the unfinished tail. */
    lemma ClosedForm()
      requires Valid()
      ensures var p := Parse(stream);
              var n, w := |p.lines|, Window(p.lines);
              && ring.entry.Length == MAX_OPS && ring.outOffs < MAX_OPS
              && ring.inOffs == n % MAX_OPS
              && ring.outOffs == (if n <= MAX_OPS then 0 else n % MAX_OPS)
              && (ring.full <==> n >= MAX_OPS)
              && (forall j :: 0 <= j < |w| ==>
                    var e := ring.entry[Slot(ring.outOffs, j)];
                    e.size == |w[j]| && Held(e.buffptr) == w[j])
              && (forall k :: n <= k < MAX_OPS ==> ring.entry[k] == EMPTY)
              && gLen == |p.tail| && Held(gBuff) == p.tail
    {
      hide Slots, Window;
      forall j: nat | j < |Window(Parse(stream).lines)|
        ensures ring.entry[Slot(ring.outOffs, j)] == ring.Contents()[j]
      {
        SlotAt(ring.added, j);
      }
      forall k: nat | |Parse(stream).lines| <= k < MAX_OPS
        ensures ring.entry[k] == EMPTY
      {
        SlotAt(ring.added, k);
      }
    }

    // A found position names a live block, and from its offset on that block is the data.
    ghost predicate Names(found: Found, pos: int)
      reads this, kmem, ring, ring.entry
    {
      && found.Found? && found.slot < ring.entry.Length
      && var e := ring.entry[found.slot];
      && e.buffptr in kmem.mem && |kmem.mem[e.buffptr]| == e.size
      && found.offset < e.size
      && 0 <= pos && pos + (e.size - found.offset) <= |Data()|
      && Data()[pos..pos + (e.size - found.offset)] == kmem.mem[e.buffptr][found.offset..e.size]
      && LineEnd(Data(), pos) == pos + (e.size - found.offset)
    }

    lemma LineFound(data: seq<Byte>, pos: nat, line: Line, o: nat)
      requires IsLine(line) && o < |line| && pos + (|line| - o) <= |data|
      requires data[pos..pos + (|line| - o)] == line[o..]
      ensures LineEnd(data, pos) == pos + (|line| - o)
    {
      var end := pos + (|line| - o);
      assert data[end - 1] == data[pos..end][end - 1 - pos] == line[|line| - 1];
      assert data[pos..end - 1] == data[pos..end][..end - 1 - pos] == line[..|line| - 1][o..];
      LineEndAt(data, pos, end);
    }

    lemma FoundNames(at: Located, pos: nat)
      requires Valid() && at.At? && Locate(ring.Contents(), pos) == at
      ensures Names(Found(Slot(ring.outOffs, at.index), at.offset), pos)
    {
      hide Slots, Window;
      var c, w := ring.Contents(), Window(Parse(stream).lines);
      LocateExact(c, pos, at);
      MeasuredStart(c, w, at.index);
      FlattenAt(w, at.index, at.offset, |w[at.index]|);
      WindowLines(stream, at.index);
      LineFound(Data(), pos, w[at.index], at.offset);
      SlotAt(ring.added, at.index);
    }

    method Find(pos: Int64) returns (found: Found)
      requires Valid()
      ensures found.Found? <==> 0 <= pos < |Data()|
      ensures found.Found? ==> Names(found, pos)
    {
      hide Slots, Window, Owns, Locate, Visible, RingModel.Names;
      DataSize();
      ghost var at := Locate(ring.Contents(), ToUint64(pos));
      LocateTotal(ring.Contents(), ToUint64(pos));
      found := ring.FindEntryOffset(ToUint64(pos));
      if at.At? {
        FoundNames(at, ToUint64(pos));
      }
    }

    /** A read copies from the position on, across entries and the wrap-around, and advances by as much. */
    method Read(file: File, ubuf: array<Byte>, count: Uint64, faults: ReadFaults) returns (ret: int)
      requires Valid() && count <= ubuf.Length
      requires ubuf as object !in Repr()
      modifies file, ubuf
      ensures Valid()
      ensures ret >= 0 ==>
                && ret == ReadLength(|Data()|, old(file.fPos), count)
                && file.fPos == old(file.fPos) + ret
                && Copied(ubuf[..], old(ubuf[..]), Data(), old(file.fPos), ret)
      ensures ret > 0 ==>
                && 0 <= old(file.fPos) && old(file.fPos) + ret <= |Data()|
                && ubuf[..ret] == Data()[old(file.fPos)..old(file.fPos) + ret]
      ensures ret >= 0 ==> ret <= ubuf.Length && ubuf[ret..] == old(ubuf[..])[ret..]
      ensures ret < 0 ==> ret == -ERESTARTSYS || ret == -EFAULT
      ensures ret == -ERESTARTSYS <==> !faults.lock
      ensures ret == -ERESTARTSYS ==> file.fPos == old(file.fPos) && ubuf[..] == old(ubuf[..])
      ensures faults.lock ==> file.fPos == ReadStop(Data(), old(file.fPos), count, faults.arrives)
      ensures ret == -EFAULT <==> faults.lock && Faults(Data(), old(file.fPos), count, faults.arrives)
      ensures ret == -EFAULT ==>
                var passed := file.fPos - old(file.fPos);
                Copied(ubuf[..], old(ubuf[..]), Data(), old(file.fPos), passed + faults.arrives(passed))
    {
      hide Holds, Visible, Names, Parse, Data, Copied, LineEnd, Stop;
      NothingCopied(ubuf[..], Data(), file.fPos);
      if !faults.lock {
        return -ERESTARTSYS;
      }
      DataSize();
      ghost var start, data, before := file.fPos, Data(), ubuf[..];
      ghost var end := start + ReadLength(|data|, start, count);
      var bytesRead := 0;
      var found := Find(file.fPos);
      if found == NotFound {
        CopiedMeans(ubuf[..], before, data, start, 0);
        return 0;
      }
      StopEnds(data, start, end, faults.arrives);
      while found.Found? && bytesRead < count
        invariant bytesRead <= count && file.fPos == start + bytesRead <= end
        invariant found.Found? <==> file.fPos < |data|
        invariant found.Found? ==> Names(found, file.fPos)
        invariant Copied(ubuf[..], before, data, start, bytesRead)
        invariant Stop(data, start, start, end, faults.arrives) == Stop(data, start, file.fPos, end, faults.arrives)
      {
        var cpsz, left := CopyNext(found, start, file.fPos, ubuf, bytesRead, count, faults, before);
        if left != 0 {
          return -EFAULT;
        }
        bytesRead := bytesRead + cpsz;
        file.fPos := file.fPos + cpsz;
        found := Find(file.fPos);
      }
      ret := bytesRead;
      CopiedMeans(ubuf[..], before, data, start, ret);
      assert ubuf[..][..ret] == ubuf[..ret] && ubuf[..][ret..] == ubuf[ret..];
    }

    // The next copy brings the read closer to its stop, or is at it.
    method CopyNext(found: Found, ghost start: nat, pos: nat, ubuf: array<Byte>, bytesRead: nat, count: nat,
                    faults: ReadFaults, ghost before: seq<Byte>)
      returns (cpsz: nat, left: nat)
      requires Valid() && Names(found, pos)
      requires pos == start + bytesRead < |Data()| && bytesRead < count <= ubuf.Length
      requires ubuf as object !in Repr()
      requires Copied(ubuf[..], before, Data(), start, bytesRead)
      modifies ubuf
      ensures 0 < cpsz <= count - bytesRead && pos + cpsz <= |Data()|
      ensures Copied(ubuf[..], before, Data(), start, bytesRead + if left == 0 then cpsz else faults.arrives(bytesRead))
      ensures var end := Min(start + count, |Data()|);
              Stop(Data(), start, pos, end, faults.arrives) ==
              if left == 0 then Stop(Data(), start, pos + cpsz, end, faults.arrives) else pos
    {
      hide Holds, Visible, Names, Parse, Data, Copied, LineEnd, Stop;
      ghost var was := ubuf[..];
      CopiedFront(was, before, Data(), start, bytesRead);
      StopStep(Data(), start, pos, Min(start + count, |Data()|), faults.arrives);
      cpsz, left := CopyChunk(found, pos, ubuf, bytesRead, count, faults.arrives(bytesRead));
      MoreCopied(was, ubuf[..], before, Data(), start, bytesRead, bytesRead + cpsz - left);
    }

    // One copy_to_user: as much as the entry still has and the caller still wants.
    method CopyChunk(found: Found, pos: nat, ubuf: array<Byte>, bytesRead: nat, count: nat, arrives: nat)
      returns (cpsz: nat, left: nat)
      requires Valid() && Names(found, pos)
      requires bytesRead < count <= ubuf.Length
      requires ubuf as object !in Repr()
      modifies ubuf
      ensures pos < |Data()| && cpsz == Min(LineEnd(Data(), pos) - pos, count - bytesRead)
      ensures left == cpsz - Min(arrives, cpsz)
      ensures ubuf[..bytesRead] == old(ubuf[..bytesRead])
      ensures ubuf[bytesRead + cpsz - left..] == old(ubuf[bytesRead + cpsz - left..])
      ensures ubuf[bytesRead..bytesRead + cpsz - left] == Data()[pos..pos + cpsz - left]
    {
      hide Owns, Slots, Window, Parse, Visible, LineEnd;
      var e := ring.entry[found.slot];
      cpsz := e.size - found.offset;
      ghost var rest := cpsz;
      if cpsz > count - bytesRead {
        cpsz := count - bytesRead;
      }
      ghost var data, block, n := Data(), kmem.mem[e.buffptr], Min(arrives, cpsz);
      SlicePart(data, pos, pos + n, pos + rest);
      SlicePart(block, found.offset, found.offset + n, e.size);
      left := kmem.CopyToUser(ubuf, bytesRead, e.buffptr, found.offset, cpsz, arrives);
    }

    /** llseek succeeds exactly for a target within the data, or at its end for SEEK_END, reckoned from the
        start, the position or the end; a refused one moves nothing. */
    method Llseek(file: File, offset: Int64, whence: int) returns (ret: int)
      requires Valid() && file.fPos >= 0
      modifies file
      ensures var accepted := Accepts(|Data()|, old(file.fPos), offset, whence);
              && ret == (if accepted then Target(|Data()|, old(file.fPos), offset, whence) else -EINVAL)
              && file.fPos == (if accepted then ret else old(file.fPos))
      ensures whence == SEEK_SET ==>
                && (ret >= 0 <==> 0 <= offset < |Data()|)
                && (ret >= 0 ==> ret == file.fPos == offset)
      ensures whence == SEEK_CUR ==>
                && (ret >= 0 <==> 0 <= old(file.fPos) + offset < |Data()|)
                && (ret >= 0 ==> ret == file.fPos == old(file.fPos) + offset)
      ensures whence == SEEK_END ==>
                && (ret >= 0 <==> -|Data()| <= offset <= 0)
                && (ret >= 0 ==> ret == file.fPos == |Data()| + offset)
      ensures whence < SEEK_SET || SEEK_END < whence ==> ret == -EINVAL
      ensures ret < 0 ==> ret == -EINVAL && file.fPos == old(file.fPos)
    {
      hide Owns, Slots, Window, ToUint64, ToInt64, Visible;
      DataSize();
      PhysicalScans(ring.added);
      var buffSize := ring.Size();
      var np: Int64;
      if whence == SEEK_SET {
        if offset < 0 || ToUint64(offset) >= buffSize {
          return -EINVAL;
        }
        np := offset;
      } else if whence == SEEK_CUR {
        var sum := ToInt64(file.fPos + offset);
        if sum < 0 || ToUint64(sum) >= buffSize {
          return -EINVAL;
        }
        np := sum;
      } else if whence == SEEK_END {
        var sum := ToUint64(buffSize + offset);
        if sum < 0 || sum > buffSize {
          return -EINVAL;
        }
        np := ToInt64(sum);
      } else {
        return -EINVAL;
      }
      file.fPos := np;
      ret := np;
    }

    /** The seek command goes to a byte of a command by its slot; the offset may be one past the command. */
    method Ioctl(file: File, cmd: Uint32, copied: bool, writeCmd: Uint32, writeCmdOffset: Uint32) returns (ret: int)
      requires Valid()
      modifies file
      ensures var lines := Parse(stream).lines;
              var accepted := cmd == IOCSEEKTO && copied && InCommand(lines, writeCmd, writeCmdOffset);
              && (accepted ==> ret == CommandStart(lines, writeCmd) + writeCmdOffset <= |Data()| && file.fPos == ret)
              && (!accepted ==>
                    ret == (if cmd == IOCSEEKTO && !copied then -EFAULT else -EINVAL) && file.fPos == old(file.fPos))
      ensures ret >= 0 <==>
              && cmd == IOCSEEKTO && copied
              && writeCmd < ring.entry.Length
              && ring.entry[writeCmd].buffptr != NULL && writeCmdOffset <= ring.entry[writeCmd].size
      ensures ret >= 0 ==> ret == file.fPos == TotalSize(ring.entry[..writeCmd]) + writeCmdOffset
    {
      hide Owns, Slots, Window;
      DataSize();
      PhysicalScans(ring.added);
      var count := ring.Count();
      if cmd != IOCSEEKTO {
        return -EINVAL;
      }
      if !copied {
        return -EFAULT;
      }
      if writeCmd >= MAX_OPS || writeCmd >= count {
        if writeCmd < MAX_OPS {
          SlotAt(ring.added, writeCmd);
        }
        return -EINVAL;
      }
      CommandMeasured(ring.added, Parse(stream).lines, writeCmd);
      if ring.entry[writeCmd].size < writeCmdOffset {
        return -EINVAL;
      }
      var start := ring.Seek(writeCmd);
      var np := start + writeCmdOffset;
      file.fPos := np;
      ret := np;
    }

    /** Unloading the module frees every block once and leaves none. */
    method Cleanup()
      requires Valid()
      modifies this`gBuff, kmem, ring.entry
      ensures kmem.mem == map[] && kmem.used == 0
      ensures gBuff == NULL && forall k :: 0 <= k < ring.entry.Length ==> ring.entry[k].buffptr == NULL
    {
      ghost var slots := ring.entry[..];
      OwnsPhysically(kmem.mem, ring.added, gBuff, Parse(stream));
      PhysicalTotal(ring.added);
      FreeSlots();
      if gBuff != NULL {
        kmem.Kfree(gBuff);
        gBuff := NULL;
      }
    }

    method FreeSlots()
      requires kmem.Valid() && ring.entry.Length == MAX_OPS
      requires SlotsOwn(kmem.mem, ring.entry[..], gBuff)
      requires kmem.used >= TotalSize(ring.entry[..])
      modifies kmem, ring.entry
      ensures kmem.Valid()
      ensures kmem.mem.Keys == Single(gBuff)
      ensures kmem.used == old(kmem.used) - TotalSize(old(ring.entry[..]))
      ensures gBuff != NULL ==> gBuff in old(kmem.mem) && kmem.mem[gBuff] == old(kmem.mem[gBuff])
      ensures forall k :: 0 <= k < MAX_OPS ==> ring.entry[k].buffptr == NULL
    {
      hide SlotsOwn, TotalSize;
      ghost var slots := ring.entry[..];
      var i := 0;
      while i < MAX_OPS
        invariant 0 <= i <= MAX_OPS && kmem.Valid()
        invariant SlotsOwn(kmem.mem, slots[i..], gBuff)
        invariant kmem.used == old(kmem.used) - TotalSize(slots) + TotalSize(slots[i..])
        invariant forall k :: i <= k < MAX_OPS ==> ring.entry[k] == slots[k]
        invariant forall k :: 0 <= k < i ==> ring.entry[k].buffptr == NULL
        invariant gBuff != NULL && gBuff in kmem.mem ==>
                    gBuff in old(kmem.mem) && kmem.mem[gBuff] == old(kmem.mem[gBuff])
      {
        SlotFreed(kmem.mem, slots[i..], gBuff);
        assert slots[i..][0] == slots[i] && slots[i..][1..] == slots[i + 1..];
        if ring.entry[i].buffptr != NULL {
          kmem.Kfree(ring.entry[i].buffptr);
          ring.entry[i] := ring.entry[i].(buffptr := NULL);
        }
        i := i + 1;
      }
      assert slots[i..] == [];
      AllFreed(kmem.mem, gBuff);
    }
  }

  /** However the bytes were cut into writes: two devices that accepted the same ones are in the same state. */
  lemma SameStreamSameState(d: AesdDevice, e: AesdDevice)
    requires d.Valid() && e.Valid() && d.stream == e.stream
    ensures d.ring.inOffs == e.ring.inOffs && d.ring.outOffs == e.ring.outOffs && d.ring.full == e.ring.full
    ensures d.ring.entry.Length == e.ring.entry.Length == MAX_OPS
    ensures forall k :: 0 <= k < MAX_OPS ==>
              && d.ring.entry[k].size == e.ring.entry[k].size
              && d.Held(d.ring.entry[k].buffptr) == e.Held(e.ring.entry[k].buffptr)
    ensures d.gLen == e.gLen && d.Held(d.gBuff) == e.Held(e.gBuff)
  {
    hide AesdDevice.Valid, Window;
    d.ClosedForm();
    e.ClosedForm();
    var n := |Parse(d.stream).lines|;
    forall k: nat | k < MAX_OPS
      ensures d.ring.entry[k].size == e.ring.entry[k].size
      ensures d.Held(d.ring.entry[k].buffptr) == e.Held(e.ring.entry[k].buffptr)
    {
      if k < n {
        assert Slot(OutOffs(n), Logical(n, k)) == k;
      } else {
        d.NothingAtNull();
        e.NothingAtNull();
      }
    }
  }
}
