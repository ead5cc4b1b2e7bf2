# AESD character driver and socket servers: a verified model

The project models the AESD character driver, the two socket servers that sit on top of a log device, and the
intrusive list macros they use.

- **The driver.** `kmem.dfy` is the kernel allocator as a class: `mem` maps each live pointer to its bytes, every
  call may fail, and freeing needs a live pointer. `circular_buffer.dfy` is the ten-slot ring with its raw
  `in_offs`, `out_offs` and `full` fields over an array of entries; the ghost field `added` records every entry
  ever added. `device.dfy` is the driver: one object that owns the ring, the pending buffer and the allocator, with
  the ghost field `stream`, all bytes accepted since load. `lines.dfy` says what that stream means: complete lines
  and an unfinished tail. Everything the driver keeps is proved to be a function of `stream` (`ClosedForm`), and
  what a reader sees is `Visible(stream)`, the last ten lines joined. `ownership.dfy` says which allocations are
  live and whose they are. `positions.dfy` and `command_seek.dfy` say where a read stops and where `llseek` and the seek command go.
- **Many open files.** `sessions.dfy` is a state machine over the same functions: any number of open files, any
  interleaving of open, write, read, llseek and ioctl, and of calls that fail on their way. `driver_steps.dfy` proves
  that each driver call, whatever it meets, is one of its steps.
- **The threaded server.** `thread_server.dfy` is one connection as a client of the driver. `registry.dfy` is the
  heap list of connection threads with its SLIST operations, maintenance and shutdown. `lifetime.dfy` is the
  protocol between the accept loop and any number of handler threads, one access to shared memory per step.
- **The tail queue macros** are in `tailq.dfy`; a head and an entry are the same `Link`, which is what makes the
  cast in `TAILQ_LAST` and `TAILQ_PREV` work.
- **The poll server.** `poll_server.dfy` is its log and line processing. `poll_table.dfy` is its slot table and main
  loop over any number of rounds and clients; `poll_rounds.dfy` says which reads such a run makes and in which order.
  `fragmentation.dfy` says what the clients are owed for the bytes that arrive.

`bytes.dfy` has the machine arithmetic and the string search, `sequences.dfy` what is needed of sequences in general.
Loops and field updates of the C code are methods with loops and fields; what they promise is stated with functions
on values, and the laws are lemmas about those functions. Sizes are unbounded integers, and 64-bit addition and
conversion are written out (`Add64`, `ToUint64`, `ToInt64`). That ring totals never wrap at the driver is not
assumed: it follows from the one assumption that the allocator never has 2^63 bytes handed out at once.

## Where the code does not do what its comments say

- **Command seek.** `aesd_ioctl.h` describes the command number as zero referenced among the write commands, but
  the code counts slots from slot 0, not from `out_offs`. After an eviction the two differ. `CommandStartExact`
  gives the exact condition under which every command is found, `SeekHitsIffPeriodic` the same for every byte of
  every command, `SeekIsPhysical` says where a seek goes otherwise, and `WrappedSeekMisses` is a stream after which
  it misses. The offset may also equal the command's size, one more than a byte offset within the write.
- **File positions.** A write can leave a position behind the end of the data: `EvictionStrandsReader` is a run from
  module load that does so. No other call can, and neither can a run that evicts nothing (`RunInRange`), however much
  was evicted before. `WriteInRange` gives the exact condition for a write and given positions,
  `WriteKeepsAnyPosition` the one for all positions that may exist, and `CommitInRange` the one for a single byte.
- **Faulting reads.** A read copies line by line, and one whose copy fails returns -EFAULT although the position has
  moved on over the lines copied before. `Read` says where it then stands (`ReadStop`), `StopCharacterised` says so
  without the loop, and `FaultMoves` gives the exact condition: the position is where it was if and only if the very
  first copy fails. `FaultSkips` is a read of two lines that returns nothing and passes over one. Such reads are the
  only way for a reader to lose data that is not evicted: `ReaderSeesPrefix` is an equivalence.
- **Newlines behind a NUL.** The poll server finds newlines with a string search that stops at a NUL, so how its
  input is cut into reads can change its responses. `FragmentationIndependent` gives the exact condition, for any
  number of clients whose bytes arrive interleaved.

## Model

| member | source | states |
|---|---|---|
| Lines.ParseCharacterised | aesd-char-driver/main.c:116-144 | cutting a stream after each newline has one result, and absorbing it byte by byte gives that one |
| Lines.ParseAppend | aesd-char-driver/main.c:116-144 | bytes of a later write leave the complete lines alone and continue the unfinished one |
| RingModel.LocateExact | aesd-char-driver/aesd-circular-buffer.c:29-60 | entry k and offset o are found for a position if and only if it is byte o of entry k and no earlier entry is empty |
| RingModel.LocateTotal | aesd-char-driver/aesd-circular-buffer.c:29-60 | with no empty entry, a position is found if and only if it is below the total |
| RingModel.NamesUnique | aesd-char-driver/aesd-circular-buffer.c:29-60 | no position is named by two different pairs of entry and offset |
| RingModel.PhysicalTotal | aesd-char-driver/aesd-circular-buffer.c:103-118 | the sizes of the physical slots add up to the logical contents, for every rotation and fill level |
| RingModel.PhysicalScans | aesd-char-driver/aesd-circular-buffer.c:103-135 | scanning from slot 0 to the first unused one counts the logical entries and their bytes |
| CircularBuffer.Ring.Init | aesd-char-driver/aesd-circular-buffer.c:98-101 | the ring starts empty and in closed form |
| CircularBuffer.Ring.AddEntry | aesd-char-driver/aesd-circular-buffer.c:69-93 | appends, dropping the oldest if there were ten, returns exactly the evicted pointer, and keeps the raw fields in closed form |
| CircularBuffer.Ring.FindEntryOffset | aesd-char-driver/aesd-circular-buffer.c:29-60 | finds the slot and offset of a position of the concatenation, whatever the sizes, or nothing |
| CircularBuffer.Ring.Size | aesd-char-driver/aesd-circular-buffer.c:103-118 | the bytes in the slots before the first unused one, without wrapping |
| CircularBuffer.Ring.Count | aesd-char-driver/aesd-circular-buffer.c:120-135 | the number of slots before the first unused one |
| CircularBuffer.Ring.Seek | aesd-char-driver/aesd-circular-buffer.c:137-156 | the bytes in the slots physically before the given one, and 0 for a number out of range |
| CommandSeek.SeekIsPhysical | aesd-char-driver/aesd-circular-buffer.c:137-156 | seek(k) is the logical start of slot k plus the bytes before out_offs, or minus the bytes from it on |
| CommandSeek.SeekHitsUnrotated | aesd-char-driver/aesd-circular-buffer.c:137-156 | with out_offs 0, seek(k) is the start of command k, and finding seek(k)+o gives back k and o |
| CommandSeek.SeekHitsIffPeriodic | aesd-char-driver/aesd-circular-buffer.c:137-156 | every byte of every command is hit if and only if the sizes do not change under rotation by out_offs |
| CommandSeek.CommandStartExact | aesd-char-driver/main.c:201-210 | the seek command finds the start of every command if and only if slot order and logical order have the same lengths |
| CommandSeek.WrappedSeekMisses | aesd-char-driver/main.c:201-210 | a stream after which the seek command for command 1 goes to 2 although that command starts at 1 |
| CommandSeek.CommandOffsets | aesd-char-driver/main.c:205-210 | a used slot takes an offset if and only if it leads no further than the end of the slot's line |
| CommandSeek.CommandWithin | aesd-char-driver/main.c:201-210 | whatever the seek command accepts leads to a position within the data |
| KernelMemory.Kmem.Krealloc | aesd-char-driver/main.c:117-123 | grows a block in place or elsewhere keeping its bytes; on failure the old block is untouched |
| KernelMemory.Kmem.Kfree | aesd-char-driver/main.c:137-139 | only a live block can be freed, and then it is live no more |
| Ownership.PendingGrows | aesd-char-driver/main.c:117-127 | after krealloc and the store the same allocations are owned, with the byte at the end of the pending buffer |
| Ownership.LineCommits | aesd-char-driver/main.c:130-143 | after a commit the ring owns the pending block, the evicted one was owned by nobody else, and nothing else changed hands |
| Ownership.OwnsPhysically | aesd-char-driver/main.c:276-286 | seen slot by slot, the ring's blocks are distinct, live and not the pending one |
| Device.AesdDevice.Init | aesd-char-driver/main.c:32-35 | nothing accepted, nothing allocated |
| Device.AesdDevice.WriteByte | aesd-char-driver/main.c:116-144 | one round takes one byte of the stream or, when krealloc fails, none, and keeps ownership exact |
| Device.AesdDevice.Write | aesd-char-driver/main.c:94-149 | a successful write accepts all its bytes; one whose krealloc fails after i bytes accepts exactly the first i and returns -ENOMEM; a refused kmalloc, a failing copy and an interrupted lock return -ENOMEM, -EFAULT and -ERESTARTSYS in this order and leave memory and pending buffer as they were |
| Device.AesdDevice.Read | aesd-char-driver/main.c:53-92 | returns min(count, what is left), fills the buffer with the data from the position on across entries and wrap-around, leaves the rest of it alone and advances the position by as much; returns -EFAULT exactly if one of the copies fails, with the position at the start of that copy and the buffer holding the data up to the byte at which it failed |
| Positions.StopCharacterised | aesd-char-driver/main.c:69-88 | a read stops at p if and only if every copy before p delivers, copies starting at the position and behind each newline, and p is the end of the read or the copy at p fails |
| Positions.FaultsExact | aesd-char-driver/main.c:78-81 | a read fails if and only if one of the copies that make it up does not deliver |
| Positions.FaultMoves | aesd-char-driver/main.c:78-85 | a failing read leaves the position where it was if and only if its very first copy is the one that fails |
| Device.AesdDevice.Llseek | aesd-char-driver/main.c:151-188 | in 64-bit wrapping arithmetic, SEEK_SET and SEEK_CUR succeed exactly for offset and position plus offset in [0,total), SEEK_END exactly for offsets in [-total,0], each moving there; all else is refused and moves nothing |
| Device.AesdDevice.Ioctl | aesd-char-driver/main.c:190-220 | accepts exactly used slots and offsets up to and including the size stored there, moves to the bytes of the slots before plus the offset, within the data; a refused call moves nothing |
| Device.AesdDevice.Cleanup | aesd-char-driver/main.c:270-289 | every block is freed once and none is left |
| Device.AesdDevice.ClosedForm | aesd-char-driver/main.c:94-149 | offsets, slots with their bytes, pending buffer and its length are a function of the accepted bytes |
| Device.SameStreamSameState | aesd-char-driver/main.c:94-149 | two devices that accepted the same bytes, in whatever writes, are in the same state |
| DriverSteps.Perform | aesd-char-driver/main.c:53-220 | each driver call on an open file, whatever fails in it, is one step of the interleaving model or, interrupted or without its argument, none; position, stream and data read are those of the model, and a read succeeds exactly if the model's does |
| DriverSteps.OpenFile | aesd-char-driver/main.c:43-46 | a file just opened, on a device with whatever data, is at the position the model opens it at, and no other file moves |
| Sessions.CommitShifts | aesd-char-driver/aesd-circular-buffer.c:69-93 | a committed line is appended to the data, and the oldest line leaves its front if there were ten |
| Sessions.WriteShifts | aesd-char-driver/main.c:94-149 | a whole write appends the lines that it completes to the data, and the lines displaced by them leave its front; what was ever committed and what was ever evicted grow by just these |
| Sessions.ReaderMovesForward | aesd-char-driver/main.c:53-149 | whatever others do and whichever reads fail, a file that is only read gets pieces of the committed stream in order, none twice |
| Sessions.OldDataIsPrefix | aesd-char-driver/main.c:94-149 | over a run that evicts nothing, the data before it is a prefix of the data after it |
| Sessions.ReaderSeesPrefix | aesd-char-driver/main.c:53-149 | over a run that evicts nothing, whatever was evicted before and wherever other files stand, it gets the data from its position to its final position without a gap if and only if each read of it that fails does so in its very first copy |
| Sessions.FaultSkips | aesd-char-driver/main.c:78-85 | a file just opened on two lines and a read whose second copy fails: nothing is delivered and the position is behind the first line |
| Sessions.DeliveredOrSkipped | aesd-char-driver/main.c:69-91 | over any run, what its reads deliver and what its failing reads pass over add up to the way of its position |
| Sessions.FileStaysInRange | aesd-char-driver/main.c:53-220 | over a run that evicts nothing, whatever was evicted before and wherever other files stand, a position within the data stays within the data |
| Sessions.RunInRange | aesd-char-driver/main.c:53-220 | the same for all files at once, also those opened in the run |
| Sessions.WriteInRange | aesd-char-driver/main.c:94-149 | a write leaves all positions within the data if and only if each of them, moved up by the bytes to be displaced, is within the data with the bytes to be completed |
| Sessions.WriteKeepsAnyPosition | aesd-char-driver/main.c:94-149 | a write keeps whatever positions there may be within the data if and only if it completes at least as many bytes as it displaces |
| Sessions.CommitInRange | aesd-char-driver/main.c:130-143 | one accepted byte can only leave a position behind the end if it completes a line on a full ring, and then exactly if some position is closer to the end of the data with the new line than the oldest line is long |
| Sessions.EvictionStrandsReader | aesd-char-driver/main.c:130-143 | a run from module load, of one file, after which one more write leaves its position behind the end of the data |
| Sessions.DrainYields | aesd-char-driver/main.c:53-92 | a run of reads with any buffer sizes yields the data from the position on without gap or repeat, exactly as far as the sizes reach |
| Sessions.DrainEnds | aesd-char-driver/main.c:53-92 | with positive sizes, as many reads as there are bytes left yield all of them |
| Bytes.StrchrExact | server/aesdsocket.c:218 | the string search finds a newline if and only if there is one with no NUL before it, and then the first |
| Bytes.NulFreeFinds | server/aesd_server_thrd.c:377-381 | in a chunk without NUL the string search finds a newline if and only if there is one |
| ThreadServer.Dump | server/aesd_server_thrd.c:346-361 | the read loop ends and sends exactly the data from the position to the end |
| ThreadServer.ProcessMessage | server/aesd_server_thrd.c:318-440 | a text chunk is written and, having no NUL, answered with all visible data if it holds a newline and else not at all; a seek command writes nothing and is answered with the data from its slot and offset on if the slot is used and the offset within it, else not at all |
| ThreadServer.Serve | server/aesd_server_thrd.c:242-266 | over a whole connection the device state depends only on the stream, and chunk by chunk each one without NUL is answered with the last ten lines of the stream so far if it holds a newline and else not at all |
| Registry.SlistHead.InsertHead | server/slist/queue.h:146-149 | the element comes first, the others follow as before |
| Registry.SlistHead.RemoveHead | server/slist/queue.h:156-158 | the first element is gone |
| Registry.SlistHead.Remove | server/slist/queue.h:165-176 | exactly the element is gone, its own link is untouched, the search ends |
| Registry.Threads.AddThread | server/aesd_server_thrd.c:268-274 | a new item for the thread comes first and the counter follows the length |
| Registry.Threads.Accept | server/aesd_server_thrd.c:167-188 | a thread that was created is listed, the data of one that was not is freed, then the list is filtered: all that had completed before the call is removed, and all that is removed had completed |
| Registry.Threads.DoMaintenance | server/aesd_server_thrd.c:277-295 | an order-keeping filter: all it removes had their flag up, all whose flag was up before are removed, joined and freed once, and the counter is the length modulo 2^32 |
| Registry.Threads.Shutdown | server/aesd_server_thrd.c:209-218 | every thread left is joined and all memory is freed |
| Registry.WithoutMembers | server/aesd_server_thrd.c:282-294 | the filtered list has exactly the members that are not gone |
| Registry.WithoutVisit | server/slist/queue.h:195-198 | visiting one item of the safe traversal takes out that item or none, and the next one is still the next |
| Lifetime.NextKeeps | server/aesd_server_thrd.c:144-295 | every step of the main thread or of any handler keeps the protocol's invariant |
| Lifetime.ConnectionScans | server/aesd_server_thrd.c:167-188 | a connection at the poll, in any reachable state: with a thread for it a new item comes first and the scan begins there, without one its data is freed and the scan begins with the old list |
| Lifetime.HandlerLife | server/aesd_server_thrd.c:242-266 | a handler reads while there is data, then closes, then raises its flag and then returns |
| Lifetime.JoinsOnlyCompleted | server/aesd_server_thrd.c:285-287 | in every run, maintenance joins only threads whose handler has raised its flag |
| Lifetime.MaintenanceReaps | server/aesd_server_thrd.c:277-295 | in every run, a handler that had raised its flag before a scan is joined, off the list and freed when that scan is over, whatever others do meanwhile |
| Lifetime.CanAlwaysExit | server/aesd_server_thrd.c:144-222 | there is no deadlock: every run can be carried on to the exit of the program |
| Lifetime.NoFault | server/aesd_server_thrd.c:144-295 | in every run no dead data or item is used, those that SLIST_REMOVE walks over included, nothing is freed twice, no thread is joined twice |
| Lifetime.TouchesLive | server/aesd_server_thrd.c:144-295 | in every run, what the main thread is about to use is allocated, and what it is about to free belongs to a thread that was joined or never created |
| Lifetime.DataOutlivesHandler | server/aesd_server_thrd.c:242-266 | data of a created thread is freed only after the join, so the handler's use after raising its flag sees live data |
| Lifetime.NothingLeaks | server/aesd_server_thrd.c:202-222 | on exit every ThreadData was freed exactly once and every thread joined |
| Lifetime.CounterIsLength | server/aesd_server_thrd.c:268-295 | whenever the main thread polls, the counter is the length of the list |
| Tailq.TailQueue.Init | server/slist/queue.h:448-451 | the queue is empty |
| Tailq.TailQueue.InsertHead | server/slist/queue.h:453-461 | the element comes first and all links are restored |
| Tailq.TailQueue.InsertBefore | server/slist/queue.h:463-468 | the element comes directly before the given one, without access to the head |
| Tailq.TailQueue.InsertAfter | server/slist/queue.h:470-479 | the element comes directly after the given one |
| Tailq.TailQueue.InsertTail | server/slist/queue.h:481-486 | the element comes last |
| Tailq.TailQueue.Concat | server/slist/queue.h:488-495 | the second queue's elements move behind the first's, and the second is empty; both are well linked |
| Tailq.TailQueue.Remove | server/slist/queue.h:497-504 | exactly the element is gone |
| Tailq.TailQueue.Replace | server/slist/queue.h:506-515 | the new element stands where the old one stood |
| Tailq.TailQueue.Swap | server/slist/queue.h:517-534 | the two queues exchange their elements, also when one or both are empty |
| Tailq.TailQueue.Last | server/slist/queue.h:541-542 | the pun on the head's layout yields the last element, or the end mark if there is none |
| Tailq.TailQueue.Prev | server/slist/queue.h:544-545 | the pun yields the previous element, or the end mark for the first |
| Tailq.TailQueue.ForeachReverse | server/slist/queue.h:559-562 | the traversal ends and visits the elements in reverse |
| Tailq.ReversedAt | server/slist/queue.h:559-562 | element k of the reverse is the k-th from the end |
| PollServer.Server.DumpFileToClient | server/aesdsocket.c:250-279 | the whole log is sent and the descriptor is back at its end |
| PollServer.Server.ProcessMessage | server/aesdsocket.c:209-248 | the recursion ends, the chunk is appended, position, file_size and log length agree, each newline found is answered with the log up to it, and nobody else is sent anything |
| PollServer.Server.Serve | server/aesdsocket.c:151-180 | for chunks of any number of open connections, the log is the chunks in order, and each connection gets the responses to its own chunks |
| Fragmentation.StrchrFirst | server/aesdsocket.c:218 | no newline comes before the one found, and none is missed in a chunk without a newline behind a NUL |
| Fragmentation.CleanEchoes | server/aesdsocket.c:209-248 | such a chunk is answered per newline with the log up to it, as the arriving bytes themselves demand |
| Fragmentation.FragmentationIndependent | server/aesdsocket.c:157-173 | every connection gets, per newline of its own, all bytes of all connections up to it, for every way to cut the arriving bytes into reads, if and only if no newline follows a NUL of the same connection within the reach of one read |
| PollTable.Table.Initialize | server/aesdsocket.c:90-97 | the listening socket is in slot 0 and all other slots are free |
| PollTable.Table.Accept | server/aesdsocket.c:123-144 | the connection takes the first free slot, maxi covers it, and a full table is recognised |
| PollTable.Table.Service | server/aesdsocket.c:151-180 | the countdown never skips a ready client: they are served in order, each once, up to the first failed read, closed ones are freed, the log gets their chunks in that order and each gets its own responses |
| PollTable.Table.Round | server/aesdsocket.c:104-181 | a whole round with an accept in front: a slot is served, in order, exactly if it has POLLIN or POLLERR set, no read of such a slot before it failed, and the table is not found full; the slot just filled is not read; closed and reset ones are freed and no others; log, responses and new connection are stated outright |
| PollTable.Table.Run | server/aesdsocket.c:104-182 | over any number of rounds and connections, accepts, disconnections and descriptors used again included, the log is what was read in service order and each connection was sent the responses to its own chunks; the order is that of rounds which poll all slots, without maxi and nready; the loop is left exactly if a connection finds the table full |
| PollRounds.ServedReady | server/aesdsocket.c:156 | only a slot with POLLIN or POLLERR set is served |
| PollRounds.ServedExact | server/aesdsocket.c:151-180 | a slot is served if and only if it has POLLIN or POLLERR set and no read of such a slot before it failed; slots are served in order, each once |
| PollRounds.RoundServes | server/aesdsocket.c:104-180 | the same for a round by what poll says of the open descriptors, and nobody is served when a connection finds no free slot |
| PollRounds.RoundSlots | server/aesdsocket.c:123-167 | after a round a slot is free if its client closed or reset, the first free slot holds the accepted connection, all others are as before |
| PollRounds.RunAnswers | server/aesdsocket.c:104-182 | over such a run, if no newline follows a NUL of the same connection within the reach of one read, every connection was sent per newline of its own all bytes of all connections up to it |

## Left out

- Module and cdev set-up, logging, sockets, daemonising, signal handlers and the shell and example programs: no property of their own.
- Torn reads by llseek and ioctl, which take no lock (aesd-char-driver/main.c:155, aesd-char-driver/main.c:193): each driver call is one atomic step. Waiting for the lock is not modelled, only its interruption.
- The allocator hands out fewer than 2^63 bytes at a time; an allocation of no bytes is an ordinary empty block.
- Negative file positions for llseek: positions start at 0 and every call keeps them from being negative, which Llseek requires.
- FindEntryOffset, Size and Seek on a ring whose stored sizes add up to 2^64 or more: they require the total to fit. At the driver this always holds.
- The threaded server with several connections at once: its log descriptor is one static variable that is used and reassigned outside the lock (server/aesd_server_thrd.c:313-314, server/aesd_server_thrd.c:334), the lock is kept when open fails (server/aesd_server_thrd.c:307-310) and it is destroyed before the handlers are joined (server/aesd_server_thrd.c:206).
- The threaded server's `file_size`, which is only logged, its timer, which is compiled out, failing opens, reads and sends, and the recognition of a seek command by sscanf, which is a parameter.
- Failing malloc in the threaded server, whose result it does not check.
- Registry.Threads.DoMaintenance: handlers appear only as flags that may rise between any two visits; their steps are in the lifetime model, where data, item and thread share one name that is never reused.
- Liveness of the servers: a join waits as long as a client stays connected. That a run can always end is proved (`CanAlwaysExit`), not that it does.
- The STAILQ macros, which are the tail queue without back links, and the LIST and CIRCLEQ macros: the repository uses none of them.
- Concat and Swap of a tail queue with itself, for which the macros are not meant.
- The poll server with a log that is not empty at the start, with short or failed writes, or with a log of 2^31 bytes, where its counter would overflow.
- The byte behind the read buffer that receives the terminator of a full read: a chunk is followed by a NUL wherever it ends.
- Polls that were interrupted and leave old revents: a round starts from a poll that reported.
