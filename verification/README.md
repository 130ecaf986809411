# Verification of the AESD character device and socket server

A Dafny model of three parts that work together: the ten-entry character device
(`aesd-char-driver/`), the socket server whose threads push lines through it
(`server/aesdsocket.c`, `server/read_line.c`), and the linked lists of
`server/queue.h` that the server keeps its connections in.

`dafny verify dfyconfig.toml` checks the whole project.

## Files

| file | content |
|---|---|
| Bytes.dfy | bytes, newlines, splitting a stream into lines |
| DeviceSpec.dfy | what the device promises, over whole write histories: log, window, reads, readers |
| CircularBuffer.dfy | the ring of ten slots: class `Ring`, the offset lookup with its size_t sum |
| Kernel.dfy | kmalloc, krealloc, kfree and memcpy on a heap of blocks |
| Ownership.dfy | who owns which block: a committed entry, the pending entry, or nobody |
| Positions.dfy | from a file position to the block and place that hold the byte |
| SlotBlocks.dfy | which blocks the ring slots hold |
| Device.dfy | class `AesdDevice`: write, read, cleanup |
| DeviceReader.dfy | a program that writes and reads, against the reader of the specification |
| LineReader.dfy | `read_line` over a descriptor, and framing of whole streams |
| Connection.dfy | file store and `handle_connection` for one connection, with every failure |
| EndToEnd.dfy | from the bytes of a socket to the entries of the device |
| Protocol.dfy | the connection threads as a transition system, with its invariant |
| ServerGuarantees.dfy | mutual exclusion, merge, replies |
| Progress.dfy | exactly when the threads can finish, and which runs end |
| SoloRun.dfy | the transition system and `handle_connection` agree for one client |
| TailQueue.dfy, ListQueue.dfy, SinglyTailQueue.dfy | TAILQ, LIST and STAILQ on heap cells |
| Threads.dfy | how a connection thread comes to its end, step by step |
| SweepPlan.dfy | what a sweep over the records has to do while threads step |
| Reaper.dfy | the accept and reap loop beside the stepping connection threads |

## How to read the model

- The device's specification is a `Log`: every command ever committed, and the bytes still waiting for a newline. The
  content is the concatenation of the last ten commits. The class `AesdDevice` keeps the log as a ghost field, and its
  invariant ties it to the ring slots, the pending entry and the kernel heap.
- What the code cannot decide itself is a parameter: `Env` (is the lock interrupted, do the allocations and user copies
  succeed, does a block grow in place, what does fresh memory hold), `Turn` (also the opens, sends and the termination
  flag), the events of a `Descriptor`, and in `Reaper` the steps the threads take before each record is looked at and
  during each join. Failure paths are modelled as the code has them.
- In `Threads` a thread goes through four stages: it runs, has set `thread_complete`, has read its record for the last
  time, has returned. Only steps of the thread move it on. Links, flags and records are accessed through methods that
  demand a record that is not freed, so every access of every run is shown to be to live memory.
- A tail queue head and a tail queue entry are the same class `Cell`; the address of a cell's `next` field is the cell.
  So `TAILQ_LAST(h)` is `h.prev.prev.next`, as the macro computes it, and so is `TAILQ_PREV(e)`.
- In `Protocol` a schedule is any sequence of thread steps; a step that is not enabled does nothing. `Init` takes, for
  each client, the frames that `read_line` makes of its stream. Writes, and in a read-back opens, reads and sends, may
  fail at any moment. A failed read that is taken for a byte count leads to a send of unknown bytes, which may fail or
  deliver `junk`; the thread then goes on as the code does. What a reply consists of is kept as `parts`, blocks of the
  device or junk.
- `interrupted` stands for a driver call that answers -ERESTARTSYS and is not restarted. Handlers installed with `signal`
  normally have such calls restarted, so a failing copy is the case to think of.

## Where the code does not keep a clean promise

- The running sum in the offset lookup is a size_t. The lookup is right for all offsets exactly when the total size of the
  entries fits (`LookupRightIffTotalFits`, with an example of failure in `LookupWrapExample`). With blocks of at most 2^60
  bytes it always fits.
- A failed krealloc forgets where the pending bytes are but keeps their count; the device is intact afterwards exactly
  when nothing was pending (`Device.AesdDevice.Write`). The next successful write then commits whatever fresh memory holds
  in place of the lost bytes; `LossExample` is such a run.
- Bytes behind the first newline of one write are dropped although the full count is returned. Nothing is dropped exactly
  when every write is free of newlines or one complete line (`NothingDroppedIff`); the write "a\nb" loses its "b"
  (`DroppedByteExample`). What `read_line` produces is never cut (`FramesHaveOneNewline`).
- The comment on `read_line` says the excess of an over-long line is discarded; the newline is discarded with it, so the
  line joins the next one in one entry (`OverlongLineJoinsNext`). The entries are the lines of the stream exactly when no
  complete line is longer than 65535 bytes (`EntriesAreLinesIffShort`). The comment does not mention that with a one-byte
  buffer the answer 0 no longer means end of file (`ReadLine`).
- A failed read in the read-back loop is taken for a huge count, because the count is unsigned. This happens exactly when
  the open succeeds and some read fails after nothing but delivered blocks (`ReadToDest`); `FailedCopyIsWild` gives one
  turn. A read that fails after a failed send does no such harm. The blocks of the device in a reply are one snapshot all
  the same (`ReplyIsSnapshot`), but other bytes are between them. If such sends keep succeeding the read-back does not
  end: a run that keeps going ends exactly when it has finitely many of them (`FinishesIffTame`, `EndlessExample`).
- A failed write leaves the file mutex locked (`StuckExample` reaches such a state). From then on nothing is ever written
  or answered (`StuckForever`). All threads can still finish exactly when no write has failed (`CanFinishIffNoneStuck`).
- The sweep after the accept loop reads a freed record exactly when the first record whose flag is set as the sweep gets to
  it also has its thread return during the join (`FinalSweep`). A flag that is clear when the sweep begins is no
  protection (`LateFlagExample`).
- Evicted entries are never freed; they are what stays allocated after cleanup (`Cleanup`, `BlocksOfCommits`).

## Model

| member | source | states |
|---|---|---|
| `DeviceSpec.WriteHistory` | aesd-char-driver/main.c:125-156 | for every write history on an empty device, the commits and the pending bytes are the newline split of the writes, each cut after its first newline and then concatenated |
| `DeviceSpec.ChunkingIsInvisible` | aesd-char-driver/main.c:125-156 | two histories leave the same log if and only if their cut streams are equal, however they were chunked |
| `DeviceSpec.WritesAreCommitsIffLines` | aesd-char-driver/main.c:133-156 | the commits are exactly the writes if and only if every write is one complete line |
| `DeviceSpec.NothingDroppedIff` | aesd-char-driver/main.c:125-156 | no byte of a write history is dropped if and only if every write is free of newlines or is one complete line |
| `DeviceSpec.UpToNewlineKeeps` | aesd-char-driver/main.c:125-133 | one write is kept whole if and only if it has no byte behind its first newline |
| `DeviceSpec.CutStreamLength` | aesd-char-driver/main.c:125-156 | what the device takes in is never longer than what was written |
| `DeviceSpec.DroppedByteExample` | aesd-char-driver/main.c:133-156 | the write "a\nb" commits "a\n" and loses "b" |
| `DeviceSpec.ContentIsSuffix` | aesd-char-driver/aesd-circular-buffer.c:62-76 | the readable content is everything ever committed without the evicted bytes at the front |
| `DeviceSpec.EvictionStep` | aesd-char-driver/aesd-circular-buffer.c:67-73 | a write evicts nothing, or exactly the oldest of ten entries |
| `DeviceSpec.ReadChunkBytes` | aesd-char-driver/main.c:76-90 | the bytes of one read are the content at the position, and none only at the end or for count 0 |
| `DeviceSpec.ReadChunkAt` | aesd-char-driver/main.c:82-90 | a read at byte o of entry k gives what is left of that entry, at most count bytes |
| `DeviceSpec.ShortReadEndsEntry` | aesd-char-driver/main.c:79-84 | a read shorter than asked ends exactly at the end of an entry |
| `DeviceSpec.ReadChunkIsStretch` | aesd-char-driver/main.c:76-90 | one read returns the stretch of the content at the position, empty only at the end or for count 0, and short only at the end of an entry |
| `DeviceSpec.DrainDeliversContent` | aesd-char-driver/main.c:76-90 | any positive read counts, at most one call per byte, deliver exactly the rest of the content, and then every read returns nothing |
| `DeviceSpec.ReadIsStretchOfAll` | aesd-char-driver/main.c:76-90 | a read at a position returns bytes of the stream of all commits, at that position moved on by the evicted bytes |
| `DeviceSpec.ReaderStepKeeps` | aesd-char-driver/main.c:76-90 | one more write or read keeps what is promised of a reader |
| `DeviceSpec.ReaderSeesTheStream` | aesd-char-driver/main.c:76-90 | over every mix of writes and reads each piece a reader gets is a true stretch of the stream of all commits, and between pieces it skips exactly the bytes evicted meanwhile |
| `DeviceSpec.ReadAdds` | aesd-char-driver/main.c:76-90 | over every mix of writes and reads, one more read delivers bytes exactly when the position is before the end and count is positive, and then min(count, rest of the entry) bytes of the entry at the position |
| `DeviceSpec.WriteAdds` | aesd-char-driver/main.c:125-156 | one more write adds to the log and leaves the reader where it is |
| `DeviceSpec.NoEvictionIsContiguous` | aesd-char-driver/main.c:76-90 | with no eviction during a run the reader's output is one contiguous stretch |
| `CircularBuffer.LookupWithoutWrap` | aesd-char-driver/aesd-circular-buffer.c:37-52 | when the sum fits, the lookup answers the unique entry and offset of the byte, and NULL exactly past the end |
| `CircularBuffer.LookupWrongAtOverflow` | aesd-char-driver/aesd-circular-buffer.c:45-50 | when the total overflows, an offset that the lookup gets wrong, constructed from the first entry whose sum wraps |
| `CircularBuffer.LookupRightIffTotalFits` | aesd-char-driver/aesd-circular-buffer.c:37-52 | the lookup is right for every offset if and only if the total size is below 2^64 |
| `CircularBuffer.LookupWrapExample` | aesd-char-driver/aesd-circular-buffer.c:45-50 | a concrete ring where the wrapped sum makes the lookup deny an existing byte |
| `CircularBuffer.PositionUnique` | aesd-char-driver/aesd-circular-buffer.c:20-29 | an offset is in at most one entry, at one place |
| `CircularBuffer.RotatedIsLive` | aesd-char-driver/aesd-circular-buffer.c:41-43 | walking all ten slots from the oldest gives the last ten adds and then only empty slots |
| `CircularBuffer.RingLookup` | aesd-char-driver/aesd-circular-buffer.c:41-52 | searching all ten slots, used or not, is searching the last ten adds |
| `CircularBuffer.SlotsShift` | aesd-char-driver/aesd-circular-buffer.c:67-73 | overwriting the oldest slot and moving the start on drops the oldest entry and appends the new one |
| `CircularBuffer.AddWhenFull` | aesd-char-driver/aesd-circular-buffer.c:67-73 | an add to a full ring replaces the oldest entry and keeps offsets, flag and order right |
| `CircularBuffer.AddWhenNotFull` | aesd-char-driver/aesd-circular-buffer.c:67-73 | an add to a ring with room keeps offsets, flag, order and the empty slots right |
| `CircularBuffer.Ring.constructor` | aesd-char-driver/aesd-circular-buffer.c:81-84 | the zeroed ring represents no adds |
| `CircularBuffer.Ring.AddEntry` | aesd-char-driver/aesd-circular-buffer.c:62-76 | after n adds the write offset is n mod 10, the read offset max(0, n-10) mod 10, the ring full exactly when n >= 10, the slots hold the last ten adds in order, and unused slots are empty |
| `CircularBuffer.Ring.FindEntryOffset` | aesd-char-driver/aesd-circular-buffer.c:30-53 | the loop answers what the search of the slots in read order answers, wrapping size_t included |
| `SlotBlocks.RingDetermined` | aesd-char-driver/aesd-circular-buffer.c:62-84 | the history of adds determines all slots, both offsets and the flag |
| `Kernel.Heap.Krealloc` | aesd-char-driver/main.c:134-138 | the contents are kept in the same block or move to a fresh one, a refusal keeps the old block, zero bytes free it |
| `Kernel.Heap.Kmalloc` | aesd-char-driver/main.c:114-118 | a fresh block or NULL; zero bytes give a marker that is not NULL |
| `Kernel.Heap.Kfree` | aesd-char-driver/main.c:160 | frees exactly one allocated block |
| `Kernel.Heap.Memcpy` | aesd-char-driver/main.c:139 | overwrites a stretch that lies inside the block, nothing else |
| `Kernel.Heap.CopyFromUser` | aesd-char-driver/main.c:120-123 | fills the temporary buffer with the user's bytes |
| `Kernel.Heap.GrowBlock` | aesd-char-driver/main.c:134-140 | on success the block, in place or fresh, holds the old bytes followed by the new ones; on failure nothing is freed |
| `Ownership.BuffersDistinct` | aesd-char-driver/main.c:134-155 | no two entries, and no entry and the pending one, share a buffer |
| `Ownership.BlocksOfCommits` | aesd-char-driver/main.c:153-155 | the first m commits account for exactly m allocated blocks |
| `Ownership.BorrowKeeps` | aesd-char-driver/main.c:114-118 | a temporary buffer has no owner and leaves all others alone |
| `Ownership.RefillKeeps` | aesd-char-driver/main.c:120-123 | filling the temporary buffer changes no byte that has an owner |
| `Ownership.ReturnKeeps` | aesd-char-driver/main.c:160 | freeing the temporary buffer frees nothing else |
| `Ownership.LossKeeps` | aesd-char-driver/main.c:134-138 | after a refused krealloc every block still has one owner, the old pending block being lost |
| `Ownership.MoveKeeps` | aesd-char-driver/main.c:134-140 | after the pending entry has grown, in place or into a fresh block, every block has one owner |
| `Ownership.CommitKeeps` | aesd-char-driver/main.c:153-155 | after a commit every block has one owner and the commit is stored byte for byte |
| `Positions.LookupServesRead` | aesd-char-driver/main.c:76-84 | the ring lookup finds, for every offset, the buffer and place that hold the bytes a read has to return, and NULL exactly past the end of the content |
| `Positions.LiveFits` | aesd-char-driver/aesd-circular-buffer.c:37-50 | with the allocator's block limit the sizes of the readable entries never wrap and add up to the content |
| `SlotBlocks.SlotIsFirst` | aesd-char-driver/main.c:233-237 | a block found in a slot is in no earlier slot, so no kfree of the loop hits a freed block |
| `SlotBlocks.SlotsAreLive` | aesd-char-driver/main.c:233-237 | the blocks in the slots are those of the last ten commits |
| `Device.AesdDevice.constructor` | aesd-char-driver/main.c:199-209 | the initial device is consistent, empty and owns nothing |
| `Device.AesdDevice.Grow` | aesd-char-driver/main.c:134-140 | the pending entry grows by a piece, or loses its pointer and keeps its size |
| `Device.AesdDevice.CommitPending` | aesd-char-driver/main.c:153-155 | the pending entry becomes the newest commit, its block changes owner, and a new empty entry begins |
| `Device.AesdDevice.Accept` | aesd-char-driver/main.c:125-156 | the pending bytes plus the piece up to the first newline are committed if there is one, else stay pending; on failure the log is untouched |
| `Device.AesdDevice.Transfer` | aesd-char-driver/main.c:120-160 | the temporary buffer is filled, used and freed, whether or not the write succeeds |
| `Device.AesdDevice.Write` | aesd-char-driver/main.c:97-164 | each return code, by its number, and its exact condition, the new log, that only a failed krealloc loses a block and only the pending one, when the device stays intact, and that with willing calls up to 1 GiB pending is taken |
| `Device.LossExample` | aesd-char-driver/main.c:134-140 | a run in which the byte "a" is lost to a refused krealloc: the next newline commits what fresh memory held, and a block has no owner |
| `DeviceReader.Follow` | aesd-char-driver/main.c:57-164 | aesd_write and aesd_read called in any mix leave the log and the position, and give the bytes, of the reader of the specification |
| `DeviceReader.DoWrite` | aesd-char-driver/main.c:97-164 | a write whose calls succeed adds to the log |
| `DeviceReader.DoRead` | aesd-char-driver/main.c:57-95 | a read whose calls succeed gives the bytes at the position and moves it on |
| `Device.AesdDevice.Read` | aesd-char-driver/main.c:57-95 | each return code, and on success the bytes of the content at the position, and the new position |
| `Device.AesdDevice.Cleanup` | aesd-char-driver/main.c:227-237 | every kfree frees an allocated block; what remains allocated is exactly the evicted commits and the lost blocks |
| `Device.NewlineSearch` | aesd-char-driver/main.c:125-131 | the position of the first newline, or -1 exactly when there is none |
| `LineReader.Descriptor.Read` | server/read_line.c:44 | one byte, end of file, an interruption or an error |
| `LineReader.Keep` | server/read_line.c:59-62 | a byte is stored exactly when fewer than n-1 bytes are |
| `LineReader.StoreLine` | server/read_line.c:42-70 | the loop stores the cut line and leaves the rest of the stream |
| `LineReader.ReadLine` | server/read_line.c:27-71 | -1 exactly when an error other than an interruption comes before the first newline, or for bad arguments; else the length of the first line, at most n-1, its bytes in the buffer, a terminator behind them and the rest of the buffer alone; 0 exactly at the end of the stream when n is at least 2; what is read is exactly the stream through the first newline or error |
| `LineReader.InterruptsInvisible` | server/read_line.c:46-50 | where reads are interrupted changes neither the line, nor how it ends, nor what is left |
| `LineReader.FramesIgnoreInterrupts` | server/read_line.c:46-50 | nor does it change the results of all successive calls |
| `LineReader.RawLineOfPayload` | server/read_line.c:43-67 | one call consumes the stream exactly through its first newline |
| `LineReader.FramesAreCutPieces` | server/read_line.c:43-70 | successive calls return the stream's lines in order, each cut to n-1 bytes |
| `LineReader.StoredIsAnswer` | server/read_line.c:43-70 | return value and buffer in terms of the bytes that come in, for every n |
| `LineReader.RawLineIs` | server/read_line.c:43-67 | the line is the bytes through the first newline, and it ends in an error exactly when one comes first |
| `LineReader.RawLineReads` | server/read_line.c:43-67 | a call reads the stream exactly through the first newline or error |
| `LineReader.FramesLosslessIffShort` | server/read_line.c:59-62 | the results put together are the stream if and only if no line is longer than n-1 bytes |
| `LineReader.FramesHaveOneNewline` | server/read_line.c:59-65 | no result has a newline before its last byte |
| `Connection.ChunkExtends` | server/aesdsocket.c:192 | each read-back block continues the previous ones, and is empty only when all content was read |
| `Connection.BlockOfEntry` | server/aesdsocket.c:192 | a block is what is left of the entry at the position, at most 1024 bytes |
| `Connection.StopDecides` | server/aesdsocket.c:192-202 | the first block that is not delivered decides how a read-back ends |
| `Connection.ReadBackEnds` | server/aesdsocket.c:192-202 | the three exits of the loop and what each means for the blocks before it |
| `Connection.WellMeans` | server/aesdsocket.c:192-198 | when everything is delivered no read of a block and no send has failed |
| `Connection.WildMeans` | server/aesdsocket.c:192-194 | when an error is sent as a count that read failed, and no read or send before it |
| `Connection.FailedCopyIsWild` | server/aesdsocket.c:192-194 | a turn whose first copy to the user fails has its error taken for a count as soon as the device holds a byte |
| `Connection.GoodReadBack` | server/aesdsocket.c:192-198 | when no read and no send fails, the read-back comes to the end of the content |
| `Connection.Filestore.Write` | server/aesdsocket.c:149-173 | succeeds exactly when open, copy and allocations do; the log then has the write, else the mutex stays locked |
| `Connection.Filestore.ReadBlock` | server/aesdsocket.c:192 | one read: an error exactly when interrupted or when there are bytes and the copy fails; 0 exactly at the end; else the next bytes of the content |
| `Connection.Filestore.SendContent` | server/aesdsocket.c:192-202 | the loop: what is sent is exactly the blocks before the first that is not delivered; wild if and only if some read fails after delivered blocks only; 0 if and only if everything is delivered |
| `Connection.Filestore.ReadToDest` | server/aesdsocket.c:175-212 | the same under the mutex, with the failing open: exact conditions for a wild send and for the result 0; the mutex is kept exactly when wild |
| `Connection.ServeLine` | server/aesdsocket.c:232-240 | stuck exactly when the write fails, and then the log is unchanged; else the line is written and the read-back ends exactly as its reads and sends decide |
| `Connection.ServedIsJustified` | server/aesdsocket.c:229-240 | line by line, why a connection serves as many lines as it does: every line before the last was written and read back whole, and the exit has its reason in the call that ended the loop |
| `Connection.AllServed` | server/aesdsocket.c:229-240 | when nothing fails every frame is served |
| `Connection.ServingStep` | server/aesdsocket.c:229-240 | one line further, the outcome is decided by the lines still to come, or by a read-back that failed |
| `Connection.ServingEnds` | server/aesdsocket.c:229-240 | each way out of the loop is the outcome that opens, writes, reads and sends decide |
| `Connection.ServeNext` | server/aesdsocket.c:229-240 | one turn of the loop, as progress towards that outcome |
| `Connection.NextLine` | server/aesdsocket.c:229 | the next frame of the stream, or none left |
| `Connection.HandleConnection` | server/aesdsocket.c:216-254 | with the buffer of 65536 bytes, exactly which frames reach the device and how the connection ends, from the outcomes of all calls; each reply is the content just after its line, the last one a front of it if its read-back failed |
| `EndToEnd.CommitsOfStream` | server/aesdsocket.c:229-240 | from an empty device and for every stream, commits and pending bytes are the newline split of the stream with each line cut to 65535 bytes |
| `EndToEnd.CutLinesCount` | server/read_line.c:59-65 | of lines that are cut and put together as many lines are left as there were short ones |
| `EndToEnd.KeptLines` | server/read_line.c:59-65 | what follows the last newline of a stream does not change its entries |
| `EndToEnd.EntriesAreLinesIffShort` | server/aesdsocket.c:229-240 | the entries of the device are the complete lines of the stream if and only if each of these has at most 65535 bytes |
| `EndToEnd.FramesAreLinesIff` | server/aesdsocket.c:229-240 | the frames of a stream are its lines if and only if it consists of complete lines of at most 65535 bytes, and then they are committed line for line |
| `EndToEnd.OverlongLineJoinsNext` | server/read_line.c:59-65 | a stream of an over-long line and a short one becomes one entry, the cut line and the short one |
| `EndToEnd.OverlongLineIsCut` | server/read_line.c:59-65 | of a line longer than 65535 bytes the first 65535 are written, and nothing is committed |
| `Protocol.OthersAfterWrite` | server/aesdsocket.c:149-173 | a write by one thread disturbs no other thread that is not reading back |
| `Protocol.WireWithoutJunk` | server/aesdsocket.c:194 | without a wild send everything sent is blocks of the device |
| `Protocol.OwnWrite` | server/aesdsocket.c:158-164 | a write moves one frame from to-do to written and records its place |
| `Protocol.OwnRead` | server/aesdsocket.c:192-198 | a read-back block extends the snapshot already read |
| `Protocol.OwnSend` | server/aesdsocket.c:194-197 | a send that succeeds extends the delivered front of the snapshot |
| `Protocol.OwnLock` | aesd-char-driver/main.c:72-92 | taking and giving back the device lock changes nothing that was read or delivered |
| `Protocol.OwnReply` | server/aesdsocket.c:203-211 | a finished read-back is the whole content at the moment the mutex was taken |
| `Protocol.OwnFailure` | server/aesdsocket.c:186-202 | a failing open, read or send in a read-back, and a wild send, leave a thread with its earlier replies and with blocks that are a front of the snapshot |
| `Protocol.OwnStep` | server/aesdsocket.c:149-241 | every step of a thread but the write of a line keeps what is promised of it |
| `Protocol.StepKeepsLocks` | server/aesdsocket.c:152-169 | every step keeps lock ownership in agreement with every thread's program counter |
| `Protocol.StepKeepsInv` | server/aesdsocket.c:149-241 | every enabled step, failing writes, opens, reads and sends and wild sends included, keeps the invariant of all threads |
| `Protocol.RunKeepsInv` | server/aesdsocket.c:149-241 | every schedule of any number of clients, with any failures, stays inside the invariant |
| `ServerGuarantees.MutualExclusion` | server/aesdsocket.c:152-203 | in every reachable state each lock has one holder at most, and the device lock is held only under the file mutex |
| `ServerGuarantees.ByIndex` | server/aesdsocket.c:161 | each write has its place among the writes of its thread |
| `ServerGuarantees.PlaceOfWrite` | server/aesdsocket.c:229-232 | every write is a frame of its thread |
| `ServerGuarantees.LinesAreCommitted` | server/aesdsocket.c:149-241 | when all frames are lines, the log of a safe state is the writes, and nothing is pending |
| `ServerGuarantees.OrderPreservingMerge` | server/aesdsocket.c:149-241 | in every run each thread's writes are its frames in order, none lost or repeated; commits equal writes exactly when all are complete lines |
| `ServerGuarantees.CommitsOfAnyStreams` | server/aesdsocket.c:229-240 | for any streams of any number of clients and every run, commits and pending bytes are the newline split of the written frames |
| `ServerGuarantees.ClientLinesMerge` | server/aesdsocket.c:229-240 | for clients sending complete lines of at most 65535 bytes the commits of every run are an order-preserving merge of the lines of their streams, each whole |
| `ServerGuarantees.ReplyIsSnapshot` | server/aesdsocket.c:175-241 | the blocks in each reply are the whole content at one moment, after the client's own write and before its next; without a wild send they are all that was sent |
| `ServerGuarantees.ReplyHoldsOwnLine` | server/aesdsocket.c:175-241 | a reply is the last ten lines at its moment, and holds the client's own line exactly when at most nine lines were committed in between |
| `ServerGuarantees.SnapshotOfLines` | aesd-char-driver/aesd-circular-buffer.c:62-76 | the content after a sequence of lines, split around any one of the last ten |
| `ServerGuarantees.SendsGoOut` | server/aesdsocket.c:194 | a send that succeeds puts its bytes on the wire, block or junk, and changes nothing else |
| `ServerGuarantees.FailedForGood` | server/aesdsocket.c:229-240 | a thread whose read-back failed writes no further line and gives no further reply |
| `ServerGuarantees.FailureEndsService` | server/aesdsocket.c:186-240 | after a failed open or send, of a block or of junk, the line in hand stays the last of its thread, and unanswered |
| `Progress.SomeoneCanStep` | server/aesdsocket.c:152-203 | no deadlock: with no failed write, unless all threads have finished, one can take a step in which nothing fails |
| `Progress.FailureUsesUpWork` | server/aesdsocket.c:186-202 | a failing call brings its thread closer to its end too |
| `Progress.DrainStepKeeps` | server/aesdsocket.c:181-203 | during a read-back the thread keeps the mutex and the content stays as it is |
| `Progress.StepUsesUpWork` | server/aesdsocket.c:216-241 | every step but a wild read lowers a well-founded measure of the work left |
| `Progress.TameScheduleFinishes` | server/aesdsocket.c:192-241 | no infinite run: a schedule that keeps going and has no wild reads from some point on brings all threads to their end |
| `Progress.FinishedIsTame` | server/aesdsocket.c:192-241 | when all threads have finished no read can fail any more |
| `Progress.FinishesIffTame` | server/aesdsocket.c:192-241 | a schedule that keeps going finishes if and only if it has finitely many reads that fail and are taken for a count |
| `Progress.EndlessExample` | server/aesdsocket.c:192-198 | a run of one client that keeps going and never ends |
| `Progress.FailuresPossible` | server/aesdsocket.c:186-194 | a run in which open, read and send of a read-back can fail |
| `Progress.CanFinish` | server/aesdsocket.c:216-241 | from any safe state some schedule finishes all threads |
| `Progress.StuckForever` | server/aesdsocket.c:161-164 | after a failed write the mutex is never released, and nothing is written or answered again |
| `Progress.StuckExample` | server/aesdsocket.c:161-164 | a schedule of one client that reaches a stuck state |
| `Progress.CanFinishIffNoneStuck` | server/aesdsocket.c:161-164 | in a reachable state all threads can still finish if and only if no write has failed |
| `SoloRun.SmoothRun` | server/aesdsocket.c:216-241 | in a run without failures no thread fails, aborts or sends junk |
| `SoloRun.SoloReply` | server/aesdsocket.c:229-240 | reply k of a lone client is the content just after its line k |
| `SoloRun.SoloOutcome` | server/aesdsocket.c:216-241 | every run of one client without failures that comes to its end writes its frames and answers each with the content just after it |
| `SoloRun.SameAsRun` | server/aesdsocket.c:216-254 | `handle_connection` with nothing failing leaves the log and gives the replies of every such run |
| `TailQueue.SplicedIn` | server/queue.h:696-742 | linking a cell in with four pointers gives the chain with the cell inserted |
| `TailQueue.SplicedOut` | server/queue.h:752-768 | bypassing a cell with two pointers gives the chain without it |
| `TailQueue.TailqInit` | server/queue.h:690-694 | the empty queue |
| `TailQueue.InsertHead` | server/queue.h:721-732 | prepends, touching the head, the cell and the old first element only |
| `TailQueue.InsertTail` | server/queue.h:734-742 | appends, touching the head, the cell and the old last cell only |
| `TailQueue.InsertAfter` | server/queue.h:696-709 | inserts behind the element |
| `TailQueue.InsertBefore` | server/queue.h:711-719 | inserts in front of the element, without knowing the head |
| `TailQueue.Remove` | server/queue.h:752-768 | removes exactly that element |
| `TailQueue.Joined` | server/queue.h:635-644 | the elements of a second queue linked behind a first continue it |
| `TailQueue.Concat` | server/queue.h:635-644 | appends the second queue and leaves it empty |
| `TailQueue.NewHead` | server/queue.h:770-785 | the elements of a queue under another head |
| `TailQueue.Swap` | server/queue.h:770-785 | exchanges two queues, empty ones included |
| `TailQueue.Foreach` | server/queue.h:650-653 | the forward walk visits the elements in order |
| `TailQueue.LastAndPrev` | server/queue.h:744-750 | reading a cell as a head leads to the last element, to the predecessor, or to NULL |
| `TailQueue.ForeachReverse` | server/queue.h:670-673 | the backward walk visits the elements in reverse and stops |
| `TailQueue.ReverseAt` | server/queue.h:670-673 | what reverse order means, position by position |
| `TailQueue.InsertThenRemove` | server/queue.h:696-768 | removing what any of the four insertions put into any queue, the empty one included, restores every link and the last pointer |
| `TailQueue.InitAll` | server/queue.h:690-694 | any number of empty queues |
| `TailQueue.SeparateAfterEdit` | server/queue.h:696-768 | an operation on one queue keeps all queues disjoint |
| `TailQueue.SeparateAfterShare` | server/queue.h:635-785 | concatenating or swapping two queues keeps all queues disjoint |
| `TailQueue.MeaningOnOne` | server/queue.h:690-768 | what each operation on one queue does to its elements, place by place; all other queues stay |
| `TailQueue.MeaningOnTwo` | server/queue.h:635-785 | what concatenation and swap do, place by place; all other queues stay |
| `TailQueue.PerformOnOne` | server/queue.h:690-768 | an operation on one queue has its meaning on sequences |
| `TailQueue.PerformOnTwo` | server/queue.h:635-785 | so have concatenation and swap |
| `TailQueue.Perform` | server/queue.h:635-785 | among any number of queues an operation changes the queues it names as on sequences, and no other |
| `TailQueue.RunGoesOn` | server/queue.h:635-785 | a run with one more operation has the meaning of the run and then of the operation |
| `TailQueue.Execute` | server/queue.h:635-785 | every sequence of operations on any number of queues has its meaning on sequences |
| `TailQueue.WalksAfterRun` | server/queue.h:635-785 | after any such run the backward walk is the forward walk reversed |
| `ListQueue.ListSplicedIn` | server/queue.h:512-535 | linking a cell into a list gives the list with it inserted, back links included |
| `ListQueue.ListSplicedOut` | server/queue.h:544-555 | bypassing a cell gives the list without it |
| `ListQueue.ListInit` | server/queue.h:508-510 | the empty list |
| `ListQueue.ListInsertHead` | server/queue.h:529-535 | prepends |
| `ListQueue.ListInsertAfter` | server/queue.h:512-519 | inserts behind the element |
| `ListQueue.ListInsertBefore` | server/queue.h:521-527 | inserts in front of the element |
| `ListQueue.ListRemove` | server/queue.h:544-555 | removes exactly that element, touching its two neighbours only |
| `ListQueue.ListInsert` | server/queue.h:512-535 | each of the three insertions puts the cell where it says |
| `ListQueue.ListInsertThenRemove` | server/queue.h:512-555 | removing what any of the three insertions put into any list, the empty one included, restores every link |
| `ListQueue.ListJoined` | server/queue.h:467-482 | the elements of a second list linked behind a first continue it |
| `ListQueue.ListConcat` | server/queue.h:467-482 | walks to the end, appends the second list and leaves it empty |
| `ListQueue.ListNewHead` | server/queue.h:557-565 | the elements of a list under another head |
| `ListQueue.ListSwap` | server/queue.h:557-565 | exchanges two lists |
| `SinglyTailQueue.SingleSplicedIn` | server/queue.h:345-361 | linking a cell in gives the chain with it inserted, the last pointer included |
| `SinglyTailQueue.SingleSplicedOut` | server/queue.h:370-394 | bypassing a cell gives the chain without it |
| `SinglyTailQueue.StailqInit` | server/queue.h:340-343 | the empty queue |
| `SinglyTailQueue.StailqInsertHead` | server/queue.h:351-355 | prepends, repairing the last pointer of an empty queue |
| `SinglyTailQueue.StailqInsertTail` | server/queue.h:357-361 | appends in one step |
| `SinglyTailQueue.StailqInsertAfter` | server/queue.h:345-349 | inserts behind the element |
| `SinglyTailQueue.StailqRemoveHead` | server/queue.h:390-394 | drops the first element |
| `SinglyTailQueue.StailqRemoveAfter` | server/queue.h:384-388 | drops the successor of an element |
| `SinglyTailQueue.StailqRemove` | server/queue.h:370-382 | walks to the predecessor and removes exactly that element, first, middle or last |
| `SinglyTailQueue.StailqLast` | server/queue.h:363-366 | the last element, NULL exactly for the empty queue |
| `SinglyTailQueue.StailqForeach` | server/queue.h:320-323 | the walk visits the elements in order |
| `SinglyTailQueue.SingleJoined` | server/queue.h:308-314 | the elements of a second queue linked behind a first continue it |
| `SinglyTailQueue.StailqConcat` | server/queue.h:308-314 | appends the second queue and leaves it empty |
| `SinglyTailQueue.SingleNewHead` | server/queue.h:396-407 | the elements of a queue under another head |
| `SinglyTailQueue.StailqSwap` | server/queue.h:396-407 | exchanges two queues, empty ones included |
| `SinglyTailQueue.StailqInsert` | server/queue.h:345-361 | each of the three insertions puts the cell where it says |
| `SinglyTailQueue.StailqInsertThenRemove` | server/queue.h:345-394 | the walking removal undoes any of the three insertions into any queue, the empty one included: every link and the last pointer |
| `Reaper.Acceptor.constructor` | server/aesdsocket.c:314-316 | no connections |
| `Threads.MovedAllIsLater` | server/aesdsocket.c:248-253 | however threads step, flags stay set and returned threads stay returned |
| `Threads.TouchesIff` | server/aesdsocket.c:221-251 | a thread touches its record while it works, when it sets the flag and when it logs, and not after that |
| `Threads.FlagIff` | server/aesdsocket.c:249 | a flag is set exactly when it was, or when its thread has come to the step that sets it |
| `Threads.ReturnedIff` | server/aesdsocket.c:249-253 | a running thread has returned exactly when it has set its flag, later logged, and later come to its end |
| `Reaper.BookedAccept` | server/aesdsocket.c:455-462 | accepting keeps the books: the list is what was accepted and not freed, newest first, and only records of returned threads are freed |
| `Reaper.BookedReap` | server/aesdsocket.c:476-477 | so does reaping a record whose thread has returned |
| `Reaper.UnreturnedAreListed` | server/aesdsocket.c:457-477 | a record whose thread has not returned is in the list and not freed |
| `Reaper.Acceptor.ThreadStep` | server/aesdsocket.c:248-253 | a step of a thread, at any moment of any run, touches no freed record and moves no other thread; the thread of a freed record takes no step |
| `Reaper.Acceptor.ThreadSteps` | server/aesdsocket.c:248-253 | so do any number of steps of any threads |
| `Reaper.Acceptor.LinkFirst` | server/queue.h:529-535 | LIST_INSERT_HEAD, with the demand that the record it writes into is not freed |
| `Reaper.Acceptor.AcceptConnection` | server/aesdsocket.c:455-462 | a new record, inserted once, at the front |
| `Reaper.Acceptor.Unlink` | server/queue.h:544-555 | LIST_REMOVE, with the demand that neither the record nor its neighbours are freed |
| `Reaper.Acceptor.Reap` | server/aesdsocket.c:476-477 | a record whose thread has returned is unlinked and freed, once, and the list stays well formed |
| `Reaper.Acceptor.Join` | server/aesdsocket.c:473-477 | the thread was started and not joined before; while the join waits threads step; the record is reaped exactly when its own thread returns, else the join stays blocked and nothing is freed |
| `Reaper.Acceptor.Visit` | server/aesdsocket.c:471-479 | the successor is fetched first; the flag as it is when read decides on the join; only this record can go |
| `Reaper.Acceptor.NothingFreedNearby` | server/queue.h:544-555 | the cells that unlinking touches are not freed |
| `SweepPlan.SweepStep` | server/aesdsocket.c:471-479 | one record further, the list and the freed records are what the flags found so far decide |
| `SweepPlan.SweepEnds` | server/aesdsocket.c:471-479 | a sweep that comes to the end has freed exactly the records found flagged, among them all flagged at its start, and each has a thread that returned |
| `SweepPlan.SweepBlocks` | server/aesdsocket.c:473 | a sweep that waits in vain has freed exactly the records found flagged before that |
| `SweepPlan.TakenMembers` | server/aesdsocket.c:471-477 | a record is taken out exactly when it is one of the list and found flagged |
| `SweepPlan.NoneWaitsMeans` | server/aesdsocket.c:473 | none waited for in vain means none of the records so far |
| `Reaper.Acceptor.VisitNext` | server/aesdsocket.c:471-479 | one turn of the sweep keeps the state of the sweep, or ends it blocked |
| `Reaper.Acceptor.Visits` | server/queue.h:498-501 | the loop of LIST_FOREACH_SAFE brings the sweep to its result |
| `Reaper.Acceptor.Sweep` | server/aesdsocket.c:469-479 | for every interleaving with the threads: blocked if and only if some record is found flagged at its visit and its thread does not return during the join; freed are exactly the records found flagged up to there; the survivors keep their order; the stages are those after exactly the steps taken |
| `Reaper.Acceptor.Turn` | server/aesdsocket.c:447-480 | one turn of the loop: a new record exactly for a new connection, then such a sweep |
| `Reaper.AcceptedCount` | server/aesdsocket.c:450-457 | as many records are accepted as connections came in |
| `Reaper.Acceptor.Rounds` | server/aesdsocket.c:447-480 | the rounds follow each other and only the last may block |
| `SweepPlan.NewestFirstWithout` | server/aesdsocket.c:457-477 | removing records from the newest-first list is the newest-first list without them |
| `SweepPlan.NewestFirstMembers` | server/aesdsocket.c:457-477 | the newest-first list has exactly the accepted records that are not gone |
| `SweepPlan.FoundIff` | server/aesdsocket.c:471-472 | which flags a sweep finds: those set at its start, those set before the record or an earlier one is looked at, and those set during the join for an earlier flagged record |
| `SweepPlan.WalkEnds` | server/aesdsocket.c:488-494 | how a walk that cannot survive a removal ends at the first record found flagged |
| `SweepPlan.WithoutMembers` | server/aesdsocket.c:471-479 | the survivors of a sweep are exactly the records it did not take |
| `Reaper.Acceptor.Run` | server/aesdsocket.c:447-480 | over every run, round by round: each does what its accept call and the threads decide; it stops if and only if a sweep blocks; the list is the accepted and not yet freed records, newest first; a record whose thread has not returned is in the list and not freed |
| `Reaper.Acceptor.EndWalk` | server/aesdsocket.c:489-494 | the first record found flagged ends the walk: blocked, or freed and then read |
| `Reaper.Acceptor.FinalSweep` | server/aesdsocket.c:486-499 | for every interleaving: the sweep reads a freed record if and only if the first record found flagged also has its thread return during the join, and then exactly that record is freed; it blocks if and only if that thread does not return; else nothing changes |
| `SweepPlan.FirstFoundUnique` | server/aesdsocket.c:488-489 | at most one record is the first found flagged |
| `SweepPlan.LateFlagExample` | server/aesdsocket.c:488-494 | a flag that is clear when the sweep begins is found set, and its thread returns during the join |

## Left out

- SLIST macros: they would add only the links of STAILQ without its last pointer. Of the loop macros the FROM variants, and
  SAFE ones other than LIST_FOREACH_SAFE.
- The debug and consistency checks of queue.h (QMD_*, TRASHIT, TRACEBUF): compiled to nothing in this build.
- Module registration, open and release of the device, and the seek calls on it: no logic of their own.
- Sockets, daemon mode, option parsing, signals as such: accept outcomes, delivered bytes and the termination flag are
  parameters; a send that succeeds delivers everything.
- The variant without `USE_AESD_CHAR_DEVICE` (regular file and timer thread): not the built configuration.
- Error returns of the pthread mutex calls, and the data race on `thread_complete`: a flag is seen once it is set.
- Reaper.Acceptor.Join: the error returns of pthread_join; they are for threads that do not exist or were joined before,
  and a flagged record has a thread that was started and not joined, as the contract says.
- Reaper.Acceptor.FinalSweep: ends at the first access to a freed record, since nothing is defined from there.
- Connection.Filestore.SendContent: stops at the first failed read that is taken for a count, since the loop need not end
  from there; `Protocol` goes on.
- Protocol.StepKeepsInv: a driver call that fails for want of memory is a failing write, whatever it does to the pending
  entry; as no write follows it, the log is not affected.
- Device.AesdDevice.Read: file positions are taken as unsigned 64-bit values; the debug print of an entry as a C string is
  not modelled.
- CircularBuffer.Ring.FindEntryOffset: the check for NULL arguments is not modelled; references here are never null.
- Device.NewlineSearch: the int loop counter is unbounded here; the kernel caps a write below 2^31 bytes.
