# AESD character device, queue macros and client threads: a Dafny model

The project models three components and proves what they keep over whole runs.

**The character device** (`aesd-char-driver`). `CircularBuffer.Ring` has the ten slots, the two
indices and the `full` flag of the C structure and is updated in place. `CharDevice.Device` holds the
ring, the cache entry and `buffer_size`; `SlabAllocator.Slab` is the kernel allocator as a map from
addresses to block contents, so a double free or a use of a freed block is a failed precondition.
The specification is a `Stream`: the commands committed so far and the bytes that wait for a newline.
The ring's live contents are `Window(commands)`, the newest ten; the file is their concatenation.
`FlatFile` gives the position search in the C code's own integer widths (a 32-bit running total, a
16-bit result) beside the search the header describes. `DeviceRuns` runs writers and a reader
together on the specification, and `DeviceClients` carries those results over to a `Device`, through
calls of `Write` and `Read` with any addresses the allocator may answer.

**The list macros** (`server/queue.h`). One class `Link` stands for heads and elements: `next` is the
first field of either and `prev` the second, the address of a `next` field is the object itself, and
`*p` is `p.next`. Each macro is a method over the heap proved against a sequence. `QueueWorld` proves
any run of TAILQ operations on any number of disjoint queues.

**The client threads** (`server/aesd_thread.c`). `ClientThread.ThreadFunc` is one thread with its real
buffer; `ThreadProtocol` interleaves any number of them at every recv, lock, fseek, fwrite, fread and
unlock, over one shared position and end-of-file flag.

What the environment decides is a parameter: the address an allocation returns (0 for failure),
whether a user copy succeeds, and the results of recv.

## Where the code differs from its documentation

The model follows the code. Each difference has its exact condition.

- The position search is documented to return the entry and byte of any position. With its narrow
  integers it does so at every position iff no live command is longer than 2^16 bytes
  (`SearchExactEverywhereIff`, `ReadsExactlyIff`); `LongEntryMisread` is the failing read.
- `buffer_size` loses the size of the new oldest command at an eviction, not of the evicted one. It is
  the live size iff nothing was evicted or the oldest command is as long as the first ever
  (`CounterIsLiveSizeIff`, `SeekEndExample`).
- The seek ioctl counts physical slots. It reaches the command asked for iff every live command is as
  long as the slot with its number (`SeeksMeetRequestsIff`, `SeekAfterWrapExample`). Knowing only how
  many commands n were committed, a caller can rely on it iff n <= 10 or n is a multiple of 10
  (`SeeksAlwaysMetIff`).
- A failed copy after a successful `krealloc` leaves the cache pointing at a freed block: the device
  stays usable iff that did not happen (`Device.Write`).
- Commands are the lines of the stream iff no write has a newline before its last byte
  (`ChunkingGivesLinesIff`).
- `threadfunc` tests the last byte received even when there is none. The byte in front of the buffer is
  then a parameter; a peer that closes at once is sent the whole file iff it is a newline
  (`ClientThread.ThreadFunc`, `ThreadProtocol.Step.CloseUnread`).
- `aesd_write` sets the file position to `count`, whatever it was (`Device.Write`).

## Model

| member | source | states |
|---|---|---|
| CircularBuffer.LiveIsWindow | aesd-char-driver/aesd-circular-buffer.c:64-77 | after any run of adds the walk from the read index yields exactly the newest min(n, 10) entries, oldest first |
| CircularBuffer.DisplacedIsTenBack | aesd-char-driver/aesd-circular-buffer.c:66-70 | an add hands back NULL for the first ten adds, then the pointer added ten adds before |
| CircularBuffer.IndicesAfterAdds | aesd-char-driver/aesd-circular-buffer.c:67-75 | after n adds the write index is n mod 10, full iff n >= 10, the read index 0 or n mod 10 |
| CircularBuffer.ReadIndexAtZero | aesd-char-driver/aesd-circular-buffer.c:67-72 | the read index is 0 iff n <= 10 or n is a multiple of 10 |
| CircularBuffer.OldestAtWriteIndex | aesd-char-driver/main.c:155 | the slot whose size an evicting commit subtracts holds the new oldest entry |
| CircularBuffer.SlotsAreRotatedWindow | aesd-char-driver/aesd-circular-buffer.c:64-77 | the physical slots of a full ring are the live entries rotated by the write index |
| CircularBuffer.WalkOrder | aesd-char-driver/aesd-circular-buffer.c:34-52 | the search loop visits each live slot once in ring order, and `full` is what lets it enter a full ring |
| CircularBuffer.PhysicalTotalIsLiveTotal | aesd-char-driver/aesd-circular-buffer.c:87-97 | walking physical slots up to the first NULL measures exactly the live entries, wrapped or not |
| CircularBuffer.Ring.constructor | aesd-char-driver/aesd-circular-buffer.c:82-85 | a zeroed ring is the ring of the empty history |
| CircularBuffer.Ring.AddEntry | aesd-char-driver/aesd-circular-buffer.c:64-77 | an add appends to the history, keeps the newest ten, and returns the pointer that leaves |
| CircularBuffer.Ring.FindEntryOffset | aesd-char-driver/aesd-circular-buffer.c:29-55 | the search over the slots finds what the coded search finds in the live entries, which SearchFindsFirst and SearchExactIff describe |
| CircularBuffer.Ring.Size | aesd-char-driver/aesd-circular-buffer.c:87-97 | the size is the sum of the live entries' sizes |
| FlatFile.SearchExactIff | aesd-char-driver/aesd-circular-buffer.c:32-48 | inside the data the search is right iff the 32-bit total at the covering entry's end exceeds the position and the in-entry offset fits 16 bits |
| FlatFile.SearchPastEnd | aesd-char-driver/aesd-circular-buffer.c:26-27 | at and past the end of the data the search always returns NULL |
| FlatFile.SearchFindsFirst | aesd-char-driver/aesd-circular-buffer.c:34-52 | for any sizes the search stops at the first entry after which the running total modulo 2^32 exceeds the position, with the offset modulo 2^16, and fails iff there is none |
| FlatFile.SearchExactEverywhereIff | aesd-char-driver/aesd-circular-buffer.c:19-55 | for a ring the search is right at every position iff no entry is longer than 2^16 bytes |
| FlatFile.HitInEntry | aesd-char-driver/main.c:69-73 | right or wrong, a hit lies inside its entry, so a read never leaves the entry's block |
| FlatFile.TruncatedOffset | aesd-char-driver/aesd-circular-buffer.c:41 | the 32- and 64-bit arithmetic and the 16-bit truncation give the true in-entry offset modulo 2^16 |
| FlatFile.ReadExactWhenLocated | aesd-char-driver/main.c:63-80 | where the search is right a read returns exactly the intended bytes |
| FlatFile.LocatedReadLength | aesd-char-driver/main.c:69-80 | where the search is right a read at p returns the file's bytes from p on, and stops short of count only at the end of the covering command |
| FlatFile.ReadOfHit | aesd-char-driver/main.c:69-80 | right or wrong, a hit is read from its byte on, and the read stops short of count only at the end of the entry |
| FlatFile.ReadsExactlyIff | aesd-char-driver/main.c:63-80 | all reads are exact iff every live command has at most 2^16 bytes |
| FlatFile.LongEntryFound | aesd-char-driver/aesd-circular-buffer.c:32-48 | byte 2^16 of a longer entry is found as its byte 0 iff the 32-bit total at its end exceeds that position |
| FlatFile.LongEntryMisread | aesd-char-driver/aesd-circular-buffer.c:41 | then a read there returns the command from its byte 0 |
| FlatFile.ReadAbove32Bits | aesd-char-driver/aesd-circular-buffer.c:32-39 | from position 2^32 - 1 on every read returns nothing, even where there is data |
| FlatFile.FileRead | aesd-char-driver/main.c:68-80 | the intended read: the file's bytes from the position on, stopping at the count or at the end of the covering command and nowhere else, none at the end of the file |
| FlatFile.ReadAllReturnsFile | aesd-char-driver/main.c:56-85 | successive reads with any counts return the file without gaps or repeats, and enough positive counts reach its end |
| FlatFile.ReadAtEnd | aesd-char-driver/main.c:64-67 | at the end of the file every read returns nothing |
| CommandStream.AcceptAllKeepsBytes | aesd-char-driver/main.c:118-163 | no byte written is lost, added or reordered, whatever the chunks |
| CommandStream.CommandsEndInNewline | aesd-char-driver/main.c:145-147 | every committed command ends in a newline and the cache never does |
| CommandStream.ChunkingGivesLinesIff | aesd-char-driver/main.c:145-163 | commands and cache are the lines and the remainder of the stream iff no chunk has a newline before its last byte |
| CommandStream.LineSplitUnique | aesd-char-driver/main.c:145-147 | a byte string splits into newline-terminated lines and a remainder in one way only |
| CommandStream.ChunkIndependence | aesd-char-driver/main.c:110-163 | two such chunkings of one stream reach the same commands and cache, hence the same ring contents and buffer_size |
| CommandStream.SizeCounterClosedForm | aesd-char-driver/main.c:149-162 | buffer_size is the live total plus the size of the first command ever minus that of the oldest live one |
| CommandStream.CounterNeverUnderflows | aesd-char-driver/main.c:155 | the subtraction never goes below zero |
| CommandStream.CounterIsLiveSizeIff | aesd-char-driver/main.c:149-162 | buffer_size is the true size iff nothing was evicted or the oldest command is as long as the first ever |
| SlabAllocator.Slab.Kmalloc | aesd-char-driver/main.c:119 | a new block at a fresh address with unspecified contents, or NULL and no change |
| SlabAllocator.Slab.CopyIn | aesd-char-driver/main.c:134 | a complete user copy replaces exactly the bytes from the offset on |
| SlabAllocator.Slab.Krealloc | aesd-char-driver/main.c:121 | a failing krealloc keeps the old block, a succeeding one frees it and keeps its bytes |
| SlabAllocator.Slab.Kfree | aesd-char-driver/main.c:153 | only an allocated block or NULL may be freed |
| CharDevice.CommitOwns | aesd-char-driver/main.c:147-163 | a commit moves the cache block into the ring and gives up exactly the evicted block, every block still owned once |
| CharDevice.OwnsWithoutCacheIff | aesd-char-driver/main.c:134-137 | losing the cache block breaks ownership exactly when there was one |
| CharDevice.SlotsOwnBlocks | aesd-char-driver/main.c:300-303 | the physical slots hold each live block once and nothing else |
| CharDevice.Device.constructor | aesd-char-driver/main.c:274-281 | the initial device is empty and valid |
| CharDevice.Device.Write | aesd-char-driver/main.c:87-170 | result code, joined or committed bytes, size counter, position and exact set of allocated blocks for every outcome, and that the device stays valid iff no copy failed after a krealloc |
| CharDevice.Device.FillCache | aesd-char-driver/main.c:116-143 | the chunk joins the cache block, or each failure leaves exactly the stated blocks |
| CharDevice.Device.Commit | aesd-char-driver/main.c:145-163 | the pending command is committed, one block is freed iff the ring was full, the counter follows |
| CharDevice.Device.Read | aesd-char-driver/main.c:56-85 | for every outcome the result code and position; a read starts at the byte found and stops at the count or the entry's end only, and where the search is right it is that stretch of the file |
| CharDevice.Device.Llseek | aesd-char-driver/main.c:172-193 | for each whence a target that is not negative is returned and becomes the position, a negative one or an unknown whence is refused and keeps it; SEEK_END counts from the live size plus the first command's size minus the oldest one's |
| CharDevice.Device.AdjustFileOffset | aesd-char-driver/main.c:195-217 | refuses iff the command number is 10 or more or the offset exceeds the slot's size, and then keeps the position; else moves to the sum of the earlier physical slots plus the offset |
| CharDevice.Device.Cleanup | aesd-char-driver/main.c:298-303 | every live block is freed once and only a pending cache block stays allocated |
| Seeking.SeekThenFind | aesd-char-driver/main.c:204-212 | with the read index at 0, seeking to (c, o) and searching gives back slot c, byte o iff the search is right there |
| Seeking.SeekToCommandEnd | aesd-char-driver/main.c:204 | an offset equal to the command's size is accepted: the search then gives the first byte of the next live command iff the 32-bit total at that command's end exceeds the position, and NULL after the last one |
| Seeking.SeekToUnwritten | aesd-char-driver/main.c:204-212 | a command number not yet written is accepted with offset 0 only and moves to the end of the data |
| Seeking.SeekRefusedIff | aesd-char-driver/main.c:204 | in terms of what was written: a seek into the slot of the k-th command is refused iff the offset exceeds the size of that command |
| Seeking.SeeksMeetRequestsIff | aesd-char-driver/main.c:208-212 | every request for a byte of a live command reaches it iff each live command is as long as the slot with its number |
| Seeking.SeeksMeetRequestsByHistory | aesd-char-driver/main.c:208-212 | that is so before the ring is full, and after n >= 10 commits iff rotating the live sizes by n mod 10 places does not change them |
| Seeking.SeeksAlwaysMetIff | aesd-char-driver/main.c:208-212 | every history of n commits has its requests met iff n <= 10 or n is a multiple of 10 |
| Seeking.SeekAfterWrapExample | aesd-char-driver/main.c:208-212 | after eleven commits a seek to command 1 lands one byte late |
| Seeking.SeekEndIff | aesd-char-driver/main.c:182-191 | for any offset SEEK_END lands where that offset from the end of the live data should, or is refused like it, iff nothing was evicted, the oldest command is as long as the first ever, or both are refused |
| Seeking.SeekEndExample | aesd-char-driver/main.c:182-184 | eleven commands after which SEEK_END stops one byte short |
| DeviceRuns.WriteThenRead | aesd-char-driver/main.c:56-170 | any line-respecting chunking of a stream, then reads with any counts from 0, return the newest min(n, 10) lines, then nothing |
| DeviceRuns.CommitShiftsFile | aesd-char-driver/aesd-circular-buffer.c:67-72 | a commit to a full ring moves every surviving byte down by the evicted size; otherwise the file is only extended |
| DeviceRuns.FileIsStreamSuffix | aesd-char-driver/aesd-circular-buffer.c:67-72 | the file is the stream of all committed bytes without the evicted ones |
| DeviceRuns.ShortCommandsAreLocated | aesd-char-driver/aesd-circular-buffer.c:29-55 | in a run whose commands have at most 2^16 bytes the search is right at every read |
| DeviceRuns.ReaderSeesStreamInOrder | aesd-char-driver/main.c:56-170 | a reader interleaved with any writes never gets a byte twice, out of order or altered, as long as the search is right at each of its reads |
| DeviceRuns.ReaderMissesNothing | aesd-char-driver/main.c:56-170 | while nothing was evicted, what such a reader got is the beginning of the file as it stands |
| DeviceRuns.RunAcceptsItsChunks | aesd-char-driver/main.c:110-163 | the stream of a run is that of its writes alone, whatever is read between them |
| DeviceRuns.ReadsInARow | aesd-char-driver/main.c:56-85 | consecutive reads anywhere in a run give what ReadAll gives from the reader's position, so ReadAllReturnsFile applies to them |
| DeviceClients.WriteAll | aesd-char-driver/main.c:87-170 | any successful writes to a device of any history leave it valid with exactly those chunks accepted |
| DeviceClients.ReadAllCalls | aesd-char-driver/main.c:56-85 | calls of the device's read with any counts return what ReadAll says and end at its position |
| DeviceClients.WriteThenRead | aesd-char-driver/main.c:56-170 | the same end to end on a device: writes that respect the lines of a stream, then reads from 0, return its newest min(n, 10) lines |
| DeviceClients.Interleave | aesd-char-driver/main.c:56-170 | a reader among writers on a device goes through exactly the runs that the DeviceRuns results speak of, and all its chunks are accepted in order |
| Links.ForwardUnique | server/queue.h:650-653 | the heap determines the sequence a head holds |
| TailQueue.Init | server/queue.h:690-694 | the head holds the empty sequence |
| TailQueue.InsertHead | server/queue.h:721-732 | the element comes first and the queue stays well formed |
| TailQueue.InsertTail | server/queue.h:734-742 | the element comes last |
| TailQueue.InsertAfter | server/queue.h:696-709 | the element comes right after the given one, also at the end |
| TailQueue.InsertBefore | server/queue.h:711-719 | the element comes right before the given one, without the head |
| TailQueue.Remove | server/queue.h:752-768 | exactly the element leaves, at either end or between; its own links stay |
| TailQueue.Concat | server/queue.h:635-644 | the first queue gets both sequences, the second is a valid empty queue |
| TailQueue.Swap | server/queue.h:770-785 | the sequences are exchanged and back links and tail pointers repaired |
| TailQueue.SwapTwice | server/queue.h:770-785 | two swaps leave both link fields of every cell of both queues as they were |
| TailQueue.Last | server/queue.h:744-745 | the last element, or NULL, through the shared layout of heads and entries |
| TailQueue.Prev | server/queue.h:749-750 | the predecessor, or NULL for the first element |
| TailQueue.Foreach | server/queue.h:650-653 | visits exactly the sequence |
| TailQueue.ForeachReverse | server/queue.h:670-673 | visits exactly the reversed sequence and ends |
| TailQueue.RemoveAllSafe | server/queue.h:660-663 | with a body that removes visited elements it still visits the whole original sequence and keeps the others in order |
| TailQueue.KeepInOrder | server/queue.h:660-663 | what is left of a queue in pieces is what is left of each piece, in order |
| TailQueue.KeepMembers | server/queue.h:660-663 | exactly the elements not removed are left |
| QueueWorld.Perform | server/queue.h:690-785 | for each operation the sequence every queue it names holds afterwards, in terms of those before; all others are as they were |
| QueueWorld.Run | server/queue.h:690-785 | after any run of legal operations every queue is well formed and holds its abstract sequence |
| QueueWorld.RunsCompose | server/queue.h:690-785 | a run is legal and has its effect piece by piece: no operation is skipped or repeated |
| QueueWorld.RemoveUndoesInsert | server/queue.h:696-768 | removing an element just inserted, wherever it was put, restores every queue |
| QueueWorld.WorldUnique | server/queue.h:570-592 | one heap cannot hold two different families of sequences |
| ListQueue.InsertBefore | server/queue.h:521-527 | the element comes right before the given one, without the head |
| ListQueue.Remove | server/queue.h:544-555 | exactly the element leaves, without the head |
| ListQueue.LastElement | server/queue.h:476-477 | the tail walk ends at the last element |
| ListQueue.Concat | server/queue.h:467-482 | the first list gets both sequences, the second is a valid empty list |
| ListQueue.Swap | server/queue.h:557-565 | the sequences are exchanged and the first elements' back links repaired |
| ListQueue.Prev | server/queue.h:539-542 | the predecessor, or NULL for the first element |
| STailQueue.Init | server/queue.h:340-343 | the head holds the empty sequence |
| STailQueue.InsertTail | server/queue.h:357-361 | the element comes last and the tail pointer follows |
| STailQueue.InsertAfter | server/queue.h:345-349 | the element comes right after the given one, also at the end |
| STailQueue.RemoveAfter | server/queue.h:384-394 | the cell after a head or an element is linked out and the tail pointer stays right |
| STailQueue.ElementBefore | server/queue.h:375-378 | the search walk ends at the predecessor of any member |
| STailQueue.Remove | server/queue.h:370-382 | exactly the member leaves, also when it is last or the only one |
| STailQueue.Concat | server/queue.h:308-314 | the first queue gets both sequences, the second is a valid empty queue |
| STailQueue.Swap | server/queue.h:396-407 | the sequences are exchanged, tail pointers of emptied queues included |
| STailQueue.Last | server/queue.h:363-366 | the last element or NULL |
| SList.RemoveAfter | server/queue.h:262-269 | the cell after a head or an element is linked out |
| SList.Remove | server/queue.h:248-260 | exactly the member leaves, the rest keeps its order |
| SList.Concat | server/queue.h:190-201 | the first list gets both sequences, the second is a valid empty list |
| SList.Swap | server/queue.h:271-275 | the sequences are exchanged |
| ClientThread.PacketIsFirstEnd | server/aesd_thread.c:19-23 | a packet is everything received up to the first recv result that ends in a newline |
| ClientThread.NoPacketWithoutEnd | server/aesd_thread.c:43-46 | if the peer closes, or no result ends in a newline, there is no packet |
| ClientThread.StartsWithDataIff | server/aesd_thread.c:20-22 | the peer sent something before closing iff some result brings bytes and all before it are errors |
| ClientThread.MakeRoom | server/aesd_thread.c:47-53 | one doubling always leaves room for the next 100 bytes and keeps what was received |
| ClientThread.Echo | server/aesd_thread.c:34-38 | the fread/send loop ends and sends the whole file |
| ClientThread.Deliver | server/aesd_thread.c:25-38 | the packet is appended at the end and the whole file is sent back |
| ClientThread.Handle | server/aesd_thread.c:22-53 | the loop body: deliver when the tested byte is a newline, stop on an empty recv, else keep the bytes and make room |
| ClientThread.ThreadFunc | server/aesd_thread.c:5-61 | a completed packet is appended and answered with the whole file; otherwise nothing changes, except that a peer closing before its first byte is sent the file iff the byte in front of the buffer is a newline |
| ThreadProtocol.ReachableInv | server/aesd_thread.c:19-55 | every interleaving of any number of threads keeps the protocol invariant |
| ThreadProtocol.RunConcat | server/aesd_thread.c:19-55 | a run is enabled and has its effect piece by piece: no step is skipped or repeated |
| ThreadProtocol.HistoryOfRun | server/aesd_thread.c:20-25 | in any run a thread has received just what its recv steps delivered, and the mutex was taken in the order of the lock steps |
| ThreadProtocol.PhaseOfRun | server/aesd_thread.c:20-46 | a thread is closed iff an empty recv closed it, waits or holds the mutex or is answered according to its own newline, lock and unlock, and receives otherwise |
| ThreadProtocol.MutualExclusion | server/aesd_thread.c:25-40 | at most one thread is between lock and unlock |
| ThreadProtocol.FileIsPacketsInLockOrder | server/aesd_thread.c:25-40 | after any run the file is its initial content and then, for each lock step in order, all the bytes that thread's recv steps delivered, without the packet of a holder that has not written yet; nobody locks twice, and packets end in a newline unless empty |
| ThreadProtocol.ReplyIsFileAtOwnAppend | server/aesd_thread.c:27-38 | a reply is the initial content, the packets of all earlier lock steps, then all the bytes the client's own recv steps delivered, and stays a prefix of the file |
| ThreadProtocol.RepliesComparable | server/aesd_thread.c:34-38 | of any two replies one is a prefix of the other |
| ThreadProtocol.ReceiveHasRoom | server/aesd_thread.c:20-53 | at every recv there is room for 100 bytes, the buffer is all the bytes the thread's recv steps delivered, without a final newline, and it was doubled no more often than needed |
| ThreadProtocol.SendsOfRun | server/aesd_thread.c:34-38 | an answered client was sent its reply in n reads of up to size bytes with (n - 1) size <= length of the reply < n size |
| ThreadProtocol.HolderProgresses | server/aesd_thread.c:25-40 | the holder always has a step and each one releases the mutex or leaves less work |
| ThreadProtocol.OthersDoNotDelay | server/aesd_thread.c:19-55 | no other thread's step takes the mutex away or adds to the holder's work |
| ThreadProtocol.OnlyTheMutexBlocks | server/aesd_thread.c:19-55 | a thread has a step iff it is unfinished and does not wait for a held mutex, and a receiving one takes whatever the peer sends |
| ThreadProtocol.NeverStuck | server/aesd_thread.c:19-55 | no reachable state is stuck while a thread is unfinished |

## Left out

- `server/aesdsocket.c`: sockets, signals and a handler whose shared descriptor is used outside the mutex.
- Device registration, open and release, printk, ioctl number decoding, and failing to take the device mutex.
- CharDevice.Device.Write: does not model wrap-around of 64-bit sizes, because a block that large cannot be allocated.
- CharDevice.Device.Read: is one atomic step, because reads and seeks racing a writer without the lock are not modelled.
- CircularBuffer.Ring.FindEntryOffset: omits the inner loop that advances a pointer nobody reads (aesd-char-driver/aesd-circular-buffer.c:43-46).
- DeviceRuns.ReaderSeesStreamInOrder: the reader has its own open file, which no write moves.
- ClientThread.ThreadFunc: does not model a failing realloc, a short fwrite or send, or overflow of the 32-bit buffer size.
- Recv errors in ThreadProtocol: the code ignores them and calls recv again, so they change no state.
- TailQueue.Concat: both arguments are different queues, because joining a queue to itself makes a cycle of its elements.
- The remaining SLIST and LIST insertions, STAILQ_INSERT_HEAD, all FROM variants and the FOREACH loops of SLIST, LIST and STAILQ.
- Tracing, link trashing, invariant panics and the C++ variants of `server/queue.h`.
- `examples/`, `finder-app/`, `student-test/`, scripts and makefiles.
