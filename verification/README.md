# A verified model of the aesd character driver, its queues and its socket server

The repository holds a small storage system: a character driver that keeps the last commands
written to it in a ring (`aesd-char-driver/`), and a socket server that stores each received line
in the driver and sends back what the driver then reads as (`server/`). This project models three
connected pieces of it in Dafny and proves what they promise.

1. **The driver.** Writers append bytes to one pending entry shared by the whole device; the first
   newline commits the whole entry to a ring that evicts its oldest slot. Readers and seekers see
   the ring as one flat file, with a position per open file. The simple specification is an
   append-only log of commands whose visible contents are the last `n` of them end to end. The
   capacity `n` is any number from 1 to 255, the most its 8-bit indices can count; the source has 10.
   - `CircularBuffer.dfy`: the ring struct and its functions, as a class over an array.
   - `DriverSpec.dfy`: each file operation as one whole call on the log; runs of calls from any
     number of open files.
   - `Calls.dfy`: what each whole call gives its caller, told from the flat contents.
   - `Device.dfy`: the file operations as methods, with real memory blocks behind slots and pending
     entry, and a record of which block belongs to whom.
   - `DeviceRuns.dfy`: runs of these methods by any number of open files.
   - `Seeking.dfy`, `Writing.dfy`, `Reading.dfy`, `Skipping.dfy`: what holds of seeks, of written,
     read and missed bytes, over all inputs and all runs of whole calls.
   - `Interleaving.dfy`, `Clients.dfy`: the same operations step by step under concurrent clients;
     every interleaving amounts to whole calls in lock order, and the results about runs carry over.
   - `Callers.dfy`: every call begun is carried out and answered, and none is kept from completing.
   - `SharedMemory.dfy`: these steps once more on pointers and blocks that `krealloc` moves and frees.
2. **The queues.** `TailQueue.dfy` models `TAILQ` with links as addresses, including the reading of
   an entry as if it were a head; `QueueRuns.dfy` runs operations on any number of queues.
   `ThreadList.dfy` models the `SLIST` of connections and the sweep that reaps finished ones.
3. **The server.** `Framing.dfy` (bytes in any pieces become a line), `SeekCommand.dfy` (the seek
   command's text), `Server.dfy` (from received bytes to the reply, on a `Device`).

`Sequences.dfy` holds what they share. `dafny verify dfyconfig.toml` checks all of it.

What the operating system decides comes in as parameters over which every statement is universal:
how many bytes of a copy to or from user space fail, whether taking the lock is interrupted, how
`recv` cuts the input, how stdio cuts its writes and reads, how much room an allocation has to
spare, when a thread finishes, and in which order clients make their steps.

## Where the code departs from its comments

The model follows the code.

- `aesd_adjust_file_offset` sums sizes from array slot 0 (`aesd-char-driver/main.c:179-189`); the
  comment above it says to start at the output pointer (`aesd-char-driver/main.c:144-146`). A seek
  and the lookup of the next read agree exactly when the number of commands so far is below the
  capacity or a multiple of it (`SeekThenLookup`, `LookupThenSeek`, `CodeMeetsComment`).
- `total_size` is called the size of all entries in the buffer
  (`aesd-char-driver/aesd-circular-buffer.h:52-55`), but has 8 bits and is not reduced on eviction.
  `SizeCounter` gives the exact condition under which it is that size.
- The comment on reads and writes asks `write` to advance `*f_pos`
  (`aesd-char-driver/main.c:204-206`); `aesd_write` neither uses nor changes it.
- A read at the end of the data resets the position to 0 (`aesd-char-driver/main.c:339-342`).
- `f_pos` is not adjusted when a command is evicted (`aesd-char-driver/main.c:334-358`,
  `aesd-char-driver/aesd-circular-buffer.c:66-83`), so the contents slide under the readers: a reader
  that has come some way misses commands that are still stored, and may meet the end of the data
  before it has read what was just committed. `SkipsWhenEvicted`, `RunSkipsWhenEvicted` and
  `EndComesEarly` give the exact conditions, `StoredCommandSkipped` an instance.
- A commit takes the whole pending entry, bytes after the newline included
  (`aesd-char-driver/main.c:396-403`); `SplitMatters` says when this shows.
- A failed `llseek` stores the negative error as the position (`aesd-char-driver/main.c:123-124`);
  `FailedSeekThenRead` says what `aesd_read` makes of such a position when it is called with it.
- A failed copy of the ioctl argument returns `EFAULT` without the minus sign
  (`aesd-char-driver/main.c:269`).
- Evicted buffers are never freed, nor is the pending one at module exit; `Ownership` and
  `CleanAfterCleanup` say exactly what is left.

## Model

| member | source | states |
|---|---|---|
| CircularBuffers.CircularBuffer.constructor | aesd-char-driver/aesd-circular-buffer.c:88-91 | a zeroed ring of any capacity represents the empty log |
| CircularBuffers.CircularBuffer.AddEntry | aesd-char-driver/aesd-circular-buffer.c:66-83 | one add extends the represented log by exactly that entry, at every fill level and rotation, with no index leaving its 8 bits |
| CircularBuffers.CircularBuffer.FindEntryOffsetForFpos | aesd-char-driver/aesd-circular-buffer.c:29-57 | the search ends at every rotation; it finds nothing exactly when the offset is past the data of the last n entries, else the slot holding the entry that covers the offset and the byte in it |
| CircularBuffers.WindowRefinement | aesd-char-driver/aesd-circular-buffer.c:66-91 | after any run of adds, in_offs is their number modulo n, full says whether n were made, out_offs follows, total_size is the sum of all sizes modulo 256, and the slots read round from out_offs are the last entries oldest first |
| CircularBuffers.AddedShaped | aesd-char-driver/aesd-circular-buffer.c:68-82 | the closed form is kept by each add, which justifies setting in_offs to out_offs at the wrap |
| CircularBuffers.PhysicalSlots | aesd-char-driver/aesd-circular-buffer.c:75-80 | what each array slot holds, told from the log: this lap's entry below the write index, the previous lap's from there on |
| CircularBuffers.LookupFinds | aesd-char-driver/aesd-circular-buffer.c:36-56 | unused slots do not disturb the lookup, so it answers from the window of the log alone |
| Sequences.LocateSound | aesd-char-driver/aesd-circular-buffer.c:49-54 | a position has a block exactly when it lies inside the data, and the block's prefix sum plus the offset is the position |
| Sequences.LocateAt | aesd-char-driver/aesd-circular-buffer.c:49-54 | conversely a block and an offset in it are what is located at their sum |
| Sequences.RestInFlat | aesd-char-driver/main.c:345-354 | what is left of the located command is the flat contents from the position on, up to some point, and empty only past the end |
| DriverSpec.RunCommitted | aesd-char-driver/main.c:393-403 | over every run the pending bytes never hold a newline, every command does, and the log only grows at its end |
| Calls.ReadDelivers | aesd-char-driver/main.c:334-358 | a read inside the contents delivers the bytes from its position on, count of them or up to the end of the command the position lies in, whichever comes first, less the last ones not copied; it returns and advances by what was copied |
| Calls.ReadBounds | aesd-char-driver/main.c:345-358 | no read delivers more than count; one without a fault delivers count bytes or ends with a command; a fault takes as many bytes off the end |
| Calls.WriteTakes | aesd-char-driver/main.c:386-407 | a write returns the bytes that got across, leaves the position alone, and commits all that is pending as one command when there is a newline in it |
| Calls.OtherCalls | aesd-char-driver/main.c:114-294 | every other call leaves the device as it is; a failed argument copy returns plus 14, an unknown request -25, a refused seek -22, each with the position untouched |
| Calls.LlseekReaches | aesd-char-driver/main.c:123-129 | llseek reaches every position up to total_size and none beyond, and returns what it stores, a refusal as minus the error |
| Calls.InOneCommand | aesd-char-driver/main.c:345-354 | a position lies in one command only, so its end is a definite place |
| Devices.Device.constructor | aesd-char-driver/main.c:445-454 | the zeroed device owns no block and stands for the empty log |
| Devices.Device.Find | aesd-char-driver/main.c:334-342 | the slot found holds, from the byte found on, exactly what is to be read at the offset; none is found exactly when there is nothing |
| Devices.Device.ReadLocked | aesd-char-driver/main.c:334-358 | a read delivers at most the rest of the command at its position, less what is not copied, advances by what was copied, or resets to 0 at the end of the data |
| Devices.Device.Read | aesd-char-driver/main.c:312-364 | the same for the open file, and no change at all when taking the lock is interrupted |
| Devices.Device.Grow | aesd-char-driver/main.c:380-384 | krealloc keeps the pending bytes, in place or in a fresh block with the old one freed, and shares no block with a slot |
| Devices.Device.CopyIn | aesd-char-driver/main.c:387-394 | the accepted bytes are appended to the pending ones and no committed command changes |
| Devices.Device.Scan | aesd-char-driver/main.c:396-403 | the whole pending entry is committed when it holds a newline, exactly once, and is left alone otherwise |
| Devices.Device.Write | aesd-char-driver/main.c:366-407 | a write with any partial copy is the write call on the log, keeps block ownership, and takes back neither an allocation nor a free |
| Devices.Device.AdjustFileOffset | aesd-char-driver/main.c:149-195 | accepted exactly for a stored slot and an offset inside it; the position becomes the sizes of the slots before it in array order plus the offset |
| Devices.Device.Ioctl | aesd-char-driver/main.c:256-294 | seek, failed argument copy (positive EFAULT), unknown request and interruption each give their result and position |
| Devices.Device.Llseek | aesd-char-driver/main.c:114-129 | the size handed on is the 8-bit sum of all sizes ever added; the answer, error or not, becomes the position |
| Devices.Device.Ownership | aesd-char-driver/main.c:380-403 | every block ever handed out is in exactly one of freed, pending, in the ring, evicted and unfreed |
| Devices.Device.SlotsApart | aesd-char-driver/main.c:399-401 | no two slots share a block |
| Devices.Device.Cleanup | aesd-char-driver/main.c:479-481 | every ring block is freed, none that was freed before; evicted and pending blocks remain |
| Devices.Device.CleanAfterCleanup | aesd-char-driver/main.c:465-485 | as many blocks remain as commands have been evicted, and the pending one if any; nothing remains exactly when at most n commands were committed and nothing is pending |
| DeviceRuns.RunAll | aesd-char-driver/main.c:114-407 | over any run of calls of any open files, interrupted or not, the device on its memory blocks gives the results, contents and positions of the run of whole calls on the log, and accounts for every block |
| DeviceRuns.TakenIs | aesd-char-driver/main.c:119-121 | the whole calls of a run are its requests in order, less just those whose lock was interrupted |
| DeviceRuns.AnswerMeans | aesd-char-driver/main.c:312-407 | what a call hands its caller: at most count bytes read and their number, the bytes accepted of a write, 0 or -EINVAL for a seek, -ERESTARTSYS when interrupted |
| DeviceRuns.WriteThenCleanUp | aesd-char-driver/main.c:396-481 | commands written to a new device and cleaned up leave the blocks of all but the last n behind |
| Seeking.SeekStaysInside | aesd-char-driver/main.c:159-190 | a seek succeeds iff the command is stored and the offset is inside it, and at every rotation lands inside the data so that a lookup finds something |
| Seeking.SeekIsArrayOrder | aesd-char-driver/main.c:159-190 | a seek to a slot and a byte gives position p iff that byte is the p-th in array order, so accepted seeks and positions inside the contents match one to one |
| Seeking.SeekKeepsOrder | aesd-char-driver/main.c:179-190 | the later of two bytes in array order has the greater position |
| Seeking.SeekIsOffBy | aesd-char-driver/main.c:144-190 | at every rotation the position is too great by the bytes below the output slot for slots from there on, and too small by the bytes from there on for slots below |
| Seeking.SeekCallIs | aesd-char-driver/main.c:159-190 | a seek is accepted with 0 exactly for a stored command and a byte in it, and else refused with -EINVAL and the position left alone |
| Seeking.SeekThenReadStarts | aesd-char-driver/main.c:179-190 | the read after an accepted seek starts, at every rotation, in the command by age that holds the position reached, and delivers count bytes or up to its end |
| Seeking.SlotAtIsLookup | aesd-char-driver/aesd-circular-buffer.c:29-57 | the slot and byte meant in these statements are what the search in the ring finds |
| Seeking.SeekThenLookup | aesd-char-driver/main.c:179-190 | the lookup at a sought position gives back slot and byte iff the number of adds is below n or a multiple of n |
| Seeking.LookupThenSeek | aesd-char-driver/main.c:149-195 | seeking to what a lookup found is accepted, and restores the position iff the same condition holds |
| Seeking.OldestFirstThenLookup | aesd-char-driver/main.c:144-147 | the position the comment describes leads to the wanted slot and byte at every rotation, and no other position does |
| Seeking.CodeMeetsComment | aesd-char-driver/main.c:144-190 | the code computes the position its comment describes iff the oldest command is in slot 0 |
| Seeking.CodeCountsByAge | aesd-char-driver/main.c:159-190 | every (command, offset) gets the answer a count from the oldest command would give iff rotating the sizes leaves them as they are |
| Seeking.SeekMissesAfterRotation | aesd-char-driver/main.c:179-190 | in the ring of ten, after eleven commands, a seek to the start of slot 0 is accepted and the read after it delivers the command in slot 1 |
| Seeking.SeekThenRead | aesd-char-driver/main.c:278-282 | a read after an accepted seek delivers at least one byte, and at the origin the named command from the named byte on |
| Seeking.SizeCounter | aesd-char-driver/aesd-circular-buffer.c:77 | total_size is the live length iff that is below 256 and the evicted bytes sum to a multiple of 256 |
| Seeking.CounterMissesLongCommand | aesd-char-driver/aesd-circular-buffer.h:55 | one command of 256 bytes makes total_size 0, and llseek grants no more than position 0 |
| Seeking.SeekEndThenRead | aesd-char-driver/main.c:123-124 | the end llseek grants is the true end under just that condition; a read there meets the end of the data iff the contents are no longer than the counter says |
| Seeking.FailedSeekThenRead | aesd-char-driver/main.c:123-124 | aesd_read called at the position a failed llseek leaves finds nothing iff there are at most 2^64 minus the error number bytes, and then returns 0 and resets the position |
| Writing.Conservation | aesd-char-driver/main.c:386-403 | over every run of calls, commands and pending bytes end to end are the accepted bytes in order |
| Writing.ChunksAre | aesd-char-driver/main.c:386-394 | the accepted bytes are those of the writes of open files, one chunk each in order |
| Writing.CommandsAreRunsOfWrites | aesd-char-driver/main.c:386-403 | each command is a run of whole writes of which only the last holds a newline; the pending bytes are such a run without the last |
| Writing.WholeWrites | aesd-char-driver/main.c:393-403 | over a run of calls of any files, the writes become one command each, in order and with nothing left pending, iff each brought a newline in |
| Writing.SplitIndependence | aesd-char-driver/main.c:366-407 | a line cut into writes in any way, partly accepted, by any clients, among any other calls, commits exactly that line and leaves nothing pending |
| Writing.SplitMatters | aesd-char-driver/main.c:396-403 | cutting a write in two makes no difference iff it has no newline before its last byte |
| Reading.DeliveryFromLog | aesd-char-driver/main.c:334-358 | a read delivers the bytes of the log at the reader's absolute position, bytes evicted plus f_pos |
| Reading.ReaderOrder | aesd-char-driver/main.c:334-358 | whatever other files do, between end-of-data resets and without seeks one file receives bytes from strictly increasing positions of everything ever committed, and f_pos moves by the bytes received |
| Reading.NothingSkipped | aesd-char-driver/main.c:334-358 | the bytes received were read at positions that follow one another iff nothing is evicted before the last of them, and are then one piece of the log |
| Skipping.SkipsWhenEvicted | aesd-char-driver/main.c:334-358 | a request of any file takes a reader past bytes that are still stored iff it evicts something while the reader is inside the contents and not at position 0 |
| Skipping.RunSkipsWhenEvicted | aesd-char-driver/main.c:334-358 | over a whole run without seeks and end-of-data resets a reader misses no stored byte iff all evictions happen while it is at position 0 |
| Skipping.EndComesEarly | aesd-char-driver/main.c:334-342 | a reader that has read everything gets nothing of what is committed next, but a 0 and a reset, iff at least as many bytes are evicted for it |
| Skipping.StoredCommandSkipped | aesd-char-driver/main.c:334-358 | in the ring of ten, a reader that has read the oldest command gets the third one next when a commit evicts the first, though the second is stored |
| Reading.ReadToEndAmongWrites | aesd-char-driver/main.c:334-358 | with writes but no eviction meanwhile, a reader that meets the end has received the contents of that moment from its start on, and stands at 0 |
| Reading.ReadToEnd | aesd-char-driver/main.c:312-364 | undisturbed reads of any sizes that make progress deliver exactly the contents from the start position on, then return 0 at position 0, within one call more than there are bytes |
| Interleaving.BodyKeeps | aesd-char-driver/main.c:256-407 | each step of a call's body, a loop iteration or a group of assignments at a time, keeps the call on its way to its whole-call outcome |
| Interleaving.RunsAsWholeCalls | aesd-char-driver/main.c:256-407 | in every interleaving of any number of clients each finished call returned what it returns in the run of whole calls in lock order, and whenever the lock is free ring, pending bytes and positions are those of that run |
| Callers.EveryCallIsCarriedOut | aesd-char-driver/main.c:114-407 | in every run the calls of a client that have released the lock, with the one under way, are in order just those it began, less those interrupted before the lock |
| Callers.EveryCallIsAnswered | aesd-char-driver/main.c:114-407 | the answers a client has got or is about to get are just those due: what each of its calls returned, and -ERESTARTSYS for each interrupted one |
| Callers.EveryCallCompletes | aesd-char-driver/main.c:114-407 | whenever the lock is free an idle client can bring any call to its end by its own steps, within the bound, with the result and effect of the whole call |
| Callers.WorkAtMost | aesd-char-driver/main.c:256-407 | the bound: a read one step for each slot and three, a write one for each pending byte and eight, a seek one for each slot before its own and three |
| Callers.FinishedReads | aesd-char-driver/main.c:334-358 | no finished read, in any interleaving, brought more than its count, or a number other than what it brought |
| Interleaving.SlotStaysIntact | aesd-char-driver/main.c:334-354 | when a read copies from the slot it found, the slot, whose bytes are values in these steps, still holds just what is to be read |
| SharedMemory.BodySimulates | aesd-char-driver/main.c:380-403 | each step on pointers and blocks, krealloc in place or moving included, keeps every pointer on an allocated block and is the step on values |
| SharedMemory.SharedRunsAsWholeCalls | aesd-char-driver/main.c:256-407 | with memory shared by all clients, in every interleaving and wherever blocks move, finished calls returned what the whole calls in lock order return, and the blocks behind slots and pending entry hold that run's commands and bytes |
| SharedMemory.EverySharedCallIsCarriedOut | aesd-char-driver/main.c:114-407 | on shared memory, too, the calls on record and under way are just those begun and not interrupted, and so are the answers |
| SharedMemory.BlocksChange | aesd-char-driver/main.c:380-384 | no step allocates or frees but a moving krealloc, which takes in one new block and gives back just the old one |
| SharedMemory.GrowthIsPossible | aesd-char-driver/main.c:380-384 | krealloc can always move to a free address, so a write need not wait |
| SharedMemory.BlockStaysIntact | aesd-char-driver/main.c:334-354 | when a read copies from the block it found, the block has not been freed or overwritten: from the byte found on it holds just what is to be read |
| SharedMemory.NoDanglingPointer | aesd-char-driver/main.c:380-403 | in every run no slot and no pending entry points to a freed or too small block, and the pending block is in no slot while the lock is free |
| Interleaving.LockIsReleased | aesd-char-driver/main.c:119-407 | every path that took the lock releases it, after a bounded number of the holder's own steps in any company |
| Interleaving.HolderProgresses | aesd-char-driver/main.c:290-291 | the holder's steps bring the release nearer and nobody else's put it off |
| Clients.ConservedUnderInterleaving | aesd-char-driver/main.c:366-407 | in every interleaving, whenever the lock is free: no byte lost, made up or reordered, and the ring holds the last n commands |
| Clients.ReaderOrderUnderInterleaving | aesd-char-driver/main.c:312-364 | in every interleaving, without seeks and end-of-data resets, the bytes a client's finished calls returned are those at its absolute positions at the time of each read, which strictly increase |
| Clients.SkippingUnderInterleaving | aesd-char-driver/main.c:334-358 | in every interleaving a client is taken past stored bytes iff something is evicted while it is not at position 0, and what it received is contiguous iff nothing is evicted before the last byte of it |
| Clients.WholeWritesUnderInterleaving | aesd-char-driver/main.c:366-407 | in every interleaving concurrent writes stay whole, one command each in lock order, iff each brought a newline in, and the ring then holds the last n of them |
| TailQueues.Init | server/queue.h:690-694 | the queue is empty and its last link is its own first field |
| TailQueues.InsertHead | server/queue.h:721-732 | links stay right and the element comes first |
| TailQueues.InsertTail | server/queue.h:734-742 | links stay right and the element comes last |
| TailQueues.InsertAfter | server/queue.h:696-709 | links stay right and the element comes right after the given one |
| TailQueues.InsertBefore | server/queue.h:711-719 | links stay right and the element comes right before the given one, without knowing the head |
| TailQueues.Remove | server/queue.h:752-768 | links stay right and just that element is gone |
| TailQueues.Concat | server/queue.h:635-644 | the second queue's elements follow the first's, and the second is empty |
| TailQueues.Swap | server/queue.h:770-785 | the two queues exchange their elements, also when they are the same queue |
| TailQueues.Last | server/queue.h:744-745 | reading the struct around the last link as a head gives the last element, or null when empty |
| TailQueues.Prev | server/queue.h:749-750 | the same trick gives the previous element, or null for the first |
| TailQueues.ForeachReverse | server/queue.h:670-673 | visits exactly the reversed sequence, and stops |
| TailQueues.Foreach | server/queue.h:650-653 | visits exactly the sequence, and stops |
| QueueRuns.Execute | server/queue.h:635-785 | one operation keeps every queue well linked and separate, and changes all queues as the sequence operation does |
| QueueRuns.RunAll | server/queue.h:635-785 | so does any legal run of operations on any number of queues |
| QueueRuns.EffectIs | server/queue.h:635-785 | told from the resulting queues: which end or which neighbour each insertion puts its element at, what removal, concatenation, exchange and reset leave, and that no other queue changes |
| QueueRuns.EffectSeparate | server/queue.h:635-785 | the sequence operations never make two queues share an element and bring in none but their own |
| QueueRuns.UnlinkUndoesInsert | server/queue.h:696-768 | removing what any of the four insertions inserted restores all queues |
| ThreadLists.Server.Accept | server/aesdsocket.c:353-359 | the new connection is first in the list and its flag is clear; nothing is reaped |
| ThreadLists.Server.Remove | server/queue.h:248-269 | SLIST_REMOVE finds its element, ends, and unlinks just that one, following only links of nodes not freed |
| ThreadLists.Server.Sweep | server/aesdsocket.c:362-374 | with threads finishing at any moment, exactly the nodes read as complete are unlinked, closed and freed, the others keep their order, every connection whose thread was done before is reaped, and no thread is done but those and the ones that finished meanwhile |
| ThreadLists.Server.Serve | server/aesdsocket.c:344-375 | over any run of accepts and sweeps, accepted connections are listed or reaped and never both, each reaped one was done and closed once in order; every round has its sweep, after which all threads done at the start or before that sweep are reaped, none that has not finished by then, and a thread done but still listed has finished during the last sweep |
| ThreadLists.PickIndices | server/aesdsocket.c:364-373 | what is kept, and what is dropped, are exactly the elements with that flag in their order |
| Framing.Strcat | server/aesdsocket.c:184-189 | appends the byte, or nothing for NUL, within two bytes of the old end |
| Framing.AppendChunk | server/aesdsocket.c:182-236 | before each strcat the string plus two fits; the chunk is appended up to its first newline |
| Framing.ReceiveData | server/aesdsocket.c:152-194 | the outcome is told from the received stream alone: the line, an error first, or still waiting |
| Framing.FramedIs | server/aesdsocket.c:165-194 | what is received before the first error counts and nothing after it; a newline in it makes a line, else the error breaks it off |
| Framing.FirstLineIs | server/aesdsocket.c:182-193 | the line taken is a beginning of the stream that ends with its only newline |
| Framing.DropNulIs | server/aesdsocket.c:183-189 | NUL bytes are dropped and nothing else |
| Framing.FramingIndependentOfChunking | server/aesdsocket.c:165-194 | however the stream is cut, the packet is the stream up to its first newline without NUL bytes |
| Framing.PacketIsLine | server/aesdsocket.c:182-193 | the packet's only newline is its last byte and there is no NUL in it |
| SeekCommand.ParseFormat | server/aesdsocket.c:32-37 | a command written as keyword, colon and two decimal numbers is parsed back to those numbers exactly when both fit an int |
| SeekCommand.ContainsIsOccurs | server/aesdsocket.c:32 | the seek branch is taken iff the whole keyword stands somewhere in the line |
| SeekCommand.StrtokIs | server/aesdsocket.c:35-37 | a token is the first run of characters other than the delimiter, none exactly when there are only delimiters, and the next call goes on behind the delimiter that ended it |
| SeekCommand.NumberSigned | server/aesdsocket.c:36-37 | a number is read behind spaces and one sign up to the first character that is no digit |
| SeekCommand.AsUint32Wraps | server/aesdsocket.c:36-37 | a number stored in the request stays as it is, or wraps by 2^32 when negative |
| Servers.Stdio.Getline | server/aesdsocket.c:220-231 | hands out the next line of what is left to read, or nothing exactly at the end |
| Servers.Fputs | server/aesdsocket.c:50-51 | in however many and however partial writes, just the line is committed, behind what was pending |
| Servers.AppendToFile | server/aesdsocket.c:24-58 | a seek line moves the position or, refused, leaves it at 0; any other line is committed and the position is 0 |
| Servers.ServingIs | server/aesdsocket.c:32-52 | a line in which the keyword stands nowhere is committed and ends the reply; any other leaves the device alone and the reply is the contents from where the seek leads, or from the start |
| Servers.Reply | server/aesdsocket.c:220-231 | what is sent are all lines of what the stream has left |
| Servers.HandleConnection | server/aesdsocket.c:152-244 | received bytes to reply: the text sent is that of the framed line, and nothing is written or sent without a line |
| Servers.ServeInTurn | server/aesdsocket.c:165-238 | over any connections in turn, seeks, data lines and ones that break before a line in any order, replies and driver state are those of the lines served one after the other |
| Servers.BringsDataIs | server/aesdsocket.c:32 | the connections that bring data are just those whose line has the keyword nowhere |
| Servers.ReplyInTurn | server/aesdsocket.c:152-244 | in such a run the reply to each connection is the one a driver gives that has been sent just the data lines before it |
| Servers.DataReplyInTurn | server/aesdsocket.c:165-238 | in such a run the reply to a data line is the last n data lines sent so far, that line last |
| Servers.OnlyDataInTurn | server/aesdsocket.c:165-238 | if all connections bring data lines, the device holds exactly these lines and each reply is the last n lines so far |
| Servers.SeekReply | server/aesdsocket.c:32-47 | the reply to a seek command in any pieces is the contents from the position reached on, the whole contents when refused, and at the origin begins with the named command at the named byte |
| Servers.LinesFlat | server/aesdsocket.c:220-224 | getline's lines put together are what was read |
| Servers.LinesAre | server/aesdsocket.c:220-224 | each of them is a line, but for the last, which may lack its newline |

## Left out

- Widths of sizes and positions: `size_t`, `ssize_t`, `loff_t` and `long` sums do not overflow in the model; only the `uint8_t` fields, the conversion of a negative `f_pos` to `size_t` and of a parsed `int` to `uint32_t` are modelled at their width.
- `int not_copied` in `aesd_read`: reads of more than 2^31 bytes are not distinguished.
- Devices.Device.Grow: allocations succeed; `krealloc`'s result is not checked by the source, and a zero-byte request is treated like any other.
- Seeking.FailedSeekThenRead: what the kernel may do about a negative position before it calls `aesd_read` is not part of this model.
- Devices.Device.Llseek: `fixed_size_llseek` is not part of this model beyond returning a position up to the size it is given, or an error.
- Mutex internals, fairness and two threads sharing one open file; each client has its own file.
- Interleaving.RunsAsWholeCalls: these steps hold command bytes as values; `SharedMemory` refines them to pointers and blocks.
- Servers.AppendToFile: assumes that a line with the seek keyword holds both numbers and that they fit an `int`; otherwise the source's own `atoi` call is undefined.
- Servers.HandleConnection: the server's own buffers are readable and writable, its driver calls are not interrupted, every write gets at least one byte accepted, and `send` takes the whole line, since the source does not retry.
- Framing.ReceiveData: a peer that closes before a newline makes the source spin on empty results; the model returns `Waiting` for any finite number of them.
- Concurrent server connections: the reply theorems serve one connection at a time; what concurrent clients of the driver can rely on is in `Clients`.
- Reuse of a freed block's address in `Devices`, and of a freed node's in `ThreadLists`; `SharedMemory` allows it.
- The signal handler's emptying of the list, the file-backed mode with its timestamps, `fork`, socket setup, `send_all` and `openFile`, which nothing calls.
- STAILQ, LIST, the remaining SLIST macros, and the C++, debug and trace variants in `queue.h`: the tail queue covers the hard pattern.
- Module registration, `open` and `release`, debug printing, `finder-app`, examples and scripts.
