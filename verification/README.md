# Verified models of the robot's WebRTC and drive firmware

This project models the stateful core of two ESP-IDF firmwares, the WebRTC gateway
(`IDF_esp32p4_webrtc`) and the robot controller (`IDF_robot_control`), and proves what that
core keeps over all inputs and all runs. `dafny verify dfyconfig.toml` checks it.

## What is modelled

**The data queue** (`Bytes`, `QueueLayout`, `DataQueueClass`, `QueueThreads`, `QueuePromises`,
`QueueRuns`, `QueueWakeup`, `QueueTrap`, `QueuePlaces`, `PlaceRuns`). The ring buffer that hands
out contiguous reservations and stores every block behind a length word. `QueueLayout`
describes the bytes: the invariant says that the length words tile the occupied regions
exactly, `Contents` reads the queue of blocks back out of the buffer, and `Places` tells where
they stand.
`DataQueueClass` is the C structure over one byte array; each method is tied to the function
that specifies it and to its effect on the queue of blocks. `QueueThreads` interleaves a
writer, a reader, a flusher (`consume_all`) and a waker (`wakeup`) at every lock, unlock and
bit operation, where seeing a bit and clearing it are two steps.

**Frames in the queue** (`FrameLayout`, `FrameQueue`, `FrameStream`). What the decoder and
render sides store in a block: a 16-byte header with the payload behind it, or a frame buffer
filled in place at an aligned address.

**The allocation log** (`LogRing`, `LogRecords`, `LogThreads`). Four cache slices between the
tracing code and the thread that saves them, refined to an append-only stream of records.

**The allocation trace** (`TraceTable`, `TraceDriver`, `TraceRuns`, `TraceExact`,
`TraceModules`, `TracePeaks`). The record table with swap-with-last removal and the running
totals, against the map of live blocks, each with the size and the name that it was asked for.
Books are kept of the blocks that the table does not hold; the main results say by which events,
told from the trace and the live blocks alone, table, total and module totals cease to be exact.
`ResizeSteps`, `ResizeExact`, `ResizeTotals`, `ResizeRuns` and `ResizeApart` do this again for
resizes whose allocator call comes before the mutex, with anything of other threads in between.

**The peer task handshake** (`PeerTask`, `PeerPromises`, `PeerOverlap`, `PeerRuns`). Pause, resume
and exit between `pc_task` and two control threads that nothing serialises, with flags and event
bits read and written in separate steps.

**The board configuration** (`CfgText`, `CfgReading`, `CfgFill`, `CfgParser`). The parser, the
debug printer and their round trip, the limits of `fill_cfg`, and when the loop ends.

**The RTP payload transformers** (`RtpTransform`). The 12-byte fixed header is the one of
section 5.1 of RFC 3550.

**The mecanum drive** (`MotorControl`, `MotorDriver`). Ramped speed, direction interlock,
message handling and watchdog.

**Colour conversion** (`ColorConvert`) and **the WebRTC supervisor** (`Supervisor`).

Time, allocator results, addresses, received bytes and the outcome of starting a session are
parameters or fields of events.

## What turned out not to hold

- `data_queue_wakeup` may wait for ever: it does if and only if the last user leaves by
  `peek_unlock`, which does not set the user-free bit, while the waker sleeps with that bit
  clear (`QueueWakeup.StrandedExactly`, `StrandedRun`).
- `data_queue_consume_all` traps on a block that fills the whole buffer, and only then
  (`QueueLayout.DrainEmpties`, `QueueTrap.TrappedRun`).
- Stopping the allocation log may lose the last records: the saving thread tests `n` before
  `stopping`, and leaves if a slice completes and stop is called between the two tests; and stop
  does not wait for a tracing call that is under way (`LogThreads.FileCompleteExactly`,
  `QuietStopExactly`, `TornRun`, `CutRun`).
- The allocation trace ceases to be exact when the table overflows, when a resize fails, and,
  for the first module, when a block that no module owns is released, because id 0 stands for
  the first module and for none (`TraceExact.TableExactly`, `UsageExactly`,
  `TraceModules.ModulesExactly`, and one run for each). As `_realloc` calls the allocator before
  it takes the mutex, it may also take out the record of another block, to which the freed
  address has been given in between (`ResizeExact.RecordsExactly`, `ResizeApart.CausesExactly`,
  `WrongRecordTaken`).
- Pausing and exiting are safe if and only if no call begins within another one: an enabling or a
  closing within a BYE, a BYE within an enabling or a closing, an opening just before the event
  group of the last peer is destroyed. From the moment one does, there is a way to go on in which
  `pc_task` enters its main loop during the handler's exclusive part, a thread waits in vain, the
  event group is gone, or a RESUME is left over, although other ways to go on may end well
  (`PeerOverlap.KeptExactly`, `PeerRuns`).
- A configuration line of type "Board" ends the parse of its own printed form
  (`CfgText.PrintThenParse`). `parse_cfg` loops for ever if and only if the first section has
  no closing brace and a type that `fill_cfg` does not know (`CfgFill.NeverEndsExactly`).
- The size tests of `convert_color` protect its accesses if and only if width and height are
  even, or the width is 2, or the frame is empty (`ColorConvert.InsideExactly`).

## Model

| member | source | states |
|---|---|---|
| QueuePromises.Fifo | IDF_esp32p4_webrtc/components/media_lib_sal/port/data_queue.c:225-398 | In every state of every interleaving of writer, reader, flusher and waker: the blocks that left the queue followed by the queued blocks are exactly the blocks sent, in order and byte for byte, and a reader looking at a block sees the oldest one that has not left. |
| QueuePromises.RunKeepsInv | IDF_esp32p4_webrtc/components/media_lib_sal/port/data_queue.c:54-398 | Every reachable state keeps the buffer layout, the reservation, the reader's view, the FIFO law, the ownership of the lock, the count of users, and a still valid reason for every parked thread. |
| QueueThreads.NextKeepsInv | IDF_esp32p4_webrtc/components/media_lib_sal/port/data_queue.c:54-398 | One step of any thread (lock, unlock, set bit, see bit, clear bit, write payload) keeps that invariant. |
| QueuePromises.ParkedForAReason | IDF_esp32p4_webrtc/components/media_lib_sal/port/data_queue.c:54-90 | No lost wake-up, in every state of every run: with the lock free, a writer parked with its bit clear finds the queue not empty and its request not grantable, a reader parked with its bit clear finds the queue empty, a waker finds a user or a peek_unlock has been silent. |
| QueuePromises.NeverBothParked | IDF_esp32p4_webrtc/components/media_lib_sal/port/data_queue.c:54-82 | Writer and reader are never both asleep with clear bits while the lock is free. |
| QueuePromises.EmptyQueueServesWriter | IDF_esp32p4_webrtc/components/media_lib_sal/port/data_queue.c:225-259 | When the queue has run empty, a waiting writer's bit is set and its next pass is granted. |
| QueuePromises.NoDeadlock | IDF_esp32p4_webrtc/components/media_lib_sal/port/data_queue.c:54-162 | In every reachable state: the owner of the lock can step; with the lock free each of writer, reader and waker can take a step of its own unless it is outside the library or asleep with a clear bit, and who sleeps does so for a reason, the writer and the reader not both. |
| QueuePromises.LockHolderSteps | IDF_esp32p4_webrtc/components/media_lib_sal/port/data_queue.c:123-398 | Whoever holds the lock can always take its next step, except a flusher that met a block of the whole buffer. |
| QueuePromises.SendNeverFails | IDF_esp32p4_webrtc/components/media_lib_sal/port/data_queue.c:272-309 | In every run, sending no more than was reserved finds its space, whatever was read, flushed or reset in between. |
| QueueWakeup.DoneMeansLeft | IDF_esp32p4_webrtc/components/media_lib_sal/port/data_queue.c:123-136 | Once wakeup has returned, and in every later state of every run, no thread sleeps in the queue, owns a reservation or looks at a block. |
| QueueWakeup.StrandedRun | IDF_esp32p4_webrtc/components/media_lib_sal/port/data_queue.c:123-136 | Wakeup does not always return: a concrete run in which the last user leaves by peek_unlock and the waker is left asleep with no user. |
| QueueWakeup.StrandedForEver | IDF_esp32p4_webrtc/components/media_lib_sal/port/data_queue.c:361-371 | A waker stranded in this way sleeps in every later state of every run. |
| QueueWakeup.StrandsExactly | IDF_esp32p4_webrtc/components/media_lib_sal/port/data_queue.c:361-371 | A step strands the waker if and only if the last user leaves by peek_unlock while the waker sleeps with its bit clear. |
| QueueWakeup.StrandedExactly | IDF_esp32p4_webrtc/components/media_lib_sal/port/data_queue.c:123-136 | In every state of every run the waker is stranded if and only if such a step has been made. |
| QueueLayout.ContentsFootprint | IDF_esp32p4_webrtc/components/media_lib_sal/port/data_queue.c:184-200 | In a valid queue `filled` is exactly the bytes of the queued blocks with their headers, and it is 0 if and only if there are none. |
| QueueLayout.EmptyTests | IDF_esp32p4_webrtc/components/media_lib_sal/port/data_queue.c:92-103 | The two emptiness tests of the code agree with each other and with the abstract queue. |
| QueueLayout.FrontHeader | IDF_esp32p4_webrtc/components/media_lib_sal/port/data_queue.c:340-352 | The position that read_lock recomputes from `filled` is always rp, the length found there passes the corruption tests, and the block lies in one piece. |
| QueueLayout.PopDropsFront | IDF_esp32p4_webrtc/components/media_lib_sal/port/data_queue.c:378-392 | Dropping the front block keeps the layout (also when rp and fill_end are reset) and removes exactly the oldest block. |
| QueueLayout.WrapKeeps | IDF_esp32p4_webrtc/components/media_lib_sal/port/data_queue.c:237-244 | The wrap in get_buffer changes no queued block. |
| QueueLayout.SendAppends | IDF_esp32p4_webrtc/components/media_lib_sal/port/data_queue.c:272-309 | Sending m bytes appends exactly those bytes as one block; size 0 or a failed send changes nothing. |
| QueueLayout.ReservationIsDisjoint | IDF_esp32p4_webrtc/components/media_lib_sal/port/data_queue.c:245-250 | Whatever the owner writes into its reservation, every queued block keeps its bytes. |
| QueueLayout.ReservationIsStable | IDF_esp32p4_webrtc/components/media_lib_sal/port/data_queue.c:245-300 | Any number of pops leaves wp in place and the reserved space available. |
| QueueLayout.GrantedExactly | IDF_esp32p4_webrtc/components/media_lib_sal/port/data_queue.c:234-250 | A pass grants n bytes if and only if the queue is empty, or they and their length word end in front of the limit (the end of the buffer, or rp in a wrapped queue), or (not wrapped) they fit in front of rp. |
| QueueLayout.CanSendExactly | IDF_esp32p4_webrtc/components/media_lib_sal/port/data_queue.c:272-300 | A send finds its space if and only if its bytes and their length word end in front of the limit. |
| QueueLayout.AnnouncedExactly | IDF_esp32p4_webrtc/components/media_lib_sal/port/data_queue.c:202-223 | get_available announces everything from wp up to the limit, on an empty queue the whole buffer, less one length word, and 0 if there is no room for that. |
| QueueLayout.AnnouncedIsGranted | IDF_esp32p4_webrtc/components/media_lib_sal/port/data_queue.c:202-223 | Every n > 0 up to what get_available announces is granted without waiting. |
| QueueLayout.WaitingMeansWrapped | IDF_esp32p4_webrtc/components/media_lib_sal/port/data_queue.c:237-251 | A writer is made to wait only by a queue that is wrapped and not empty. |
| QueueLayout.DrainEmpties | IDF_esp32p4_webrtc/components/media_lib_sal/port/data_queue.c:138-162 | consume_all empties a queue that has not quit if and only if no block fills the whole buffer (its test is >=); it never touches wp, the bytes, or reserved space. |
| QueueLayout.WholeBufferIsAlone | IDF_esp32p4_webrtc/components/media_lib_sal/port/data_queue.c:148-150 | A block that fills the whole buffer is always the only one in the queue. |
| QueueTrap.TrappedRun | IDF_esp32p4_webrtc/components/media_lib_sal/port/data_queue.c:148-150 | The trap is reached: a run in which the flusher meets a block that fills a buffer of eight bytes. |
| QueueLayout.WalkStep | IDF_esp32p4_webrtc/components/media_lib_sal/port/data_queue.c:406-420 | One turn of query's walk steps over exactly one queued block, across the wrap too. |
| DataQueueClass.DataQueue.constructor | IDF_esp32p4_webrtc/components/media_lib_sal/port/data_queue.c:105-121 | A new queue is valid and empty. |
| DataQueueClass.DataQueue.GetAvailable | IDF_esp32p4_webrtc/components/media_lib_sal/port/data_queue.c:202-223 | Announces, less one length word: the whole buffer on an empty queue, what is behind wp on an unwrapped one, the gap from wp to rp on a wrapped one, and never less than 0; all of it is granted at once. |
| DataQueueClass.DataQueue.GetBuffer | IDF_esp32p4_webrtc/components/media_lib_sal/port/data_queue.c:225-259 | NULL exactly for an oversized request or a queue told to quit, a buffer exactly when granted; blocks and bytes stay, the reservation follows wp. |
| DataQueueClass.DataQueue.SendBuffer | IDF_esp32p4_webrtc/components/media_lib_sal/port/data_queue.c:272-309 | Appends the first m reserved bytes as one block; success exactly for size 0 or when they and their length word end in front of the limit. |
| DataQueueClass.DataQueue.ReadLock | IDF_esp32p4_webrtc/components/media_lib_sal/port/data_queue.c:325-359 | Yields the oldest block in place, or no data exactly when the queue is empty; its corruption trap is unreachable. |
| DataQueueClass.DataQueue.PeekUnlock | IDF_esp32p4_webrtc/components/media_lib_sal/port/data_queue.c:361-371 | Drops the user and leaves the front block to be read again. |
| DataQueueClass.DataQueue.ReadUnlock | IDF_esp32p4_webrtc/components/media_lib_sal/port/data_queue.c:373-398 | Drops the oldest block and the user; on an empty queue neither. |
| DataQueueClass.DataQueue.ConsumeAll | IDF_esp32p4_webrtc/components/media_lib_sal/port/data_queue.c:138-162 | Leaves the queue that `Drain` describes and reports the trap exactly when the code would store to address 0. |
| DataQueueClass.DataQueue.HaveData | IDF_esp32p4_webrtc/components/media_lib_sal/port/data_queue.c:311-323 | True exactly for a queue that is not empty and has not quit. |
| DataQueueClass.DataQueue.Query | IDF_esp32p4_webrtc/components/media_lib_sal/port/data_queue.c:400-425 | Terminates with the number of blocks and the total payload of the abstract queue. |
| DataQueueClass.DataQueue.Fill | IDF_esp32p4_webrtc/components/media_lib_sal/port/data_queue.c:245-250 | The owner of a reservation copies bytes into it; no queued block changes. |
| DataQueueClass.DataQueue.Wakeup | IDF_esp32p4_webrtc/components/media_lib_sal/port/data_queue.c:126-128 | Marks the end and leaves all blocks alone. |
| FrameLayout.HeadRoundTrip | IDF_esp32p4_webrtc/components/av_render/src/av_render.c:240-240 | A frame header copied into a block is read back field by field. |
| FrameLayout.HeadFields | IDF_esp32p4_webrtc/components/av_render/include/av_render_types.h:133-138 | Time stamp, payload address, size and end flag stand at offsets 0, 4, 8 and 12, least significant byte first. |
| FrameLayout.ReadFrameExactly | IDF_esp32p4_webrtc/components/av_render/src/av_render.c:307-326 | A block is taken for a frame produced in place if its address and size lead to the block's end, for a copied one if its size is that of the bytes behind the header, and for none otherwise. |
| FrameLayout.AlignedDivides | IDF_esp32p4_webrtc/components/av_render/src/av_render.c:1041-1043 | Having the low bits 0 that the alignment has means being divisible by it. |
| FrameLayout.CopiedFrameIsRecovered | IDF_esp32p4_webrtc/components/av_render/src/av_render.c:232-326 | A frame put by copy comes back with its fields, and the reader's address is that of its payload, whatever pointer the producer's header held. |
| FrameLayout.InPlaceFrameIsRecovered | IDF_esp32p4_webrtc/components/av_render/src/av_render.c:307-326 | A frame produced in place is read back at the very address where it was produced. |
| FrameLayout.ClearLowAligns | IDF_esp32p4_webrtc/components/av_render/src/av_render.c:1041-1043 | Clearing the low bits of y for a power of two gives the largest aligned address not above y. |
| FrameLayout.FbFits | IDF_esp32p4_webrtc/components/av_render/src/av_render.c:1035-1045 | The aligned payload address lies behind the header and leaves room for the whole frame inside the reservation. |
| FrameQueue.PutFrame | IDF_esp32p4_webrtc/components/av_render/src/av_render.c:232-245 | The frame becomes one block exactly when the queue grants it; it is dropped exactly when it is too large or the queue has quit. |
| FrameQueue.ReadFrameFront | IDF_esp32p4_webrtc/components/av_render/src/av_render.c:307-326 | Decodes the oldest block, at the place where it was sent, into a frame with its payload address and leaves it queued. |
| FrameQueue.FifoEnough | IDF_esp32p4_webrtc/components/av_render/src/av_render.c:1687-1699 | Answers yes if and only if length word, header and payload fit the whole buffer of an empty queue, the space behind wp, or the gap in front of rp, and then putting the frame does not wait. |
| FrameQueue.FetchFb | IDF_esp32p4_webrtc/components/av_render/src/av_render.c:1027-1046 | Hands out a buffer exactly when the queue grants 16 bytes, payload and alignment, and none exactly for size 0, a request beyond the buffer, or a queue that has quit; the address is divisible by the alignment, the first such one behind the header, inside a held reservation, and in the header; queued frames are untouched. |
| FrameQueue.FrameReached | IDF_esp32p4_webrtc/components/av_render/src/av_render.c:1146-1152 | The frame's fields are stored in the held header, which keeps its own payload pointer. |
| FrameQueue.ReleaseFb | IDF_esp32p4_webrtc/components/av_render/src/av_render.c:1048-1064 | Releasing appends one block, which stands where the buffer was handed out and yields the same frame when it is read there; the send cannot fail. |
| FrameQueue.DropFb | IDF_esp32p4_webrtc/components/av_render/src/av_render.c:1059-1063 | Releasing with drop appends nothing. |
| FrameStream.HeldThroughReads | IDF_esp32p4_webrtc/components/av_render/src/av_render.c:1027-1064 | A frame buffer that has been handed out keeps its reservation, its header and its frame through read_lock, read_unlock, peek_unlock and consume_all. |
| FrameStream.FramesInOrder | IDF_esp32p4_webrtc/components/av_render/src/av_render.c:186-326 | End to end over all interleavings: when the blocks sent are a list of frames, copied or produced in place, a reader holding a block gets the next frame of the list, with its fields and payload, and one produced in place at the very address of its production. |
| QueuePlaces.PlacesStand | IDF_esp32p4_webrtc/components/media_lib_sal/port/data_queue.c:272-359 | Every queued block stands, byte for byte, at its place, the front one at rp. |
| QueuePlaces.SendPlaces | IDF_esp32p4_webrtc/components/media_lib_sal/port/data_queue.c:272-309 | A block that is sent stands where its reservation began, and no other one moves. |
| QueuePlaces.PopPlaces | IDF_esp32p4_webrtc/components/media_lib_sal/port/data_queue.c:378-392 | Dropping the front block moves no other one, also when rp and fill_end are reset. |
| PlaceRuns.QueuedInPlace | IDF_esp32p4_webrtc/components/media_lib_sal/port/data_queue.c:225-398 | In every state of every interleaving the queued blocks stand where they were sent. |
| PlaceRuns.ReadInPlace | IDF_esp32p4_webrtc/components/media_lib_sal/port/data_queue.c:325-359 | In every run a reader that holds a block has been given the very offset at which the writer had its reservation when it sent that block. |
| LogThreads.RunKeepsInv | IDF_esp32p4_webrtc/components/media_lib_sal/mem_trace/media_lib_mem_his.c:81-170 | In every reachable state: bytes of retired slices, then the full slices from head, then the partly filled slice, then the bytes still to be copied, are the concatenation of all accepted records. |
| LogThreads.FileCompleteExactly | IDF_esp32p4_webrtc/components/media_lib_sal/mem_trace/media_lib_mem_his.c:124-180 | Wherever stop is called: after the saver has finished, the file is the whole stream, and decodes to exactly the accepted events, if and only if no full slice was waiting and no record was unfinished when the saver left its loop, and none has been accepted since. |
| LogThreads.QuietStopExactly | IDF_esp32p4_webrtc/components/media_lib_sal/mem_trace/media_lib_mem_his.c:172-180 | When stop is called between two tracing calls, that is if and only if it was not called between the saver's tests of n and of stopping with a full slice waiting. |
| LogThreads.CutRun | IDF_esp32p4_webrtc/components/media_lib_sal/mem_trace/media_lib_mem_his.c:96-180 | A run in which a stop within a tracing call loses the accepted record. |
| LogThreads.TornRun | IDF_esp32p4_webrtc/components/media_lib_sal/mem_trace/media_lib_mem_his.c:129-145 | That loss does happen: a concrete run in which an accepted record never reaches the file. |
| LogThreads.FileIsPrefix | IDF_esp32p4_webrtc/components/media_lib_sal/mem_trace/media_lib_mem_his.c:124-147 | At every moment before the final write of the saver the file is a prefix of the stream of accepted records. |
| LogThreads.DrainedSliceUntouched | IDF_esp32p4_webrtc/components/media_lib_sal/mem_trace/media_lib_mem_his.c:96-141 | No step of the producer changes a byte of the slice that is being written to the file. |
| LogThreads.PollFails | IDF_esp32p4_webrtc/components/media_lib_sal/mem_trace/media_lib_mem_his.c:85-91 | A poll fails only on a full ring and for a record longer than a slice. |
| LogThreads.DropsOnlyGiants | IDF_esp32p4_webrtc/components/media_lib_sal/mem_trace/media_lib_mem_his.c:81-94 | A record that is dropped, after its five polls, is longer than a slice, and leaves no byte behind. |
| LogThreads.FullRingDrains | IDF_esp32p4_webrtc/components/media_lib_sal/mem_trace/media_lib_mem_his.c:99-103 | While the producer sleeps on a full ring it cannot move; as long as the saver is in its loop it has exactly one next step, and a measure of at most a slice and five steps falls with each of them until a slice is free. |
| LogThreads.FullRingForEver | IDF_esp32p4_webrtc/components/media_lib_sal/mem_trace/media_lib_mem_his.c:99-146 | Once the saver has seen stop, a producer that sleeps on a full ring sleeps in every later state of every run. |
| LogRing.CopyAppends | IDF_esp32p4_webrtc/components/media_lib_sal/mem_trace/media_lib_mem_his.c:104-120 | One turn of the copy loop appends exactly the bytes it took to the logged stream, also when it completes a slice. |
| LogRing.CopyAllAppends | IDF_esp32p4_webrtc/components/media_lib_sal/mem_trace/media_lib_mem_his.c:96-122 | his_write appends the data in order and stops short only on a full ring. |
| LogRing.RetireDrops | IDF_esp32p4_webrtc/components/media_lib_sal/mem_trace/media_lib_mem_his.c:130-140 | Retiring removes exactly the oldest full slice from the front of the stream. |
| LogRing.EnoughExactly | IDF_esp32p4_webrtc/components/media_lib_sal/mem_trace/media_lib_mem_his.c:86-88 | A record is accepted if and only if the ring is not full or the record is no longer than a slice. |
| LogRing.SaveHis.CopyOnce | IDF_esp32p4_webrtc/components/media_lib_sal/mem_trace/media_lib_mem_his.c:104-120 | One turn on the object: the new state and the remaining bytes, and what the stream gained. |
| LogRing.SaveHis.Write | IDF_esp32p4_webrtc/components/media_lib_sal/mem_trace/media_lib_mem_his.c:96-122 | his_write on the object, up to its end or its next sleep: what has been stored is appended, the rest is returned, only on a full ring. |
| LogRing.SaveHis.OldestSlice | IDF_esp32p4_webrtc/components/media_lib_sal/mem_trace/media_lib_mem_his.c:131-131 | The computed head is the slice with which the held stream begins. |
| LogRing.SaveHis.RetireSlice | IDF_esp32p4_webrtc/components/media_lib_sal/mem_trace/media_lib_mem_his.c:138-140 | Decrementing n takes exactly that slice off the stream. |
| LogRecords.DecodeEncode | IDF_esp32p4_webrtc/components/media_lib_sal/mem_trace/media_lib_mem_his.c:46-59 | A record at the front of a log is read back whole, whatever follows it. |
| LogRecords.RecordFields | IDF_esp32p4_webrtc/components/media_lib_sal/mem_trace/media_lib_mem_his.c:41-58 | Every field of both packed records at its offset, with the marks '+' and '-', and the frames behind the first. |
| LogRecords.DecodeAllEncodeAll | IDF_esp32p4_webrtc/components/media_lib_sal/mem_trace/media_lib_mem_his.c:237-260 | The log is self-delimiting: decoding a concatenation of records gives back exactly the events, in order. |
| TraceRuns.RunKeepsInv | IDF_esp32p4_webrtc/components/media_lib_sal/mem_trace/media_lib_mem_trace.c:177-307 | Over every legal run with one-step resizes (media_lib_module_realloc holds the mutex throughout) each live block is in exactly one place, with its size and the module of the name it was asked for under, module names are distinct, and all totals agree with the records modulo 2^32. |
| TraceExact.TableExactly | IDF_esp32p4_webrtc/components/media_lib_sal/mem_trace/media_lib_mem_trace.c:396-411 | With one-step resizes: throughout a run the table is the map of live blocks to sizes and modules, if and only if every event found a slot for its record and no resize failed. |
| TraceExact.UsageExactly | IDF_esp32p4_webrtc/components/media_lib_sal/mem_trace/media_lib_mem_trace.c:396-411 | With one-step resizes: while the total does not wrap, mem_usage is the size of all live blocks throughout a run, if and only if no event fails to resize a recorded block or releases an unrecorded one, empty blocks apart. |
| TraceExact.PeakIsMaximum | IDF_esp32p4_webrtc/components/media_lib_sal/mem_trace/media_lib_mem_trace.c:179-182 | The peak is the largest total of the run. |
| TraceExact.LiveTotals | IDF_esp32p4_webrtc/components/media_lib_sal/mem_trace/media_lib_mem_trace.c:177-270 | The sum over the map of live blocks, in any order, is the sum over the records that the table and the books hold. |
| TracePeaks.ModulePeakIsMaximum | IDF_esp32p4_webrtc/components/media_lib_sal/mem_trace/media_lib_mem_trace.c:190-195 | The peak of a module is the largest usage that it has had right after it was charged. |
| TraceModules.ModuleUsage | IDF_esp32p4_webrtc/components/media_lib_sal/mem_trace/media_lib_mem_trace.c:186-209 | A module's usage is, modulo 2^32, the size of the live blocks that were asked for under its name, and a gap made of leaked, orphaned and ownerless blocks. |
| TraceModules.ModulesExactly | IDF_esp32p4_webrtc/components/media_lib_sal/mem_trace/media_lib_mem_trace.c:396-411 | With one-step resizes: while the total does not wrap, every module's usage is the size of the live blocks of its name throughout a run, if and only if no event fails to resize a recorded block, takes an ownerless block out of the table, or releases an owned one that the table does not hold, empty blocks apart. |
| ResizeSteps.RunMeans | IDF_esp32p4_webrtc/components/media_lib_sal/mem_trace/media_lib_mem_trace.c:348-360 | Over all interleavings with resizes whose allocator call is outside the mutex: what the trace is to hold is what the allocator has handed out, up to the resizes that are pending, and exactly that when none is. |
| ResizeExact.RecordsExactly | IDF_esp32p4_webrtc/components/media_lib_sal/mem_trace/media_lib_mem_trace.c:272-360 | Over all these interleavings: the table holds exactly the records of those blocks throughout a run, if and only if every removal has found the record of the block that went (or one just like it), none when no block went, and every new block a slot. |
| ResizeTotals.TotalExactly | IDF_esp32p4_webrtc/components/media_lib_sal/mem_trace/media_lib_mem_trace.c:177-210 | Over all these interleavings: mem_usage is the size of those blocks throughout a run, if and only if every removal has found a record of the size of the block that went. |
| ResizeTotals.SharesExactly | IDF_esp32p4_webrtc/components/media_lib_sal/mem_trace/media_lib_mem_trace.c:177-210 | Over all these interleavings: every module's usage is the size of those blocks of its name throughout a run, if and only if every removal has taken from each module what the block that went had there. |
| ResizeRuns.ShadowAgrees | IDF_esp32p4_webrtc/components/media_lib_sal/mem_trace/media_lib_mem_trace.c:348-360 | As long as no address that a pending resize has given back is told to the trace again, the trace is at every moment that of a legal run with one-step resizes, and holds what is live there. |
| ResizeApart.CausesExactly | IDF_esp32p4_webrtc/components/media_lib_sal/mem_trace/media_lib_mem_trace.c:348-360 | In such runs table, total and module totals are exact throughout if and only if none of the events of one-step resizes happens that make them wrong. |
| ResizeApart.WrongRecordTaken | IDF_esp32p4_webrtc/components/media_lib_sal/mem_trace/media_lib_mem_trace.c:348-360 | A run in which the freed address is handed out in between: the removal takes the record of the new block, and the total ends at 30 with 28 bytes live, although no slot was missing and no resize failed. |
| TraceModules.FirstModuleLoses | IDF_esp32p4_webrtc/components/media_lib_sal/mem_trace/media_lib_mem_trace.c:200-210 | A run after which the first module is charged 6 while 10 are live under its name. |
| TraceModules.FailedResizeLoses | IDF_esp32p4_webrtc/components/media_lib_sal/mem_trace/media_lib_mem_trace.c:396-411 | A run in which a failed resize loses the record and the size of a live block. |
| TraceModules.FullTableLeaks | IDF_esp32p4_webrtc/components/media_lib_sal/mem_trace/media_lib_mem_trace.c:228-236 | A run in which the size of a released block stays in the total because the table was full. |
| TraceRuns.StepKeepsInv | IDF_esp32p4_webrtc/components/media_lib_sal/mem_trace/media_lib_mem_trace.c:272-360 | Every allocation, release and resize, successful or not, keeps the invariant. |
| TraceRuns.AddTraceNames | IDF_esp32p4_webrtc/components/media_lib_sal/mem_trace/media_lib_mem_trace.c:177-198 | The module that is charged is the one of the requested name, found or created; no two modules have the same name; without a charge there was no name, no tracing by module, or no room. |
| TraceTable.SwapRemoveKeepsOthers | IDF_esp32p4_webrtc/components/media_lib_sal/mem_trace/media_lib_mem_trace.c:260-270 | Swap-with-last removal forgets exactly one address and keeps every other record. |
| TraceTable.SumsWithout | IDF_esp32p4_webrtc/components/media_lib_sal/mem_trace/media_lib_mem_trace.c:260-270 | Removal lowers the total and every module's share by exactly the removed record. |
| TraceTable.Find | IDF_esp32p4_webrtc/components/media_lib_sal/mem_trace/media_lib_mem_trace.c:212-226 | The first record of an address, and no earlier one. |
| TraceDriver.MemTrace.Add | IDF_esp32p4_webrtc/components/media_lib_sal/mem_trace/media_lib_mem_trace.c:272-293 | add_trace on the object, including the debugging trap on size 860 when a slot is free, and the overflow flag, which tells whether a slot was missing. |
| TraceDriver.MemTrace.Remove | IDF_esp32p4_webrtc/components/media_lib_sal/mem_trace/media_lib_mem_trace.c:295-307 | remove_trace on the object. |
| TraceDriver.MemTrace.AddMemUsage | IDF_esp32p4_webrtc/components/media_lib_sal/mem_trace/media_lib_mem_trace.c:177-198 | Totals, the charged module (created if new and at most 256) and the id that is returned. |
| TraceDriver.MemTrace.RemoveTraceItem | IDF_esp32p4_webrtc/components/media_lib_sal/mem_trace/media_lib_mem_trace.c:260-270 | The in-place removal is the swap-with-last of the record prefix. |
| TraceDriver.MemTrace.GetTraceItem | IDF_esp32p4_webrtc/components/media_lib_sal/mem_trace/media_lib_mem_trace.c:212-226 | The search loop finds the first record of the address or none. |
| PeerOverlap.KeptExactly | IDF_esp32p4_webrtc/components/esp_webrtc/src/esp_webrtc.c:505-806 | In every run of two unserialised control threads: up to a state, nothing that pc_task and the calls under way can do breaks a promise (exclusion, life of peer and event group, no RESUME left over, no wait in vain) if and only if no call has begun within another one. |
| PeerOverlap.OverlapBreaks | IDF_esp32p4_webrtc/components/esp_webrtc/src/esp_webrtc.c:505-806 | As soon as a call begins within another one, pc_task and the calls under way have a way to go on that breaks a promise. |
| PeerOverlap.CallWithinBye | IDF_esp32p4_webrtc/components/esp_webrtc/src/esp_webrtc.c:505-527 | So it is for an enabling or a closing that begins anywhere between a BYE's test of running and its clearing of pause. |
| PeerOverlap.ByeWithinCall | IDF_esp32p4_webrtc/components/esp_webrtc/src/esp_webrtc.c:676-701 | So it is for a BYE that arrives anywhere between the beginning of an enabling or closing and its clearing of pause or running. |
| PeerOverlap.OpenWithinDestroy | IDF_esp32p4_webrtc/components/esp_webrtc/src/esp_webrtc.c:522-525 | So it is for a peer that is opened when the event group of the last one is about to be destroyed. |
| PeerPromises.InvIsKept | IDF_esp32p4_webrtc/components/esp_webrtc/src/esp_webrtc.c:279-294 | From a state that keeps the invariant, nothing that pc_task and the calls under way can do breaks a promise. |
| PeerTask.NextKeepsInv | IDF_esp32p4_webrtc/components/esp_webrtc/src/esp_webrtc.c:279-806 | Every step of pc_task and of either control thread, and every call that begins outside the others, keeps the invariant. |
| PeerPromises.Exclusion | IDF_esp32p4_webrtc/components/esp_webrtc/src/esp_webrtc.c:279-294 | In every state of every run without overlap: while the BYE handler holds its acknowledgement, and as long as the task stays paused, pc_task is outside the peer's main loop and cannot move; whenever it runs, peer and event group exist; both go only when it has left. |
| PeerPromises.PauseIsAnswered | IDF_esp32p4_webrtc/components/esp_webrtc/src/esp_webrtc.c:684-687 | In every run without overlap the wait for PAUSED ends: at most six moves of pc_task and of a thread about to set RESUME serve it, the next of them can always be made and brings it nearer, and no step of anybody takes it farther away. |
| PeerPromises.ExitIsAnswered | IDF_esp32p4_webrtc/components/esp_webrtc/src/esp_webrtc.c:505-518 | The same for the wait for EXIT, with at most five moves, also from a pause. |
| PeerRuns.ExclusionBreaks | IDF_esp32p4_webrtc/components/esp_webrtc/src/esp_webrtc.c:505-527 | A run from the start in which a close within a BYE brings pc_task into the main loop during the exclusive part. |
| PeerRuns.CloseIsAbandoned | IDF_esp32p4_webrtc/components/esp_webrtc/src/esp_webrtc.c:511-518 | A run in which a BYE between the closer's test of pause and its write to running leaves the closer waiting for EXIT in vain. |
| PeerRuns.LeftOverBreaksExclusion | IDF_esp32p4_webrtc/components/esp_webrtc/src/esp_webrtc.c:676-701 | A run in which the RESUME left over by an enabling within the end of a BYE lets a later BYE, which overlaps with nothing, work while pc_task is in its main loop. |
| CfgText.PrintThenParse | IDF_esp32p4_webrtc/components/codec_board/cfg_parse.c:87-183 | For every list of lines made of words, parsing the printed text returns the lines up to the first of type "Board", hence all of them, types and pairs in order, if and only if there is none. |
| CfgText.ParsePrintedLine | IDF_esp32p4_webrtc/components/codec_board/cfg_parse.c:114-183 | A printed line is one section with its type, its pairs in order and its brace; a printed "Board" line ends the parse. |
| CfgText.BoardTest | IDF_esp32p4_webrtc/components/codec_board/cfg_parse.c:29-41 | A printed type is taken for the board section exactly when it is the word "Board". |
| CfgText.ScanPrinted | IDF_esp32p4_webrtc/components/codec_board/cfg_parse.c:152-181 | The body loop reads the printed attribute and value words back in order. |
| CfgParser.ParseCfg | IDF_esp32p4_webrtc/components/codec_board/cfg_parse.c:551-570 | On every text on which the loop ends, it ends with the outcome that its turns lead to: a result, a read past the end in search of a brace, or a negative length. |
| CfgParser.FillCfg | IDF_esp32p4_webrtc/components/codec_board/cfg_parse.c:512-549 | Accepts at most two sections of each bus, two codecs and one of each other kind, a codec if and only if its ports are numbers below those of the buses taken in and its chip is one of the five, and every unknown section. |
| CfgParser.FillCodec | IDF_esp32p4_webrtc/components/codec_board/cfg_parse.c:390-426 | Accepts a codec if and only if there is room, every i2c_port and i2s_port is below the number of such buses taken in, and every codec word is one of the five chips; it leaves at the first attribute that is not. |
| CfgFill.FillExactly | IDF_esp32p4_webrtc/components/codec_board/cfg_parse.c:185-549 | The verdicts of fill_cfg kind by kind, with the limits as numbers. |
| CfgFill.AtoiIsDecimal | IDF_esp32p4_webrtc/components/codec_board/cfg_parse.c:403-404 | A port is the decimal value of the digits at the front of its word, negative behind a minus sign. |
| CfgParser.ReadSection | IDF_esp32p4_webrtc/components/codec_board/cfg_parse.c:114-183 | parse_section on the text, with `consume` updated only when the closing brace is found. |
| CfgParser.ScanBody | IDF_esp32p4_webrtc/components/codec_board/cfg_parse.c:149-181 | The loop stops at the first closing brace, and its pairs are the words of the body, two by two. |
| CfgReading.BodyPairs | IDF_esp32p4_webrtc/components/codec_board/cfg_parse.c:149-181 | So does the scan, for every text. |
| CfgParser.FindName | IDF_esp32p4_webrtc/components/codec_board/cfg_parse.c:117-136 | The search loop finds the first character of a word that is not between a '#' and the end of its line. |
| CfgReading.FirstWord | IDF_esp32p4_webrtc/components/codec_board/cfg_parse.c:117-136 | So does the search, for every text. |
| CfgReading.WordCharacters | IDF_esp32p4_webrtc/components/codec_board/cfg_parse.c:23-27 | The characters of words, one by one. |
| CfgParser.StrSame | IDF_esp32p4_webrtc/components/codec_board/cfg_parse.c:29-41 | True exactly when the word stands here as a whole word. |
| CfgParser.PrintCfgLine | IDF_esp32p4_webrtc/components/codec_board/cfg_parse.c:87-99 | The printing loop writes the line, with a separator behind every pair but the last. |
| CfgFill.NeverEndsExactly | IDF_esp32p4_webrtc/components/codec_board/cfg_parse.c:551-570 | The loop of parse_cfg never ends if and only if the first section has no closing brace and a type that fill_cfg does not know. |
| CfgFill.UnclosedKnownFails | IDF_esp32p4_webrtc/components/codec_board/cfg_parse.c:564-568 | A first section without closing brace and of a known type ends the loop with an error by the third turn. |
| CfgFill.MovingEnds | IDF_esp32p4_webrtc/components/codec_board/cfg_parse.c:554-560 | Once a closed section has been met every turn moves on, by the stale length when a brace is missing, and the loop ends. |
| CfgFill.EndlessText | IDF_esp32p4_webrtc/components/codec_board/cfg_parse.c:551-560 | A text on which the loop never ends. |
| CfgFill.RefusedText | IDF_esp32p4_webrtc/components/codec_board/cfg_parse.c:187-189 | A text that is refused in the third turn. |
| CfgFill.StaleText | IDF_esp32p4_webrtc/components/codec_board/cfg_parse.c:152-156 | A text on which the stale length takes the loop past the end of the text. |
| CfgFill.ClosedRuns | IDF_esp32p4_webrtc/components/codec_board/cfg_parse.c:551-570 | On closed sections the loop returns, with success if and only if fill_cfg takes in every section, and then with all of them in order. |
| CfgFill.PrintedRuns | IDF_esp32p4_webrtc/components/codec_board/cfg_parse.c:87-99 | On printed lines it returns with success if and only if fill_cfg accepts the lines up to the first "Board" one, and has then taken in exactly those. |
| RtpTransform.RoundTrip | IDF_esp32p4_webrtc/main/webrtc.c:448-555 | For every packet of at least 12 bytes within the 1300-byte limit and every counter: the announced size is the written size, and the receiver accepts the frame and restores the packet. |
| RtpTransform.UnwrapLayout | IDF_esp32p4_webrtc/main/webrtc.c:502-555 | The same for any tail: accepted, and taken apart into the same packet and tail. |
| RtpTransform.AcceptedIsLayout | IDF_esp32p4_webrtc/main/webrtc.c:508-521 | The receiver accepts nothing else: an accepted frame is the layout of what it is taken apart into. |
| RtpTransform.LayoutParts | IDF_esp32p4_webrtc/main/webrtc.c:465-500 | Header of 12 bytes, payload length, payload, tail length and tail, each at its offset. |
| RtpTransform.TailParts | IDF_esp32p4_webrtc/main/webrtc.c:475-477 | The tail is "TAIL_", the counter in decimal without a leading zero, and a NUL. |
| RtpTransform.Transformer.SenderSize | IDF_esp32p4_webrtc/main/webrtc.c:448-463 | Refuses video and frames over the limit, and otherwise announces the size that will be written. |
| RtpTransform.Transformer.SenderTransform | IDF_esp32p4_webrtc/main/webrtc.c:465-500 | Writes exactly the layout of the packet and the tail of the current counter, and counts the frame. |
| RtpTransform.Transformer.ReceiverSize | IDF_esp32p4_webrtc/main/webrtc.c:502-524 | Accepts exactly the well-formed frames (with the 32-bit sum of the code), counts the others, also those that are too short, as errors, and announces the packet's size. |
| RtpTransform.Transformer.ReceiverTransform | IDF_esp32p4_webrtc/main/webrtc.c:526-555 | Restores the packet in place or by copy exactly when the tail has the expected text. |
| MotorControl.ConvergesExactly | IDF_robot_control/main/control/control_callback.c:221-260 | With the request held fixed, motion and speed equal it after n ticks if and only if n reaches a computed bound, which never exceeds 54. |
| MotorControl.ReversalTakes54 | IDF_robot_control/main/control/control_callback.c:13-17 | The bound 54 is reached. |
| MotorControl.StopsWithin22 | IDF_robot_control/main/control/control_callback.c:221-260 | A requested stop brings the speed to 0 exactly from a computed tick on, at the latest the 22nd, and it stays there. |
| MotorControl.TickIsGentle | IDF_robot_control/main/control/control_callback.c:221-260 | A tick moves the speed by +8 or -12 at most and changes the motion only from standstill. |
| MotorControl.AlwaysSound | IDF_robot_control/main/control/control_callback.c:211-335 | Over all interleavings of messages, ticks and polls the speeds stay in 0..255 and a stop means zero speed. |
| MotorControl.WatchdogStops | IDF_robot_control/main/control/control_callback.c:390-399 | A poll more than a second after the last heard message leaves a stop requested until something is heard. |
| MotorControl.SpeedFalls | IDF_robot_control/main/control/control_callback.c:221-260 | While a stop is requested and nothing is heard, the speed is exactly what 12 per tick leave of it, whatever happens between the ticks. |
| MotorControl.SilenceBringsStandstill | IDF_robot_control/main/control/control_callback.c:390-399 | A silent second and 22 ticks in whatever silent sequence of events follows leave the drive at zero speed. |
| MotorDriver.Driver.ControlTick | IDF_robot_control/main/control/control_callback.c:221-260 | Keeps the interlock (no pin written under power, equal duties, pins showing the motion), and moves every duty by +8 or -12 at most. |
| MotorDriver.Driver.ApplyDirection | IDF_robot_control/main/control/control_callback.c:117-209 | Writes, motion by motion, the levels of the eight direction pins without power, and leaves all duties at 0. |
| MotorDriver.Driver.HandleMessage | IDF_robot_control/main/control/control_callback.c:276-335 | Type by type what a message changes: 8, 2, 4, 6, 7 and 9 request forward, backward, left, right and the two rotations, at the speed behind the type (at most 255) or the configured one; 5 a stop; 10 sets the configured speed, and the requested one if a motion is requested; 66 reboots; the others change only the time stamp. The interlock stays. |
| MotorControl.MessageObeys | IDF_robot_control/main/control/control_callback.c:264-335 | The same of the message as a function. |
| MotorDriver.Driver.UpdateLed | IDF_robot_control/main/control/control_callback.c:390-399 | A poll more than a second after the time stamp requests the stop and takes its time as the stamp; any other changes nothing; the interlock stays. |
| MotorDriver.Driver.SetMotionTarget | IDF_robot_control/main/control/control_callback.c:211-219 | The requested speed is the value of 0..255 nearest to the one given, 0 for a stop, and the control stays sound. |
| ColorConvert.IndexBijective | IDF_esp32p4_webrtc/components/av_render/src/color_convert.c:68-68 | The table index is a bijection between the quantised triples and 0..65535. |
| ColorConvert.InitTable | IDF_esp32p4_webrtc/components/av_render/src/color_convert.c:61-104 | Every one of the 65536 entries holds the leading five, six and five bits of the red, green and blue that the code computes for it, with its bytes exchanged for the big-endian target. |
| ColorConvert.EntryShows | IDF_esp32p4_webrtc/components/av_render/src/color_convert.c:37-79 | So does an entry, for both targets. |
| ColorConvert.EntryFits | IDF_esp32p4_webrtc/components/av_render/src/color_convert.c:69-79 | Every entry is a 16-bit value. |
| ColorConvert.LastIsLargest | IDF_esp32p4_webrtc/components/av_render/src/color_convert.c:159-174 | For every width and height the last turn makes the largest accesses of the loop. |
| ColorConvert.InsideExactly | IDF_esp32p4_webrtc/components/av_render/src/color_convert.c:193-199 | Of the frames that pass the two size tests, all accesses are inside if and only if width and height are even, or the width is 2, or the frame is empty, whatever the size of the output. |
| ColorConvert.OutputExactly | IDF_esp32p4_webrtc/components/av_render/src/color_convert.c:159-174 | The stores alone stay inside if and only if the output has room for the width rounded up to even. |
| ColorConvert.FourByOneOverruns | IDF_esp32p4_webrtc/components/av_render/src/color_convert.c:159-171 | A 4 x 1 frame that passes the tests and is read past its end. |
| ColorConvert.ThreeByTwoOverruns | IDF_esp32p4_webrtc/components/av_render/src/color_convert.c:159-171 | A 3 x 2 frame that passes them, is read past its end and stored past the end of the output. |
| ColorConvert.Yuv420ToRgb565 | IDF_esp32p4_webrtc/components/av_render/src/color_convert.c:151-180 | For every size whose accesses are inside, the loop with its running positions stores at each pixel the table entry of the samples it looks up, and nothing behind its pixels. |
| ColorConvert.EvenChroma | IDF_esp32p4_webrtc/components/av_render/src/color_convert.c:175-178 | For an even width the running chroma position is that of the pixel's 2 x 2 square. |
| ColorConvert.LookUpIsWanted | IDF_esp32p4_webrtc/components/av_render/src/color_convert.c:61-171 | In an initialised table the look-up for pixel (r, c) of an even frame yields the entry of Y[r, c], U[r/2, c/2] and V[r/2, c/2]. |
| ColorConvert.ConvertColor | IDF_esp32p4_webrtc/components/av_render/src/color_convert.c:192-215 | With the table of its target it converts exactly the frames whose sizes pass its two tests: every pixel of an even frame shows its own luma and the chroma of its 2 x 2 square, bit by bit; on failure the output is untouched. |
| Supervisor.StampsAgree | IDF_esp32p4_webrtc/main/main.c:222-249 | In every run the last open request is cleared or equals the last heartbeat. |
| Supervisor.ExpiredPassStops | IDF_esp32p4_webrtc/main/main.c:295-318 | Recovery and heartbeat stop never compete, and a pass that finds the heartbeat expired ends with WebRTC stopped. |
| Supervisor.SilenceStops | IDF_esp32p4_webrtc/main/main.c:312-317 | In every run a pass more than 45 s after the last keep-alive leaves the session stopped. |
| Supervisor.StuckIsRestarted | IDF_esp32p4_webrtc/main/main.c:295-309 | In every run a pass within those 45 s restarts the session if it has not connected for more than 20 s and the last recovery is more than 15 s ago, and touches nothing otherwise. |
| Supervisor.ConnectedRuns | IDF_esp32p4_webrtc/main/main.c:276-280 | Only a running session is connected. |
| Supervisor.AtMostTwoRecoveries | IDF_esp32p4_webrtc/main/main.c:295-309 | At most two recoveries between one OPEN or HEARTBEAT and the next, over unbounded time. |
| Supervisor.TwoRecoveriesHappen | IDF_esp32p4_webrtc/main/main.c:36-39 | Two do happen. |
| Supervisor.Control.ControlLoop | IDF_esp32p4_webrtc/main/main.c:276-318 | When a pass expires the heartbeat and when it recovers, in terms of stamps and seconds; an expired one ends stopped with both stamps cleared and neither action due at any later time; a recovering one restarts, notes its time and is followed by none for the cooldown; any other changes nothing; the stamps stay in agreement. |
| Supervisor.Control.Command | IDF_esp32p4_webrtc/main/main.c:222-249 | OPEN and HEARTBEAT stamp both times, whether a session runs or is started, so that none expires for 45 s; CLOSE stops the session and clears the open request, so that no recovery is due at any later time; other commands change nothing; the stamps stay in agreement. |
| Supervisor.Control.NetworkLost | IDF_esp32p4_webrtc/main/main.c:327-334 | A lost network brings the supervisor back to the state of power-up. |

## Left out

Data queue
- DataQueueClass.DataQueue.GetBuffer: one pass of the loop up to its return or to the wait; the loop around the wait, and the writer lock that admits one writer at a time, are steps of `QueueThreads`. The same holds for `ReadLock`.
- QueuePromises.NoDeadlock: one writer, one reader, one flusher and one waker, and a flusher that does not start while the reader holds a block (`av_render.c:1831-1833` may start it then; the reader's release would drop another block).
- QueuePromises.ParkedForAReason: safety at every state; fairness of the scheduler, which turns it into a promise about time, is not modelled.
- DataQueueClass.DataQueue.Wakeup: the first statement; the notifications and the wait for users are steps of `QueueThreads`.
- NULL queues, negative sizes, allocation failures, `data_queue_get_write_data` and the destruction of a queue.
- Length words are read as unsigned; as a buffer holds at most 2^31 - 1 bytes, the signed test of the code and the unsigned one agree.

Frames
- FrameQueue.PutFrame: the mode with a data pool, and the compressed video header with its additional key-frame flag.
- FrameQueue.ReadFrameFront: after a length mismatch the code keeps the block locked, and so does the model; what its callers do then is not modelled.
- FrameQueue.FifoEnough: the branches without any queue.
- FrameStream.FramesInOrder: what the writer has put into its reservation when it sends is taken from `FrameQueue` (a copied frame, or a frame buffer with its picture); the run is that of the data queue's threads.
- The render threads, their message queues (the source of `msg_q` is not part of this model), flushing and `render_thread`'s lifetime.

Allocation log
- LogThreads.FileCompleteExactly: stop is called after the saver has started; the number and the length of the unfinished slice are read in one step, although the code reads them one after the other; write() is taken to store every byte; slices of zero bytes (a cache of less than four bytes) are excluded.
- LogRecords.DecodeEncode: the reserved byte of a record, which the code leaves uninitialised, is part of the event.
- Opening and closing the file, and the use of libc streams instead of descriptors.

Allocation trace
- TraceDriver.MemTrace.Add: saved call stacks (the removal does not copy them), the log call, and failure to allocate a module.
- TraceExact.TableExactly: the item counter is unbounded (16 bits in the code), and negative sizes are excluded. A resize to size 0 that yields no block is a release.
- ResizeSteps.RunMeans: allocating and telling the trace are one step, and so are telling it of a release and releasing, because nobody else can be given the address in between; the sums are taken to stay below 2^32.
- The leak report and switching tracing on and off while blocks are live.

Peer task
- PeerOverlap.KeptExactly: closing from inside `pc_task`, which the Janus path of `webrtc.c` does, and failure to create the event group or the task are excluded; opening is one step, from the test of the peer to the start of the task, and so is the closer's test of the peer with its reading of running.
- Media streams, codecs and signalling around the handshake.

Board configuration
- CfgParser.ParseCfg: a text without any '{' after a section type, or a negative remaining length, makes the code read outside the text; the model ends there (`Overrunning`, `Outside`). Failure to allocate is left out.
- CfgFill.NeverEndsExactly: of what `fill_cfg` stores, only the counts are modelled; numbers beyond 32 bits are taken modulo 256 like the others.
- The search for the board's part of the text.

RTP transformers
- RtpTransform.Transformer.ReceiverSize: length words so large that 32-bit sums wrap, which the code does not test, are excluded.
- RtpTransform.Transformer.ReceiverTransform: a comparison with the expected text that would read past the buffer is excluded.
- The content of the decimal counter beyond its use as a text of some length.

Drive
- MotorDriver.Driver.HandleMessage: the time stamp is written in the same step as the request, although the code writes it after releasing the lock; the reboot ends the model.
- MotorDriver.Driver.UpdateLed: the test of the time stamp, its update and the stop are one step, although the code holds the lock only for the stop; a message handled in between is overridden by the stop.
- Failures of the port expander, the standby pin, the LED, and servo control.

Colour conversion
- ColorConvert.ConvertColor: what passes its tests without having a safe size reads outside its buffers and is excluded; the native routine of the ESP32-P4 for RGB565, the trap on an unknown source format, and the little-endian bytes of the 16-bit units are not modelled.
- ColorConvert.InitTable: no claim that the colours are right: the code mixes bits of y into u.

Supervisor
- Supervisor.Control.ControlLoop: status messages are left out, and a pass is one step although commands arrive on another thread; sessions started from the command line are not modelled.
