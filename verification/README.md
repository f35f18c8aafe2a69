# lloogg in Dafny

lloogg keeps, for every user, the last N events in a ring buffer. PUSH and DEL are written to an
append-only log before they are applied, a forked child writes snapshots of the store, and a restart loads
the snapshot and replays the log entries that are newer. Idle users are evicted by a worker thread behind
two lock-free queues, and clients talk to a single-threaded event loop over a binary protocol. This project
models those parts and proves what they promise together.

`dafny verify dfyconfig.toml` checks everything.

## How it fits together

| files | what they hold |
|---|---|
| `Bytes`, `Records`, `Operations` | little-endian integers, the 17-byte record, and the abstract store `map<user, last N records>` that everything is measured against |
| `Slab`, `SlabHeap`, `Store` | one flat byte slab in which free-list links and records occupy the same bytes; the class `Store` over it |
| `AofCodec`, `Replay`, `SnapshotFile`, `TornSnapshot`, `Restart`, `Recovery` | log entries and snapshot files as bytes, whole or cut off, what reading any byte string yields, and the methods that do it on a `Store` |
| `Aging`, `Durability`, `DurabilityInvariant`, `CrashSafety` | the server as a transition system: logging, applying, evicting, forking, renaming, syncing, crashing and restarting, any number of times |
| `Modular`, `AofRing`, `AofRingProgress`, `FlushedLog`, `AofWriter` | the byte ring between event loop and flush thread, first in every interleaving, with why it never waits for good, then as the class the event loop calls |
| `BitMask`, `Spsc`, `Ttl`, `TtlProgress`, `TtlRefinement` | the queues with stale and wrapping counters, the eviction pipeline that runs over two of them, how it comes to evict, and why each of its interleavings is a run of the durability model |
| `Wire`, `Conversation`, `Fairness`, `Commands`, `Connection` | the protocol, the connection state machine under arbitrary partial, blocked and failing reads and writes, why it comes to its end, and the commands on the real store and log |
| `SerialOrder`, `Schedule`, `EndToEnd`, `EventLoop` | the loop over any number of connections, with evictions, snapshots and restarts: the one order of all it does, what a schedule of events makes of its clients and store, and the run of the durability model that it is |

## Premises

The transition systems take these from the environment; `Enabled` in each module and `Schedules.Timely` state them.

- The clock reads times after the epoch and does not run backwards, and an operation after a fork reads a later
  time than the fork did.
  `Replay.CutoffExactIffClockSeparates` shows that the timestamp cutoff is exact if and only if this holds, and
  `CrashSafety.TiedWriteIsLost` gives the input that loses a write when it does not. The specification
  (specification.md:234) says that nanosecond precision alone is enough.
- `write(2)` writes what it is given, and `rename(2)` is atomic.
- A server that goes on after a crash found its log at an entry boundary. The file is reopened for appending
  and never cut back; `CrashSafety.GoingOnIsSafeIffAtBoundary` shows, for every run and every cut, that this is
  the exact condition under which what is appended later can be read. A crash that nobody restarts from may
  cut the log at any byte.
- A crash takes the snapshot child with it.
- N is between 1 and 3854, there is at least one slot, and there are fewer than 2^32.

## What turned out false

- The answers a client gets are not a function of its requests alone, even when it is the only client: a key may be
  evicted between two of them. They are a function of the order of commands and evictions
  (`EventLoops.EventLoop.OneOrder`), and of the requests alone if nothing is evicted
  (`EventLoops.EventLoop.AloneIsDeterministic`).
- A restart may fail although the live server never ran out of slots: evictions are not logged, so replay may
  need slots that eviction had freed (`CrashSafety.EvictionCanBlockRestart`). The exact condition is
  `CrashSafety.RestartSucceedsIffFits`; without evictions since the snapshot the restart fits unless the last
  entry is an unapplied PUSH with no room (`CrashSafety.CrashConsistency`).
- A PUSH for which no slot is left kills the server after its entry was logged, and every restart that finds
  the entry dies on it again, whatever was evicted (`CrashSafety.ExhaustingPushBlocksRestart`).
- A snapshot file that was cut off does not always load to a part of what was dumped: if the cut leaves 14 to 16 bytes
  of a record and another key was to follow, those bytes are taken for a key, and a user appears that nobody wrote
  (`TornSnapshot.PhantomUser`; the exact condition is `TornSnapshot.TornSnapshotIsPartIff`).
- A write in the same nanosecond as a fork, but after it, is skipped by replay (`CrashSafety.TiedWriteIsLost`).
- After a torn tail, entries appended by the next run are misread (`AofCodec.SafeToAppendIffAtBoundary`).

Where code and documentation differ the model follows the code: a DEL goes from the header straight to
processing (specification.md:220 has it pass through the payload state), loading ignores the snapshot's
version byte (specification.md:683 has it checked), and exhaustion is a failed assertion rather than `exit(1)`.

## Model

| member | source | states |
|---|---|---|
| Bytes.DecodeConcat | src/connection.rs:46-55 | multi-byte integers have their low bytes first, as `from_le_bytes` reads them |
| Records.RecordLayout | src/record.rs:4-13 | where each byte of a record's fields lies |
| Records.RecordRoundTrip | src/record.rs:4-13 | a record written as its 17 packed bytes is read back unchanged |
| Records.DecodeRecord | src/recovery.rs:60-62 | reading 17 bytes as a record loses nothing: encoding the result gives the same bytes |
| Operations.HistoryDecidesContents | src/ring_buffer.rs:22-30 | after any history of PUSH and DEL a user is present exactly when something was pushed since its last deletion, and then holds the newest N of those records and the time of the last |
| Slab.SlotSize | src/store.rs:23-30 | a slot is pointer-aligned, holds both a link and N records, and wastes less than one word |
| Slab.SpliceCell | src/store.rs:38-47 | a write inside one slot of the flat slab changes that slot and no other |
| Slab.OrderAgreement | src/snapshot.rs:98-106 | the snapshot writer's oldest-first index walk is the reverse of `get_last`'s newest-first walk, across wrap-around |
| Slab.PushUnrolled | src/ring_buffer.rs:22-30 | writing at the head and advancing it appends the record to the unrolled ring and drops the oldest exactly when full |
| Slab.PushCell | src/ring_buffer.rs:22-30 | the same on the raw bytes of the slot |
| SlabHeap.LinkedRange | src/memory_pool.rs:41-53 | the list built by the constructor's loop visits every slot once and ends at null |
| SlabHeap.LinkedPush | src/memory_pool.rs:69-73 | overwriting a slot's first eight bytes with the old head puts it at the front of the list and leaves the rest of the list intact |
| SlabHeap.PartitionCovers | src/store.rs:54-79 | no slot is ever lost: each is on the free list or is some live user's |
| SlabHeap.ExhaustedIffFull | src/store.rs:57-58 | the free list is null exactly when the live users number the slots |
| SlabHeap.SlotsDiffer | src/store.rs:116-123 | no two users share a slot |
| SlabHeap.CreateMeans | src/store.rs:116-123 | taking an uncleared slot off the list keeps the whole invariant and adds an empty user, whatever bytes the slot held |
| SlabHeap.PushMeans | src/ring_buffer.rs:22-30 | a ring push in shared memory is a PUSH on the map of last N records and leaves every other user and the free list alone |
| SlabHeap.EraseMeans | src/store.rs:133-139 | erasing a user, its link overwriting record bytes, removes that user from the map and nothing else |
| Stores.Store.constructor | src/store.rs:23-52 | a new store is valid and empty over uncleared memory |
| Stores.Store.BuildFreeList | src/store.rs:38-47 | after the loop slot i links to slot i+1 and the last to null |
| Stores.Store.Alloc | src/store.rs:55-66 | succeeds exactly when fewer users are live than there are slots, and pops the head of the list |
| Stores.Store.Free | src/store.rs:69-79 | pushes the slot and writes only its first eight bytes |
| Stores.Store.GetOrCreate | src/store.rs:116-123 | fails exactly when the user is new and every slot is live; otherwise the user is present and unchanged if it was there |
| Stores.Store.Push | src/ring_buffer.rs:22-30 | the store afterwards is the PUSH of the store before |
| Stores.Store.CreateAndPush | src/recovery.rs:63-64 | creation and push together are a PUSH, or leave the store alone when no slot is left |
| Stores.Store.GetLast | src/ring_buffer.rs:35-44 | returns exactly the newest min(n, stored) records, newest first |
| Stores.Store.Erase | src/store.rs:133-139 | removes exactly that user; absent users are no error |
| Stores.Store.DumpRecords | src/snapshot.rs:98-106 | the bytes written for a ring are its records oldest first, whatever its rotation |
| AofCodec.ParseConcat | src/recovery.rs:33-50 | whole entries are read back exactly whatever bytes follow them |
| AofCodec.ParsedIsPrefix | src/recovery.rs:33-50 | for every byte string, the entries read are byte for byte its front |
| AofCodec.EntryLayout | src/aof.rs:80-101 | the bytes of a PUSH and of a DEL entry, field by field, with the opcodes 0x01 and 0x03 |
| AofCodec.TornTail | src/recovery.rs:34-48 | for every list of entries and every cut, reading the cut log gives exactly the entries wholly before the cut |
| AofCodec.EntriesBeforeTearSurvive | src/recovery.rs:45-48 | whatever is appended after a tear, the entries before it are still read |
| AofCodec.SafeToAppendIffAtBoundary | src/aof.rs:36-45 | everything appended after a crash is read correctly, for every continuation, if and only if the crash left the file at an entry boundary |
| Replay.ReplayConcat | src/recovery.rs:33-76 | replaying a log in two parts gives what replaying it in one does |
| Replay.UnknownEntryIsSkipped | src/recovery.rs:71-74 | an entry that is neither DEL nor a 17-byte PUSH changes nothing, inserted between any two entries |
| Replay.CutoffExactIffClockSeparates | src/recovery.rs:52-55 | the cutoff keeps exactly the operations after the snapshot if and only if none before it is newer and none after it is as old |
| Replay.ReplayMeans | src/recovery.rs:52-70 | replaying the server's own log applies the newer operations in order if and only if the slots suffice at every step; otherwise it dies in the allocator |
| SnapshotFile.SnapshotRoundTrip | src/snapshot.rs:79-148 | loading a dump into an empty store restores users, records and write times for every well-formed store and every walk order, without running out of slots and with a lossless 32-bit key count |
| SnapshotFile.FileLayout | src/snapshot.rs:86-90 | the file begins with the bytes of the magic and the version, the time and the number of keys |
| SnapshotFile.KeyLayout | src/snapshot.rs:93-106 | the bytes of a key, field by field |
| SnapshotFile.ForeignFileIgnored | src/snapshot.rs:119-122 | a file that is too short or has another magic loads nothing and lets no log entry be skipped |
| TornSnapshot.TornSnapshotLoads | src/snapshot.rs:128-147 | for a dump in any walk order cut at any byte, what loading gives: the keys before the cut, the whole records of the key it falls in, and the key that stray bytes spell |
| TornSnapshot.TornSnapshotIsPartIff | src/snapshot.rs:131-138 | that is a part of what was dumped if and only if fewer than 14 bytes of a record are left, or no key was to follow, or the user they spell was dumped |
| TornSnapshot.PhantomUser | src/snapshot.rs:137-138 | two users and a cut for which a third user appears |
| Recovery.DumpSnapshot | src/snapshot.rs:86-107 | the nested loops write exactly the dump of the store's contents |
| Recovery.LoadRecordsInto | src/snapshot.rs:136-145 | pushes the records that are there, stopping where they are cut off, and says how far it read |
| Recovery.ParseKey | src/snapshot.rs:131-145 | creates the user if a slot is left and loads its records |
| Recovery.ParseSnapshot | src/snapshot.rs:118-148 | for every byte string terminates in bounds with a valid store holding what the file means, or fails in the allocator |
| Recovery.ReplayEntryInto | src/recovery.rs:52-75 | skips covered and unknown entries, and pushes or erases otherwise |
| Recovery.ReplayAof | src/recovery.rs:30-80 | for every byte string terminates with a valid store that the whole entries, replayed in order, produce |
| Recovery.Recover | src/recovery.rs:11-18 | a new store becomes the snapshot plus the newer log entries, also when either file is missing |
| Aging.CoversAfterOp | src/event_loop.rs:149-158 | an operation applied to a store with evictions and to one without keeps them related |
| Aging.CoversAfterEvict | src/event_loop.rs:149-158 | so does an eviction applied to the first alone |
| Aging.CoversSize | src/event_loop.rs:149-158 | the store without evictions is never the smaller one, and is larger if it holds an evicted key |
| DurabilityInvariant.RecoveryIs | src/recovery.rs:11-76 | in every invariant state and for every cut, a restart applies to the snapshot exactly the operations up to the recovery point, or dies if they do not fit |
| DurabilityInvariant.LogKeeps | src/commands.rs:18-19 | appending an entry before applying it keeps the durability invariant |
| DurabilityInvariant.ApplyKeeps | src/commands.rs:20-22 | so does applying and acknowledging it |
| DurabilityInvariant.EvictKeeps | src/event_loop.rs:149-158 | so does an unlogged eviction |
| DurabilityInvariant.ForkKeeps | src/snapshot.rs:35-58 | so does a fork, which freezes the store with a time no logged operation is newer than |
| DurabilityInvariant.RenameKeeps | src/snapshot.rs:109-115 | so does the rename that replaces the older snapshot while later operations are already logged |
| DurabilityInvariant.CrashKeeps | src/main.rs:48-75 | so does a crash and restart, also when the snapshot is ahead of the log |
| DurabilityInvariant.RunKeeps | src/event_loop.rs:111-147 | the invariant holds at every point of every run |
| CrashSafety.CrashConsistency | src/recovery.rs:11-80 | for every run, every restart in it and a cut at any byte, with no eviction since the snapshot the recovered store is exactly the store after max(operations in the snapshot, whole entries in the log) operations, or that plus the one operation logged and not yet applied |
| CrashSafety.RecoveryUnderEviction | src/event_loop.rs:149-158 | with evictions every key live at the recovery point, which may include the one operation logged and not yet applied, comes back with its write time and its records as the newest part, and every other key that comes back had idled past the TTL when erased |
| CrashSafety.FullLogRecovery | src/recovery.rs:52-70 | with the whole log on disk this is about the live store itself |
| CrashSafety.RestartSucceedsIffFits | src/store.rs:57-58 | a restart comes up if and only if replay never needs more slots than there are |
| CrashSafety.CrashIsAlwaysPossible | src/main.rs:66-75 | the side conditions of the crash step restrict nothing but the cut |
| CrashSafety.GoingOnIsSafeIffAtBoundary | src/aof.rs:36-45 | in every run and for every cut, whatever the server logs after coming up on the cut log is read back if and only if no entry was torn |
| CrashSafety.WriteAhead | src/commands.rs:12-23 | at every point of every run the log holds every applied operation that the snapshot lacks and at most one more, and only applied operations are acknowledged |
| CrashSafety.AcknowledgedSurvives | src/aof.rs:103-113 | in `Always` mode no crash loses an acknowledged operation |
| CrashSafety.AppliedIsAcknowledged | src/commands.rs:20-22 | an operation that is applied is acknowledged, and nothing logged is then unanswered |
| CrashSafety.SyncedSurvives | src/aof.rs:228-233 | in every mode, once the log is synced up to a byte no crash recovers less than what is before it |
| CrashSafety.TiedWriteIsLost | src/recovery.rs:52-55 | a write at the snapshot's own timestamp is skipped by replay |
| CrashSafety.EvictionCanBlockRestart | src/event_loop.rs:149-158 | a run that never has more than one user live and whose log nevertheless cannot be replayed with one slot |
| CrashSafety.ExhaustingPushBlocksRestart | src/commands.rs:18-21 | a PUSH that exhausts the slots is already logged, and replaying it exhausts them again, with or without evictions before it |
| CrashSafety.SecondUserExhausts | src/commands.rs:18-21 | a run that reaches that state |
| AofRing.TargetInRange | src/aof.rs:131-148 | byte i of an entry, in one fragment or two, lands at position (head + i) mod size |
| AofRing.CopyByteKeeps | src/aof.rs:138-148 | copying any byte at any time disturbs no byte that is published and not yet flushed |
| AofRing.PublishKeeps | src/aof.rs:149-150 | publishing after the last byte extends the log by the whole entry |
| AofRing.PassKeeps | src/aof.rs:212-234 | each step of a flush pass, with stale counters, appends the next log byte or gives up exactly the flushed space |
| AofRing.RunKeeps | src/aof.rs:115-234 | the ring invariant holds in every interleaving |
| AofRing.NothingLostOrDoubled | src/aof.rs:115-151 | in every interleaving the file followed by the unflushed ring bytes is the concatenation of the published entries, and head - tail never exceeds the size |
| AofRing.NoCellShared | src/aof.rs:16-20 | the event loop never writes a cell that a flush pass may still read |
| AofRing.PublishedIsAppended | src/aof.rs:103-113 | the published bytes and the entry being written are what was appended, in order |
| AofRing.CleanShutdown | src/aof.rs:175-185 | after stop, join and the last drain the file holds every appended entry once and in order, wherever the flush thread stood |
| AofRing.PassNeverStuck | src/aof.rs:218-228 | a flush pass never reads outside the buffer |
| AofRing.SpinEndsWhenFlushed | src/aof.rs:119-129 | once the flusher has caught up the next test for room succeeds |
| AofRingProgress.FlusherCatchesUp | src/aof.rs:196-234 | wherever the flush thread stands, its own steps write out everything published |
| AofRingProgress.AppendEnds | src/aof.rs:115-151 | however full the ring, the two threads have a way on which publishes the entry being appended |
| AofRingProgress.ShutdownEnds | src/aof.rs:175-185 | a shutdown comes to its end from wherever the flush thread stands, and the file then holds everything appended before it |
| FlushedLog.FileYieldsWholeOperations | src/aof.rs:212-234 | at any instant of any interleaving, reading the file gives exactly the operations whose entries are wholly in it |
| FlushedLog.FlushedFileRecovers | src/aof.rs:212-234 | for every run of the server and every interleaving of the ring its log went through, a restart from the bytes that reached the file is the crash at that byte, so without evictions it gives exactly the store at that crash's recovery point |
| AofWriters.AofWriter.FlushOnce | src/aof.rs:212-234 | the one or two fragments written are the pending bytes |
| AofWriters.AofWriter.CopyEntry | src/aof.rs:131-148 | the one or two copies place the entry at the head and touch nothing else |
| AofWriters.AofWriter.RingWrite | src/aof.rs:115-151 | the bytes in file and ring afterwards are those before plus the entry |
| AofWriters.AofWriter.WriteEntry | src/aof.rs:103-113 | the same in every mode, and in `Always` mode the file already holds it |
| BitMask.PowerOfTwoTestIsExact | src/spsc.rs:17-19 | `n > 0 && n & (n - 1) == 0` holds of the powers of two and of nothing else |
| BitMask.MaskIsMod | src/spsc.rs:44 | masking with a power of two minus one is the remainder |
| Spsc.SlotAgrees | src/spsc.rs:44 | the masked slot of a wrapped 64-bit counter is the slot of the unbounded counter, for every power-of-two capacity |
| Spsc.DifferenceAgrees | src/spsc.rs:41 | the wrapping difference of two counters is their true difference |
| Spsc.RefusedIffFull | src/spsc.rs:38-43 | a push is refused exactly when the queue was full at the instant its tail was loaded |
| Spsc.EmptyIffEmpty | src/spsc.rs:54-59 | a pop reports empty exactly when the queue was empty at the instant its head was loaded |
| Spsc.PushWritesIffRoom | src/spsc.rs:41-46 | the test of a push writes the item exactly if there was room when the tail was loaded, and otherwise leaves everything |
| Spsc.PopTakesIffAny | src/spsc.rs:57-62 | the test of a pop takes the oldest item exactly if there was one when the head was loaded |
| Spsc.PushAloneMeans | src/spsc.rs:38-49 | a push that is alone is accepted if there is room and refused if not |
| Spsc.PopAloneMeans | src/spsc.rs:54-66 | a pop that is alone takes the oldest item, or nothing from an empty queue |
| Spsc.StepKeeps | src/spsc.rs:38-66 | every load, store and slot access of either side keeps the queue invariant |
| Spsc.NeverStuck | src/spsc.rs:44-65 | the masked index is always in bounds |
| Spsc.FirstInFirstOut | src/spsc.rs:38-66 | in every interleaving the popped items are a prefix of the accepted ones and at most the capacity lie between |
| Ttl.DrainQueueKeeps | src/event_loop.rs:149-151 | what the drain pops has expired |
| Ttl.GuardKeeps | src/event_loop.rs:151-156 | the comparison of write times makes the erasure safe |
| Ttl.QueueStepKeeps | src/ttl.rs:71-83 | sampling, checking and forwarding keep everything in the second queue expired |
| Ttl.EvictionSafety | src/event_loop.rs:149-171 | in every interleaving a key erased by the drain has at that moment gone unwritten for longer than the TTL, also when deleted and recreated or sampled repeatedly meanwhile |
| TtlProgress.Forwarded | src/ttl.rs:77-81 | the worker forwards a candidate exactly if it has gone unwritten for longer than the TTL |
| TtlProgress.DrainedOnce | src/event_loop.rs:149-158 | the drain erases what it pops exactly if it was not written since it was sampled |
| TtlProgress.IdleKeyIsEvicted | src/event_loop.rs:149-171 | with the queues empty, sampling a key and letting worker and drain take their turns erases it if and only if it has idled past the TTL |
| TtlRefinement.GuardIsEviction | src/event_loop.rs:149-158 | what the drain erases in the pipeline is an eviction the durability model allows, with the same effect |
| TtlRefinement.PipelineRefines | src/event_loop.rs:111-171 | after any run of the durability model, with its snapshots and restarts, every interleaving of commands, sampling, checks and drains goes on as a run of that model with the same store, clock, operations and evictions |
| TtlRefinement.PipelineRecovery | src/ttl.rs:71-83 | after any such interleaving, with whatever snapshot there is, a restart comes up if and only if the operations since the snapshot fit, then with every live key, and with no other key but those erased past the TTL |
| TtlRefinement.PipelineStart | src/event_loop.rs:84-95 | the first start, with empty queues of any power-of-two capacity, is such a beginning |
| Wire.ParseStreamConcat | src/connection.rs:46-83 | whole acceptable frames are read back exactly whatever follows them |
| Wire.FrameIsCanonical | src/connection.rs:46-71 | a frame that passes validation is the one encoding of its command |
| Wire.RefusedIffNoCommand | src/connection.rs:46-83 | a stream of a whole request's length is refused exactly if no command is at its front but a GET for no record or for more than N |
| Wire.RequestLayout | src/connection.rs:46-55 | the bytes of each request, field by field, with the magic 0xAE01 and the opcodes |
| Wire.GetAnswersExactly | src/commands.rs:26-53 | for every N up to 3854 a GET response decodes to exactly the newest min(count, stored) records newest first, its length fields fit 16 bits, and it fits the write buffer |
| Wire.NotFoundIffAbsent | src/commands.rs:29-30 | a GET is answered with status 0x02 exactly if the user is absent |
| Wire.WritesAnswerOk | src/commands.rs:22 | PUSH and DEL are answered with status 0x00 whatever the store holds |
| Wire.AnswerLayout | src/commands.rs:34-38 | the magic, the status and the length field of every answer |
| Wire.RecordsLayout | src/commands.rs:38-47 | the number of records and the records themselves follow, newest first |
| Wire.StatusAnswers | src/connection.rs:85-95 | a status response decodes to its status with no payload |
| Conversation.ReadKeeps | src/event_loop.rs:210-263 | a read of any size keeps the connection's buffers, state and history in step with the stream |
| Conversation.RunKeeps | src/event_loop.rs:270-308 | so does running the command in the read buffer |
| Conversation.DropKeeps | src/event_loop.rs:279-287 | so does dropping a GET with a bad count, and the stream is cut there |
| Conversation.WriteKeeps | src/event_loop.rs:310-350 | so does a write of any size; reading resumes only when the answer is wholly out |
| Conversation.ReadsFinish | src/event_loop.rs:203-263 | while the kernel delivers, the read loop stops only at a whole frame, a bad one or the end of what has come, after no more calls than bytes |
| Conversation.WritesFinish | src/event_loop.rs:310-350 | while the kernel takes bytes, the write loop sends the whole answer and returns to reading, after no more calls than bytes |
| Conversation.ReadLoopUses | src/event_loop.rs:203-234 | for every script of results, the read loop makes its first calls in order, all but the last of them moving bytes |
| Conversation.ReadLoopIs | src/event_loop.rs:226-233 | the read loop ends the connection exactly if its last call failed or found it closed; a call that would block leaves it as it is |
| Conversation.ReadLoopTakes | src/event_loop.rs:218-236 | what it reads is the next bytes that have come, in order, and a frame is found whole only with bytes read |
| Conversation.WriteLoopIs | src/event_loop.rs:328-347 | the write loop ends the connection exactly if its last call failed, and goes back to reading exactly when the answer is out |
| Conversation.WriteLoopSends | src/event_loop.rs:318-337 | what it sends is the next bytes of the answer, in order |
| Conversation.OneReadSuffices | src/event_loop.rs:210-224 | a read asks for all that the header or the frame still lacks |
| Conversation.OneWriteSuffices | src/event_loop.rs:318-326 | a write offers all that is left of the answer |
| Fairness.ReadOnTrack | src/event_loop.rs:203-268 | with no failing call and calls enough to come, reading keeps it so, however often calls block |
| Fairness.WriteOnTrack | src/event_loop.rs:310-350 | so does writing |
| Conversation.SettledMeansParsed | src/event_loop.rs:203-350 | when nothing is left to do, also after the peer has closed, the commands run are those of parsing the whole stream at once, the connection was dropped exactly if the stream has a bad frame, and every answer was sent once |
| Conversation.RunCommandsArePrefix | src/event_loop.rs:203-350 | at every moment the commands run are the first of the stream's |
| SerialOrder.TimesDoNotMatter | src/ring_buffer.rs:22-44 | the users and records that commands and evictions leave do not depend on the times the commands read |
| SerialOrder.ResponsesAreAnswers | src/commands.rs:12-61 | what each client was answered is what the commands and evictions, done one after the other on the starting store, answer it |
| SerialOrder.ChunkingIndependence | src/event_loop.rs:203-350 | once a client is settled, its commands in the order are those of its stream, and the bytes it was sent are a function of that order and the starting store; the sizes of reads and writes do not enter |
| SerialOrder.AloneIsDoAll | src/event_loop.rs:203-350 | an order of one client's commands and no eviction is just its list of commands |
| Commands.LogAndPush | src/commands.rs:12-23 | the entry is in the log whether or not the push finds a slot, and the store afterwards is the PUSH or unchanged |
| Commands.LogAndErase | src/commands.rs:56-61 | the entry is logged and the user gone, present or not |
| Commands.Lookup | src/commands.rs:26-47 | finds the user's newest records, newest first, or says it is absent |
| Connections.Connection.constructor | src/connection.rs:28-41 | a new connection agrees with its stream |
| Connections.Connection.WriteStatus | src/connection.rs:85-95 | the write buffer holds the status response |
| Connections.Connection.PushCommand | src/commands.rs:12-23 | log, store and response of a PUSH; a client reads status 0x00 |
| Connections.Connection.DelCommand | src/commands.rs:56-61 | log, store and response of a DEL; a client reads status 0x00 |
| Connections.Connection.GetCommand | src/commands.rs:26-53 | the response of a GET: a client reads the newest records, or status 0x02 exactly if the user is absent; the store is unchanged |
| Connections.Connection.ReadCommand | src/event_loop.rs:277-299 | the dispatch on opcode and count reads the buffer as the frame parser does |
| Connections.Connection.ProcessCommand | src/event_loop.rs:270-308 | runs the frame on store and log and records it, or drops the connection without touching either |
| Connections.Connection.Receive | src/event_loop.rs:235-262 | the state after a read of k bytes |
| Connections.Connection.ReadOnce | src/event_loop.rs:204-262 | one turn of the read loop keeps the connection in agreement with its stream for every system-call result |
| Connections.Connection.ReadFrame | src/event_loop.rs:203-263 | the loop makes exactly the reads that the socket's results allow |
| Connections.Connection.HandleRead | src/event_loop.rs:203-268 | exactly the reads that the socket allows are made and the frame, if whole, is run or dropped; at most one command runs, on the store as it is, its log bytes and effect are exactly that command's, nothing is read while an answer is pending, the connection is not ended unless a call failed or found it closed, and the process ends only on a PUSH that found no slot and is in the log |
| Connections.Connection.Send | src/event_loop.rs:311-348 | the state after a write of k bytes |
| Connections.Connection.WriteOnce | src/event_loop.rs:311-348 | one turn of the write loop, likewise |
| Connections.Connection.HandleWrite | src/event_loop.rs:310-350 | exactly the writes that the socket allows are made; writing reads nothing and runs nothing |
| Connections.Connection.Finish | src/event_loop.rs:203-350 | however the calls are cut and however often they block, as long as none fails and enough of them move a byte, every stream is read to its end or first bad frame and every answer is sent, unless a PUSH ends the process |
| EndToEnd.CommandIsOperation | src/commands.rs:12-61 | what a command appends and does is one logged operation, or nothing for a GET |
| EndToEnd.MirrorsCommand | src/commands.rs:12-61 | a command that finds its slot takes the server on as a run of the durability model, with the same log, store, snapshot and order |
| EndToEnd.MirrorsDrain | src/event_loop.rs:149-158 | so does a key erased past the TTL |
| EndToEnd.MirrorsFork | src/snapshot.rs:35-58 | so does a fork, and the child's file is the dump of the store at that moment |
| EndToEnd.MirrorsChildEnds | src/snapshot.rs:109-115 | so does the child's rename, or its failure |
| EndToEnd.MirrorsBoot | src/main.rs:48-75 | a server that comes up after a crash goes on with the run that crashed |
| EndToEnd.Restarts | src/recovery.rs:11-80 | for a crash at any byte of the log: the restart comes up with the snapshot and the operations up to the recovery point exactly if they fit, then holds every key of the store at that point and besides only keys evicted past the TTL, and is exactly that store if nothing was evicted since the snapshot |
| EndToEnd.FatalRestart | src/commands.rs:18-21 | after a PUSH that found no slot, the restart dies as the server did, whatever was evicted or snapshotted |
| Schedules.ReadLeads | src/event_loop.rs:203-308 | a reading turn changes one client, puts at most one command into the order, and changes the store as that command does |
| Schedules.WriteTurnSends | src/event_loop.rs:310-350 | a writing turn with calls enough sends the whole answer and the client may ask again |
| Schedules.DrainLeads | src/event_loop.rs:149-158 | a drain turn erases the key exactly if it was not written since it was sampled, and touches nothing else |
| Schedules.DrainIsGuard | src/event_loop.rs:149-158 | that is what the guard of the eviction pipeline does |
| Schedules.SnapshotIsStoreAtFork | src/snapshot.rs:35-115 | whatever happens between a fork and its rename, the snapshot then loads to the store and the time of the fork |
| Schedules.FairService | src/event_loop.rs:111-147 | whatever else happens to this and the other clients, a client that no call fails is settled once it was read from and written to as many times over as it has calls to come |
| Schedules.NewcomerServed | src/event_loop.rs:173-201 | so is a client that comes later, whatever it sends |
| EventLoops.EventLoop.constructor | src/event_loop.rs:68-109 | a loop on a recovered store and an open log starts in agreement with what is on disk |
| EventLoops.EventLoop.Accept | src/event_loop.rs:173-201 | a new connection, with memory of its own, joins the others without disturbing them |
| EventLoops.EventLoop.HandleReadOf | src/event_loop.rs:203-268 | reading from one connection leaves every other connection as it was |
| EventLoops.EventLoop.OnReadable | src/event_loop.rs:139-140 | exactly the reads the socket allows, at most one command, its log bytes, its effect and its place in the order; or the process ends on a PUSH without a slot, and so does every restart |
| EventLoops.EventLoop.OnWritable | src/event_loop.rs:141-143 | exactly the writes the socket allows, and nothing else changes |
| EventLoops.EventLoop.Drain | src/event_loop.rs:149-158 | an expired candidate is erased exactly if the key is there and was not written since it was sampled, the eviction then takes its place in the order, and otherwise nothing changes |
| EventLoops.EventLoop.Fork | src/snapshot.rs:19-58 | nothing while a child is running; otherwise the child's file is the dump of the store in some walk order at that time |
| EventLoops.EventLoop.ChildEnds | src/snapshot.rs:109-115 | the file replaces `snapshot.bin`, or is gone |
| EventLoops.EventLoop.RestartAt | src/recovery.rs:11-80 | at any moment of any run and for a crash at any byte of the log, what the restart finds: exactly the operations up to the recovery point over the snapshot, if they fit; every key then in the store, and besides only keys drained past the TTL; with nothing drained since the snapshot, exactly that store, which with the whole log is the store as it is |
| EventLoops.EventLoop.LogIsOrder | src/commands.rs:12-61 | the log is what it was at the start followed by the entries of every PUSH and DEL that ran, in order |
| EventLoops.EventLoop.FileIsFront | src/aof.rs:103-113 | the bytes that reached the file are such a cut, and in `Always` mode the whole log |
| EventLoops.EventLoop.OneOrder | src/event_loop.rs:111-147 | all commands and evictions happened in one order, each on the store those before it left, evictions only past the TTL; each client's commands are those of its stream, and what it was sent is the front of what this order answers it, all of it when it is done |
| EventLoops.EventLoop.AloneIsDeterministic | src/event_loop.rs:203-350 | what a client that is alone, while nothing is evicted, receives depends on the bytes it sent and the store it found, and on nothing else |
| EventLoops.EventLoop.NewcomerAnswered | src/event_loop.rs:111-201 | a client that was accepted and looked after long enough had all its commands run, in their place in the order, and was sent every answer |
| EventLoops.EventLoop.CrashLeaves | src/main.rs:48-75 | the files a crash of the loop leaves, cut at an entry boundary past the synced bytes, are such as a server may be started on |
| EventLoops.EventLoop.Take | src/event_loop.rs:117-144 | one event, of any kind, leads exactly to the clients, store, order and snapshots that the schedule says, and ends the process exactly on a PUSH without a slot |
| EventLoops.EventLoop.Serve | src/event_loop.rs:111-147 | so does any sequence of accepts, reads, writes, drains, forks and renames; every client that is looked after long enough is served to its end; and if the process ended, every restart that finds the log does too |
| EventLoops.Boot | src/main.rs:48-75 | on the snapshot and log that any earlier run left, a server comes up exactly if recovery finds its slots, and then holds what was recovered, in memory of its own |
| EventLoops.Live | src/main.rs:48-75 | a whole life of the server: it comes up exactly if recovery does, what its clients see and its store holds is then a function of the recovered store and the events, and every client that is looked after long enough gets the answer to everything it sent |

## Left out

- Sockets, epoll, signals and shutdown of the event loop: events come in any order, and system calls have arbitrary results.
- `fork`, `waitpid` and the snapshot interval: a fork is a copy of the store taken when no child is running; when the event loop decides to fork is not modelled.
- A snapshot child that outlives its crashed parent: it could rename an older image over the new run's files.
- Short writes and I/O errors on the log and the snapshot file: the code only reports them.
- Weak memory: each acquire load and release store is one atomic step.
- Overflow of the log ring's 64-bit byte counters: they are unbounded here; the queues' counters do wrap.
- `flush_sync` beside a running flush thread: it runs only after the join, as in `shutdown`.
- AofWriters.AofWriter.RingWrite: in the class the flush thread takes its turn inside the spin; all other schedules are in `AofRing`.
- src/ttl.rs and src/spsc.rs are modelled as transition systems on values, with queue slots as a sequence, because their point is interleaving.
- The pool and slab variants of the allocator share one model: they run the same list code and differ in how the memory is obtained.
- That every key is sampled in every TTL cycle: a push to a full queue is dropped.
- Truncated snapshots in the durability model: a renamed file is complete there; what loading makes of a cut file is `TornSnapshot`.
- The queues inside the class `EventLoop`: what a drain pops comes from the schedule, which is asked to hold expired candidates only; that the pipeline yields no others, in every interleaving, is `Ttl.DrainQueueKeeps`.
- DurabilityInvariant.CrashKeeps: a server that goes on after a torn tail is excluded by the crash step, because what it then reads back is arbitrary; `CrashSafety.GoingOnIsSafeIffAtBoundary` shows the step's condition to be exact.
- Configuration, logging, timing, benchmarks and the hash map's internals.
