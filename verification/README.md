# Persistence and time travel, verified

A Dafny model of the orthogonal-persistence and time-travel stack of the IKOS/Laplace kernel, with
proofs about whole runs of it. `dafny verify dfyconfig.toml` checks everything.

The model follows the C sources. State that C updates in place is a class with `modifies` clauses;
each method is tied by its `ensures` to a function on values, and the theorems are about those
functions. A disk is a map from sector number to 512 bytes. An execution is a list of single-sector
writes that may stop after any prefix; the `Device` class carries a write budget, and running out of
budget is the power cut.

| files | what they model |
|---|---|
| `bytes`, `crc32`, `crc_division`, `disk`, `rows` | fixed-width little-endian structs, the reflected CRC-32 of IEEE 802.3 clause 3.2.9 and the division it stands for, sector writes that stop anywhere, tables of rows |
| `snapshot_store`, `journal_store` | the two-slot stores with their superblock flip |
| `keyframe_ring`, `keyframe_store` | the ring of keyframe regions, its index on disk, rebuild after a torn index |
| `checkpoint_engine`, `program_view`, `checkpoint_kernel`, `retention`, `barrier` | copy-on-write checkpoints, what programs see of them, the timer and writeback, the engine over the keyframe store, the quiescence barrier |
| `restore`, `kernel_blob`, `kernel_state`, `kernel_capture`, `proc_table`, `ipc_table`, `disk_reattach`, `whole_machine` | boot after a power cut: user pages, kernel blobs, kernel tables, the disk itself |
| `record_wrappers`, `journal_capture`, `time_travel`, `replay`, `reverse` | recording, journal capture and split, one epoch end to end, replay, rewind, reverse execution, reverse breakpoints and watchpoints |

## Main results

- Crash safety of the snapshot store and the journal: after any series of jobs, each cut off after any
  number of sector writes, a reload finds exactly what was last committed.
- Crash safety of the keyframe store: in every state that a run of checkpoints and reboots, each cut
  off anywhere, can reach, a checkpoint cut off anywhere leaves every retained epoch other than the one
  being reclaimed loading its exact checkpoint. For rings of up to 30 regions, whose slots
  all lie in the first index sector, nothing is assumed about torn index writes; the kernel arms 8
  (kernel/kernel_main.c:297-299).
- Checkpoints are invisible: over every run, with takes, faults and commits anywhere, memory, processes
  and contexts are what the events alone make of them.
- The checksum is the remainder of the standard's division, and damage within four adjacent bytes of a
  superblock, a committed slot or the keyframe index is refused at load.
- Snapshot isolation: whatever is stored, mapped, unmapped, started or ended between take and
  writeback, the stream of an epoch is the memory of the moment of its take, each page once, exactly
  under stated conditions; and the same carried through a power cut and the boot restore.
- Replay from any retained keyframe is the recorded run, and reverse stepping, continuing,
  breakpoints and watchpoints are the order-theoretic notions on the recorded moments.
- One epoch recorded, captured, read back after a crash, split and replayed is seen by its clients
  exactly as it ran, if and only if the logs lost nothing; also by a client whose every request
  depends on what it was answered before.
- Kernel blobs captured in a period, in any order and interleaving, reassemble byte for byte at boot,
  and the process and IPC tables they carry are restored exactly when they are consistent.

## Where the code does less than its documentation says

The members named say what the code does in these cases and exactly when the promise holds.

- `checkpoint_stream_pages` streams every capture on the list, although its header promises only the
  current epoch's records. A page that a writeback left clean and tagged, and that is first written
  before the next take, leaves a capture behind. That page is then in the next stream twice, mapping
  it a second time is an error, and the checkpoint does not restore
  (`CheckpointEngine.StaleRun`, `Restore.StaleRunDoesNotRestore`, `Restore.StaleCaptureBreaksRestore`,
  `CheckpointEngine.EveryCheckpointExact`).
- Present pages of writable regions that are neither writable nor tagged (shared after a fork), and
  pages unmapped while an epoch is open and not yet written in it, are in no stream; read-only pages
  mapped while an epoch is open get into it (`CheckpointEngine.MissedRuns`,
  `CheckpointEngine.LateReadOnlyRun`, `CheckpointEngine.SnapshotIsolation`).
- The boot restore makes a process entry for every record's pid before it looks at the flags, and
  registers every entry as a process that is ready to run (kernel/checkpoint.c:500-506, 563-603). The
  tag of a kernel blob that is no process's pid becomes such a process, and also takes one of the 64
  entries (`Restore.PhantomProcessRun`, `Restore.RestoreIsTakeMoment`).
- A crash exactly on a keyframe region's flip, before the first sector of the new index, leaves the old
  index, which still parses. The new keyframe is then invisible and, on a full ring, the reclaimed one
  answers with the checksum error. No other cut does this (`KeyframeStore.LostKeyframeRun`,
  `KeyframeStore.CrashedCommitWindow`).
- The replay driver re-drives a whole epoch only up to its last recorded switch
  (`ReplayDriver.DriverFaithful`).
- A scheduling replay switches on the first call that has reached the recorded clock, as documented;
  on calls that share a clock value that is not the recorded call (`SchedRecord.SharedTickDiverges`).
  `scheduler_tick` advances the clock before every call, so only another caller could share one.
- The take that wraps the 64-bit epoch counter to 0 is reported by the timer tick as not taken
  (`CheckpointKernel.Engine.Tick`).
- `journal_store_init` computes the room of a slot in 32 bits; a slot of more than 2^28 event sectors
  gets only the excess (`JournalStore.RoomExact`).
- `snapshot_store_init` computes the sectors it needs in 32 bits (`SnapshotStore.InitFits`).
- Capturing a kernel blob of more than 2^32 - 4096 bytes reports success and captures nothing
  (`KernelBlob.CaptureKernelBlob`); a chunk placed twice can complete a blob early
  (`KernelBlob.RepeatCompletesEarly`, `KernelBlob.CompleteExactly`); chunk indices from 2^20 on wrap
  (`KernelBlob.RefusedExactly`).

## Model

| member | source | states |
|---|---|---|
| `Crc32.Compute` | kernel/snapshot_store.c:20-31 | the table-free bit loop computes the checksum defined as polynomial division |
| `Crc32.FeedIsDivision` | kernel/snapshot_store.c:20-31 | feeding bytes one at a time is one long division of their little-endian value |
| `CrcDivision.CrcIsRemainder` | kernel/snapshot_store.c:20-31 | a value is the checksum exactly when, complemented and reflected, it is congruent modulo the generator polynomial to the message with its first 32 bits complemented and 32 zero bits appended; the seed likewise |
| `CrcDivision.RemainderUnique` | kernel/snapshot_store.c:20-31 | of at most 32 bits there is only one such remainder |
| `Crc32.CrcChains` | include/snapshot_store.h:164-165 | a checksum continued over a second piece is the checksum of the concatenation |
| `Crc32.BurstDetected` | include/snapshot_store.h:164-165 | any change confined to at most four adjacent bytes, anywhere in a message of any length, changes the checksum |
| `Crc32.SealDetects` | kernel/snapshot_store.c:62-87 | damage within four adjacent bytes of a struct followed by its checksum breaks it, whether it hits the struct, the checksum or both |
| `Disk.Device.WriteSectors` | kernel/snapshot_store.c:42-47 | a multi-sector write reaches the disk as a prefix of single-sector writes and reports success exactly when all of them did |
| `TwoSlot.CommitHolds` | kernel/snapshot_store.c:188-219 | after the superblock write the slot holds the new image and everything else is as it was |
| `SnapshotStore.InitFits` | kernel/snapshot_store.c:89-106 | a store is accepted on exactly the devices it fits, for every base and size, exactly when the slot is below 2^31 sectors; slots shorter than a header and one record and other sector sizes never are |
| `SnapshotStore.FitsExactly` | kernel/snapshot_store.c:89-106 | a checkpoint fits its slot exactly when there is room for the header and nine sectors a record |
| `SnapshotStore.SuperOnDisk` | include/snapshot_store.h:51-59 | the superblock byte by byte, checksum included |
| `SnapshotStore.HeaderOnDisk` | include/snapshot_store.h:61-69 | where the slot header keeps its fields |
| `SnapshotStore.MetaOnDisk` | include/snapshot_store.h:71-78 | a record's metadata byte by byte |
| `SnapshotStore.FormatStore` | kernel/snapshot_store.c:114-127 | one superblock write leaves a store that holds no checkpoint |
| `SnapshotStore.Writer.Begin` | kernel/snapshot_store.c:129-153 | the writer targets the slot that is not active and starts empty |
| `SnapshotStore.Writer.AddPage` | kernel/snapshot_store.c:155-186 | the error codes, the nine sectors written for the record and the running checksum over all records so far |
| `SnapshotStore.Writer.Commit` | kernel/snapshot_store.c:188-219 | header, then superblock, each carrying the count and checksum of what was added; failure leaves a prefix of the two writes |
| `SnapshotStore.WriteCheckpoint` | kernel/checkpoint.c:393-415 | begin, add all, commit writes exactly the prescribed sectors up to the cut, succeeds exactly when the superblock was written, and keeps every consistent disk consistent |
| `SnapshotStore.ValidateSlot` | kernel/snapshot_store.c:223-243 | the loop accepts a slot exactly when the checksum over its records matches |
| `SnapshotStore.LoadCheckpoint` | kernel/snapshot_store.c:245-282 | the order of the checks and the code each failure gives, on any disk |
| `SnapshotStore.Reader.Next` | kernel/snapshot_store.c:284-303 | the next record, or exhaustion exactly past the last |
| `SnapshotStore.ReadCheckpoint` | kernel/checkpoint.c:419-453 | load and next until exhaustion return exactly the checkpoint a consistent disk holds |
| `SnapshotStore.DurableReadsBack` | include/snapshot_store.h:140-162 | a consistent disk loads as the checkpoint it holds, record for record and in order |
| `SnapshotStore.CrashStep` | include/snapshot_store.h:8-11 | a checkpoint cut off anywhere either has committed or has not happened |
| `SnapshotStore.CrashSafety` | include/snapshot_store.h:8-11 | over any series of checkpoints, each cut off anywhere, a reload finds the last one whose superblock write happened |
| `SnapshotStore.VersionGate` | kernel/snapshot_store.c:245-282 | a consistent disk is refused as another build's exactly when the version stamp differs |
| `SnapshotStore.NoSlotLoads` | kernel/snapshot_store.c:245-282 | a superblock that names neither slot holds no checkpoint |
| `SnapshotStore.OtherFormatRefused` | kernel/snapshot_store.c:81-85 | a superblock of another format version holds no checkpoint |
| `SnapshotStore.MixedSlot` | kernel/snapshot_store.c:256-272 | a superblock and a complete slot written for different checkpoints, or with larger slots, load exactly when epoch and checksum agree and the records fit; otherwise with which error |
| `SnapshotStore.EmptyInactive` | kernel/snapshot_store.c:129-148 | the first checkpoint goes to slot 0 |
| `SnapshotStore.DamagedRecordsRefused` | kernel/snapshot_store.c:223-282 | damage within four adjacent bytes of a committed checkpoint's records gives the checksum error |
| `SnapshotStore.DamagedSuperRefused` | kernel/snapshot_store.c:62-87 | damage within four adjacent bytes of the superblock, its checksum included, gives no checkpoint |
| `SnapshotStore.DamagedHeader` | kernel/snapshot_store.c:256-272 | any damage to a slot header that spares the record count is refused exactly when it touches the magic, the epoch or the checksum, and harmless otherwise |
| `KeyframeRing.RingIndex.constructor` | kernel/keyframe_ring.c:25-41 | a new ring of the given capacity is empty |
| `KeyframeRing.RingIndex.Claim` | kernel/keyframe_ring.c:43-57 | claiming a slot returns the head and advances the ring |
| `KeyframeRing.RingIndex.Nearest` | kernel/keyframe_ring.c:59-79 | the search loop finds the best slot |
| `KeyframeRing.AdvanceWindow` | kernel/keyframe_ring.c:43-57 | advancing appends the epoch, drops the oldest exactly on a full ring, and reports exactly the dropped one |
| `KeyframeRing.RetainsLast` | include/keyframe_ring.h:60-80 | after any sequence of advances the ring holds the last min(k, capacity) epochs in order |
| `KeyframeRing.FindNearest` | kernel/keyframe_ring.c:59-79 | find returns the greatest retained epoch not above the target and fails exactly when the target predates the window |
| `KeyframeRing.NewestIsLast` | kernel/keyframe_ring.c:93-103 | newest is the last epoch of the window, or none when it is empty |
| `KeyframeRing.UnpackUndoesPack` | kernel/keyframe_ring.c:127-155 | a packed ring unpacks to itself, whatever follows it in the buffer |
| `KeyframeRing.DamagedRingRefused` | kernel/keyframe_ring.c:138-155 | damage within four adjacent bytes of a packed ring, its checksum included, is refused |
| `KeyframeStore.RegionsApart` | kernel/keyframe_store.c:31-43 | regions are disjoint, lie behind the index and stay inside the advertised total |
| `KeyframeStore.RegionsTile` | kernel/keyframe_store.c:31-43 | index and regions leave no sector between them |
| `KeyframeStore.IndexReadsBack` | kernel/keyframe_store.c:47-79 | a fully written index is read back as the ring it was written from, and not at all by a store of another capacity |
| `KeyframeStore.RebuildAgrees` | kernel/keyframe_store.c:83-110 | scanning the superblocks gives the slots, count and head the in-memory ring had |
| `KeyframeStore.ReloadComesUp` | kernel/keyframe_store.c:162-166 | a reload leaves a ring in memory exactly when the index could be read or was written back whole |
| `KeyframeStore.DamagedIndexHeals` | kernel/keyframe_store.c:60-110 | damage within four adjacent bytes of the index is noticed, and the rebuild gives the same ring back |
| `KeyframeStore.AdvanceExact` | kernel/keyframe_store.c:168-191 | folding a newer checkpoint into the head region keeps ring and regions in agreement |
| `KeyframeStore.LoadsExactly` | kernel/keyframe_store.c:193-208 | a load yields the exact checkpoint of the epoch it selects; only a slot overtaken by a missed commit reports the disagreement |
| `KeyframeStore.StepKeepsHealth` | kernel/keyframe_store.c:162-191 | a checkpoint or a reload cut off at any sector keeps the regions exact and the index at most one commit behind |
| `KeyframeStore.RunKeepsHealth` | include/keyframe_store.h:14-20 | the same over any run of checkpoints and reboots, each cut off anywhere |
| `KeyframeStore.TornIndex` | kernel/keyframe_store.c:47-79 | an index write cut off after any number of sectors reads as the old index, as none, or as the new ring; up to 30 regions this needs no assumption |
| `KeyframeStore.SmallRingRuns` | include/keyframe_store.h:14-20 | with up to 30 regions and growing epochs, every run of checkpoints and reboots, each cut off anywhere, is allowed and keeps the store healthy |
| `KeyframeStore.CrashedRunLoads` | include/keyframe_store.h:89-106 | after any such run every load answers with the exact checkpoint of the greatest retained epoch not above the target, or with why there is none: nothing that old is retained, or that slot was overtaken by one missed commit |
| `KeyframeStore.CrashedCommitWindow` | include/keyframe_store.h:14-20 | after a cut commit the window is the old one up to and including the flip and the new one after it, and all of it loads its regions' checkpoints unless the cut fell exactly on the flip of a full ring, when the oldest epoch answers with the disagreement |
| `KeyframeStore.LostKeyframeRun` | kernel/keyframe_store.c:168-191 | a formatted store of one region, a finished checkpoint and one cut off on its flip: the first epoch is still in the index and no longer loads |
| `KeyframeStore.RetainedSurviveCrash` | include/keyframe_store.h:14-20 | after a crash at any sector write of a checkpoint, every retained epoch other than the one being reclaimed loads its exact checkpoint |
| `KeyframeStore.CutDecidesIndex` | kernel/keyframe_store.c:181-191 | past the flip the old index is still read exactly when the cut fell on the flip |
| `KeyframeStore.IndexOverwritten` | kernel/keyframe_store.c:47-58 | with one sector of the new index written the disk no longer reads as the old one, whatever the rest holds |
| `KeyframeStore.Store.constructor` | kernel/keyframe_store.c:120-146 | an opened store starts with an empty ring of its capacity |
| `KeyframeStore.Store.Format` | kernel/keyframe_store.c:152-160 | formatting succeeds exactly when all its sectors were written and leaves the state every run starts from |
| `KeyframeStore.Store.Checkpoint` | kernel/keyframe_store.c:168-191 | begin, add and commit change disk and ring as the machine step says, and succeed exactly when every write happened |
| `KeyframeStore.Store.Rebuild` | kernel/keyframe_store.c:83-110 | the scan loop computes the rebuilt ring |
| `KeyframeStore.Store.LoadIndex` | kernel/keyframe_store.c:162-166 | any index that parses is taken; otherwise the ring is rebuilt and written back, up to the cut |
| `KeyframeStore.Store.Load` | kernel/keyframe_store.c:193-208 | the result of loading the nearest keyframe, with its error codes |
| `JournalStore.RoomExact` | kernel/checkpoint_journal.c:84-93 | the room of a slot is sixteen events for each event sector exactly up to 2^28 slot sectors; up to there a journal fits exactly when its header and event sectors do |
| `JournalStore.SuperOnDisk` | include/checkpoint_journal.h:64-81 | where the superblock and the slot header keep their fields |
| `JournalStore.EventOnDisk` | include/checkpoint_journal.h:83-89 | an event field by field |
| `JournalStore.TargetsOther` | kernel/checkpoint_journal.c:112-131 | a journal goes to the slot not in use, the first one to slot 0 |
| `JournalStore.FormatJournal` | kernel/checkpoint_journal.c:95-110 | one superblock write leaves a store that holds no journal |
| `JournalStore.Writer.Begin` | kernel/checkpoint_journal.c:112-139 | the writer targets the slot that is not active and starts empty |
| `JournalStore.Writer.Append` | kernel/checkpoint_journal.c:160-183 | the error codes, and that every sixteenth event writes the buffered sector and folds it into the checksum |
| `JournalStore.Writer.Commit` | kernel/checkpoint_journal.c:185-224 | the partial sector, the header and the superblock, up to the cut; success exactly when all were written |
| `JournalStore.WriteJournal` | kernel/checkpoint_journal.c:112-224 | begin, append all, commit writes exactly the prescribed sectors up to the cut |
| `JournalStore.LoadJournal` | kernel/checkpoint_journal.c:226-265 | the order of the checks, the checksum loop and the code each failure gives, on any disk |
| `JournalStore.Reader.Open` | kernel/checkpoint_journal.c:256-265 | a reader starts at the first event with nothing buffered |
| `JournalStore.Reader.Next` | kernel/checkpoint_journal.c:267-284 | the next event through the one-sector cache, or exhaustion exactly past the last |
| `JournalStore.ReadJournal` | include/checkpoint_journal.h:149-166 | load and next until exhaustion return exactly the events of the journal a consistent disk holds |
| `JournalStore.DurableReadsBack` | include/checkpoint_journal.h:138-166 | a consistent disk reads back as its journal, however full the last sector is |
| `JournalStore.CrashStep` | include/checkpoint_journal.h:14-18 | a journal cut off anywhere either has committed or has not happened |
| `JournalStore.CrashSafety` | include/checkpoint_journal.h:14-18 | over any series of journals, each cut off anywhere, a reader gets all events of the last one whose superblock write happened |
| `JournalStore.DamagedEventsRefused` | kernel/checkpoint_journal.c:226-265 | damage within four adjacent bytes of a committed journal's events gives the checksum error |
| `JournalStore.DamagedSuperRefused` | kernel/checkpoint_journal.c:71-80 | damage within four adjacent bytes of the superblock is refused: as no journal when it hits the magic, with the checksum error otherwise |
| `JournalStore.DamagedHeader` | kernel/checkpoint_journal.c:232-248 | any damage to a slot header's magic, epoch, count or checksum is refused, and no other matters |
| `JournalStore.MixedSlot` | kernel/checkpoint_journal.c:232-256 | a superblock and a complete slot written for different journals load exactly when epoch, count and checksum agree |
| `JournalCapture.PackChunk` | kernel/journal_capture.c:60-67 | the shift loop packs up to eight bytes little-endian |
| `JournalCapture.PackEntropy` | kernel/journal_capture.c:55-72 | the entropy bytes become chunks of eight and a remainder, in order |
| `JournalCapture.CaptureEpoch` | kernel/journal_capture.c:12-93 | the four kinds of deltas go to the journal in their order and are committed as one journal |
| `JournalCapture.SplitEpoch` | kernel/replay_driver.c:11-58 | the loop appends each event to its array and fails when one is full |
| `JournalCapture.EntropyGiven` | kernel/replay_driver.c:11-58 | an entropy event gives the first bytes of its value, never more than eight, whatever its length field says |
| `JournalCapture.CaptureSplits` | kernel/replay_driver.c:11-58 | splitting what capture wrote gives the recorded points, times and bytes back, and fails exactly when one exceeds the replay arrays |
| `JournalCapture.CaptureLaidOut` | kernel/journal_capture.c:12-93 | event by event: each switch point, each time read with its index, the entropy in chunks with offset and length, one event for each divergence checksum with its id, in this order and nothing else |
| `JournalCapture.CaptureReplays` | include/journal_capture.h:47-56 | the same through the disk and a power cut: the committed capture, laid out so, or the previous journal in full |
| `SchedRecord.SchedLog.Load` | kernel/sched_record.c:38-50 | the log takes the points when they fit and is otherwise unchanged |
| `SchedRecord.SchedLog.Decide` | kernel/sched_record.c:52-81 | the three modes: pass through, record while there is room, replay from the cursor |
| `SchedRecord.SchedLog.DriveLive` | kernel/scheduler.c:213-250 | a recording epoch decides as the live run and leaves its switch clocks in the log |
| `SchedRecord.SchedLog.DriveReplay` | kernel/scheduler.c:213-250 | a replaying epoch decides as the log says |
| `SchedRecord.ReplayTransparent` | include/sched_record.h:62-69 | replay repeats the live switches exactly when the log did not overflow and no unswitched call had reached the next switch's clock |
| `SchedRecord.StrictClockIsClean` | include/sched_record.h:62-69 | a clock that advances on every call meets that condition |
| `SchedRecord.SharedTickDiverges` | kernel/sched_record.c:52-81 | two calls on one tick on which replay switches at the wrong one |
| `TimeRecord.TimeLog.Read` | kernel/time_record.c:65-102 | the three modes, with overflow and underflow counted |
| `TimeRecord.TimeLog.Drive` | kernel/time_record.c:65-102 | a whole epoch of reads records or replays the log |
| `TimeRecord.ReplayTransparent` | include/time_record.h:68-72 | replay repeats every live read exactly when the reads that did not fit repeat the last one that did |
| `EntropyRecord.EntropyLog.Fill` | kernel/entropy_record.c:68-103 | the three modes, byte by byte, with overflow and underflow counted; a failed draw logs nothing |
| `EntropyRecord.EntropyLog.ReplayReads` | include/entropy_record.h:70-74 | replayed reads of any sizes together give the logged stream and then zeros |
| `EntropyRecord.ReplayTransparent` | include/entropy_record.h:70-74 | the stream comes back, however the reads are split, exactly when the bytes that did not fit were zeros |
| `TimeTravel.EpochReplays` | include/replay_driver.h:60-68 | recorded, captured, read back after any cut, split and replayed, the switches, times and bytes are those of the live run exactly when the logs lost nothing; before the flip the journal still holds the previous epoch |
| `TimeTravel.AgainExactly` | include/replay_driver.h:60-68 | a deterministic client that asks for ticks, times and random bytes as its answers lead it gets every live answer again exactly when each of the three logs gives back what it saw |
| `TimeTravel.LiveClean` | kernel/scheduler.c:213-250 | a live run with a clock that does not wrap never has two decisions on one tick |
| `TimeTravel.ClientReplays` | include/replay_driver.h:60-68 | the same through capture, disk, power cut and split: the client replays its epoch exactly when the logs lost nothing |
| `ReplayEngine.Engine.RunEpoch` | include/replay_engine.h:37-49 | the run hook: up to the limit of the loaded steps are re-driven |
| `ReplayEngine.Engine.Run` | kernel/replay_engine.c:26-63 | the codes in their order, the epochs run, and the state reached by whole epochs and then the offset |
| `ReplayEngine.LimitFollows` | include/replay_engine.h:64-69 | re-driving up to an offset follows the recorded run one step after the other: the first inputs, in order |
| `ReplayEngine.StateSteps` | include/replay_engine.h:64-69 | the recorded state at offset 0 is the keyframe, each further one a step of the machine on the next input, and nothing happens past the last |
| `ReplayEngine.ReplayIsRecorded` | include/replay_engine.h:64-69 | from any keyframe at or before the target, replay reaches the recorded state |
| `ReplayEngine.KeyframeChoiceIrrelevant` | include/replay_engine.h:64-69 | two keyframes land in the same state |
| `ReplayDriver.WholeSteps` | kernel/replay_driver.c:80-93 | the loop takes a whole epoch to be its greatest switch clock |
| `ReplayDriver.DriverRunsWholeEpochs` | kernel/replay_driver.c:80-93 | when every re-driven epoch ended on a switch, the driver reaches what the engine asks for, on every machine |
| `ReplayDriver.DriverFaithful` | kernel/replay_driver.c:80-93 | on a machine that counts its steps that condition is also necessary |
| `ReplayDriver.DriverReachesRecorded` | kernel/replay_driver.c:80-111 | from any keyframe at or before the target, on every machine, the driver reaches the recorded state at (epoch, offset) when every epoch it re-drives whole ended on a switch |
| `ReplayDriver.SwitchlessEpochSkipped` | kernel/replay_driver.c:80-93 | an epoch with steps and no switch is not re-driven at all |
| `Reverse.PrevIsGreatest` | kernel/reverse.c:37-58 | one step back is the greatest retained moment before the current one, and there is none exactly when nothing earlier is retained |
| `Reverse.BeforeChains` | kernel/reverse.c:37-58 | what lies before an earlier moment is what lies before this one and below it |
| `Reverse.RewindLands` | kernel/rewind.c:23-50 | on a consistent tape every epoch between the oldest and the newest retained one can be rewound to and no other, and landing there gives the recorded state |
| `Reverse.ReachIsWindow` | kernel/rewind.c:28-39 | the two range checks accept exactly the epochs from the oldest to the newest retained one |
| `Reverse.OneJournalLands` | kernel/replay_driver_sync.c:28-43 | with the journal of one epoch only: keyframes themselves, the steps of that epoch from its own keyframe, and its end |
| `Reverse.Rewinder.To` | kernel/rewind.c:23-50 | out of range exactly outside the window; inside, landed exactly when the nearest keyframe restores and every journal from there is retained, in the state replay from it gives; on a consistent tape that is the recorded state |
| `Reverse.Debugger.FindPrev` | kernel/reverse.c:37-58 | the walk over keyframes, skipping epochs without steps, ends at the predecessor |
| `Reverse.Debugger.Step` | kernel/reverse.c:60-68 | one step goes to the predecessor exactly when a rewind there lands, says so exactly when there is none, and on a consistent tape ends in the recorded state; the recorded step taken again undoes it, inside an epoch to the moment it came from, at the end of one to the next keyframe |
| `Reverse.Debugger.StepBack` | include/reverse.h:61-63 | n steps are one rewind to the n-th predecessor and stop short exactly when fewer are retained |
| `Reverse.Debugger.Continue` | kernel/reverse.c:70-80 | every earlier moment is visited once, newest first, down to the latest one that stops; termination by the order of moments |
| `Reverse.Debugger.Breakpoint` | kernel/revbreak.c:26-37 | the hit is the latest earlier moment whose state meets the condition; none is found exactly when none does |
| `Reverse.Debugger.Watchpoint` | kernel/revbreak.c:39-68 | the hit is the latest moment at or before the start whose predecessor reads differently, the value is constant from there on, and none is found exactly when it never changed |
| `Barrier.CheckpointBarrier.constructor` | kernel/checkpoint_barrier.c:9-25 | the number of CPUs is clamped and nobody is parked |
| `Barrier.CheckpointBarrier.RequestCheckpoint` | kernel/checkpoint_barrier.c:27-37 | arming starts from idle only and clears the flags |
| `Barrier.CheckpointBarrier.ParkCpu` | kernel/checkpoint_barrier.c:39-58 | a CPU is counted once, only when it may park, and only the completing call returns true |
| `Barrier.CheckpointBarrier.UnparkCpu` | kernel/checkpoint_barrier.c:60-75 | backing out leaves quiescence |
| `Barrier.CheckpointBarrier.ReleaseAll` | kernel/checkpoint_barrier.c:85-94 | release returns to idle with nobody parked |
| `Barrier.NextSafe` | include/checkpoint_barrier.h:45-68 | every call keeps the count equal to the flags, adds only a CPU that may park, and reports completion exactly when it completes |
| `Barrier.RunSafe` | include/checkpoint_barrier.h:8-13 | the same over every interleaving |
| `Barrier.HistoryDecides` | include/checkpoint_barrier.h:45-68 | a checkpoint is under way exactly since an arming call that was not released, and a CPU is parked exactly if it made a park call that was allowed since and has not backed out |
| `Barrier.ArmAnswers` | kernel/checkpoint_barrier.c:27-37 | arming is granted exactly when no earlier arming call is unreleased |
| `Barrier.ParkAnswers` | kernel/checkpoint_barrier.c:39-58 | a park reports completion exactly when it may park, had not, and all others have |
| `Barrier.QuiescentMeansAllParked` | include/checkpoint_barrier.h:8-13 | in every interleaving the barrier is quiescent exactly when every CPU has parked without a lock since an arming call that was not released, and not backed out |
| `CheckpointEngine.ResolveUndoesMark` | kernel/checkpoint.c:64-114 | resolving a page entry undoes marking it |
| `CheckpointEngine.TakeTags` | kernel/checkpoint.c:649-686 | a take tags exactly the pages it can protect, changes no contents and captures no page |
| `CheckpointEngine.RunFollowed` | kernel/checkpoint.c:279-300 | over any events a tagged page keeps tag and contents while untouched, is captured once if it is stored to first, and never if it is unmapped or its process ends first |
| `CheckpointEngine.RunPushes` | kernel/checkpoint.c:279-300 | every page captured in a run carries the contents it was tagged with, and nothing else but blob chunks is pushed |
| `CheckpointEngine.StreamCount` | kernel/checkpoint.c:309-377 | how often each page is in the stream, for every state and any events: left-over captures, one for a page protected and not gone unwritten, one for a read-only page |
| `CheckpointEngine.SnapshotIsolation` | include/checkpoint.h:147-165 | the stream is the moment of the take, each page once, exactly when left-over captures do no harm and the read-only pages are the same; and what the first condition comes to: nothing left over, no page unprotected or gone unwritten |
| `CheckpointEngine.ReadOnlyStays` | kernel/checkpoint.c:303-308 | the read-only pages stay the same unless one is mapped or pages are taken away |
| `CheckpointEngine.StaleIffDirtied` | kernel/checkpoint.c:379-391 | captures are left over exactly when a page the last writeback left tagged is stored to, before it goes, before the next take |
| `CheckpointEngine.EveryCheckpointExact` | include/checkpoint.h:255-259 | the same for every checkpoint of every timer-driven run, in terms of what happened since the previous writeback |
| `CheckpointEngine.EpochsCount` | kernel/checkpoint.c:649-685 | the n-th checkpoint of a run carries the n-th epoch after the one it started from, modulo 2^64 |
| `ProgramView.EngineInvisible` | include/checkpoint.h:81-87 | at every point of every run the pages with their contents, the processes and the contexts are what the events make of them in a machine without takes, tags, captures and commits |
| `ProgramView.LastStoreHolds` | kernel/checkpoint.c:279-300 | a present page of a writable region holds its last store, whatever checkpoints were taken and committed since |
| `Retention.SessionGrows` | kernel/keyframe_store_sync.c:44-67 | the epochs of a session, while the counter does not wrap, grow above what is retained exactly when the session resumes at or past it |
| `Retention.SessionKeepsHealth` | kernel/keyframe_store_sync.c:44-67 | such a session keeps a store of up to 30 regions healthy, wherever its power fails |
| `CheckpointEngine.StaleRun` | kernel/checkpoint.c:362-391 | a run from boot whose second checkpoint is not the moment it was taken at: a page left clean by the first is written before the second take |
| `CheckpointEngine.LateReadOnlyRun` | kernel/checkpoint.c:309-360 | a run from boot with a read-only page mapped while the checkpoint is open |
| `CheckpointEngine.MissedRuns` | kernel/checkpoint.c:309-360 | two runs from boot that lose a page: protected by a fork before the take, and unmapped unwritten while the checkpoint is open |
| `CheckpointKernel.MarkPages` | kernel/checkpoint.c:118-152 | the walk marks every page of writable regions and counts those it newly protected |
| `CheckpointKernel.PushContexts` | kernel/checkpoint.c:213-241 | one context record for each process, pushed in order |
| `CheckpointKernel.Engine.constructor` | kernel/checkpoint.c:43-52 | the engine starts at epoch 0 with nothing open |
| `CheckpointKernel.Engine.TakeCheckpoint` | kernel/checkpoint.c:649-686 | a take marks, captures contexts, opens the next epoch, modulo 2^64, and counts the pages it newly protected |
| `CheckpointKernel.Engine.HandleWriteFault` | kernel/checkpoint.c:279-300 | a fault anywhere in a page is handled exactly when the page is present and tagged; it is then captured and writable |
| `CheckpointKernel.Engine.Writeback` | kernel/checkpoint.c:393-415 | the stream reaches the store up to the cut; only a commit drops the captures and closes the epoch, and nothing else changes |
| `CheckpointKernel.Engine.Tick` | kernel/checkpoint.c:696-728 | a checkpoint is taken exactly when the interval has elapsed and the previous one has been written back; the answer says so unless the epoch wrapped to 0 |
| `Restore.RestoreExact` | kernel/checkpoint.c:500-550 | restoring succeeds exactly when no page, by its rounded-down address, occurs twice and at most 64 pids occur, and rebuilds what the records say |
| `Restore.RestoreIsTakeMoment` | include/checkpoint.h:48-65 | a checkpoint restores to the moment of its take (its processes and no other, its pages with their permissions, its contexts byte for byte and zeros after them) exactly under the same conditions, with at most 64 processes and with every kernel tag a process's pid |
| `Restore.StaleCaptureBreaksRestore` | kernel/vmm.c:747-750 | with a left-over capture of a page the take protects, the page is there twice and the restore fails |
| `Restore.StaleRunDoesNotRestore` | kernel/vmm.c:747-750 | the second checkpoint of that run does not restore |
| `Restore.PhantomProcessRun` | kernel/checkpoint.c:500-522 | a run from boot whose checkpoint is the moment record for record and restores with a process that was not there |
| `Restore.ResumeAfterPowerCut` | kernel/checkpoint.c:393-453 | a power cut at any sector of a writeback leaves this checkpoint or the previous one, and what is left resumes the moment of its take exactly under the same conditions |
| `Restore.RestoreCheckpoint` | kernel/checkpoint.c:419-453 | the restore loop applies the records of what the disk holds and stops at the first failure |
| `KernelBlob.ChunkCountExact` | kernel/checkpoint.c:243-277 | the capture loop visits exactly the blob's chunks, or none when rounding up wraps |
| `KernelBlob.ChunkBytes` | kernel/checkpoint.c:255-272 | a chunk byte by byte: the blob's bytes, and zeros past its end |
| `KernelBlob.CaptureKernelBlob` | kernel/checkpoint.c:243-277 | the records pushed for a blob, and success reported whenever there is data |
| `KernelBlob.TagRoundTrip` | include/checkpoint_restore_seq.h:73-78 | size and index come back out of the address field |
| `KernelBlob.RefusedExactly` | kernel/checkpoint_restore_seq.c:58-81 | a chunk past the end is refused for every index below 2^20; above, by where its wrapped offset lands |
| `KernelBlob.PlaceInBuffer` | kernel/checkpoint_restore_seq.c:58-81 | the chunk's bytes replace their stretch of the buffer and nothing else, and the byte count wraps at 32 bits |
| `KernelBlob.Reassembles` | include/checkpoint_restore_seq.h:86-94 | chunks placed once each in any order: complete exactly on the last one, and then the blob byte for byte |
| `KernelBlob.CompleteExactly` | include/checkpoint_restore_seq.h:86-94 | with repeats, complete is reported exactly when the bytes placed, counted in 32 bits, reach the size: below 2^32 bytes, when the repeated ones make up for the missing ones |
| `KernelBlob.RepeatCompletesEarly` | kernel/checkpoint_restore_seq.c:58-81 | a repeated chunk that completes a blob with half of it missing |
| `KernelState.RestoreKernelState` | kernel/checkpoint_boot_v2.c:88-134 | the loop over the records with its slots and its three ways to fail |
| `KernelState.KernelStateRestored` | kernel/checkpoint_boot_v2.c:84-134 | for blobs in any order and interleaving, each falls due once, byte for byte, and nothing else does; the pass succeeds exactly when there are at most six and every restorer takes its blob after those due before it, and then just these were handed over in that order |
| `KernelState.NoTagTwice` | kernel/checkpoint_boot_v2.c:104-122 | whatever the records, repeated chunks included, no tag is handed over twice |
| `KernelState.SlotsByTag` | kernel/checkpoint_boot_v2.c:38-62 | a pass that goes on has a slot for exactly the tags seen, at most six |
| `KernelState.CapturedCarries` | kernel/checkpoint.c:243-277 | capturing a blob under a new tag adds exactly it to what the records carry |
| `KernelState.CarriesAmong` | kernel/checkpoint_boot_v2.c:106-108 | page and context records around the chunks do not matter |
| `KernelCapture.ChunkEventsRun` | kernel/checkpoint.c:243-277 | the capture loop is that many pushes of an engine run |
| `KernelCapture.CycleCarries` | kernel/checkpoint.c:243-277 | whatever else happens before and after the take, the stream of a period that captures each tag once carries exactly the captured blobs |
| `ProcTable.Table.Serialize` | kernel/checkpoint_proctable.c:26-45 | the table's bytes at the front of the buffer, or nothing written when the count is too high or the buffer too short |
| `ProcTable.Table.Deserialize` | kernel/checkpoint_proctable.c:47-67 | a well-formed blob's rows are taken; otherwise the table is untouched |
| `ProcTable.Table.Find` | kernel/checkpoint_proctable.c:69-80 | the first record with the pid, or none exactly when it is absent |
| `ProcTable.Table.Validate` | kernel/checkpoint_proctable.c:82-109 | accepts exactly the tables with nonzero unique pids whose links all resolve |
| `ProcTable.ParseExactly` | kernel/checkpoint_proctable.c:47-67 | a blob is read as a table exactly when it starts with what writing that table produces |
| `ProcTable.BlobStarts` | kernel/checkpoint_proctable.c:26-45 | every blob starts with magic, version and count |
| `ProcTable.ProcOnDisk` | include/checkpoint_proctable.h:30-41 | a process record field by field |
| `ProcTable.RoundTrip` | include/checkpoint_proctable.h:48-70 | reading undoes writing, and no proper prefix is read |
| `IpcTable.Table.Serialize` | kernel/checkpoint_ipc.c:25-50 | the channels' and messages' bytes at the front of the buffer, or nothing written |
| `IpcTable.Table.Deserialize` | kernel/checkpoint_ipc.c:52-75 | a well-formed blob's rows are taken; otherwise the table is untouched |
| `IpcTable.Table.FindChannel` | kernel/checkpoint_ipc.c:77-88 | the first channel with the id, or none exactly when it is absent |
| `IpcTable.Table.Validate` | kernel/checkpoint_ipc.c:90-116 | accepts exactly the tables with nonzero unique channel ids whose messages fit and belong to a channel |
| `IpcTable.ParseExactly` | kernel/checkpoint_ipc.c:52-75 | a blob is read as a table exactly when it starts with what writing that table produces, up to the reserved word |
| `IpcTable.BlobStarts` | kernel/checkpoint_ipc.c:25-50 | every blob starts with magic, version and the two counts |
| `IpcTable.ChannelOnDisk` | include/checkpoint_ipc.h:28-34 | a channel field by field |
| `IpcTable.MessageOnDisk` | include/checkpoint_ipc.h:36-47 | a message field by field, then its data |
| `IpcTable.RoundTrip` | include/checkpoint_ipc.h:56-68 | channels and messages come back in order, and no proper prefix is read |
| `DiskReattach.ReadMagic` | kernel/checkpoint_disk.c:8-15 | the shift loop computes the little-endian value of the first eight bytes and loses no bit |
| `DiskReattach.Reattach` | kernel/checkpoint_disk.c:28-47 | which outcome each state of the drive gives |
| `DiskReattach.RefusedHoldsNothing` | kernel/checkpoint_disk.c:28-47 | a disk turned away for its magic holds no checkpoint |
| `DiskReattach.StoreRecognised` | kernel/checkpoint_disk.c:28-47 | every disk a formatted store can become through finished or cut checkpoints is recognised |
| `WholeMachine.TablesSurvivePowerCuts` | kernel/checkpoint_boot_v2.c:64-134 | from the capture, over any series of cut checkpoints: the disk is recognised and the checkpoint found; the kernel-state pass succeeds exactly when there are at most six blobs, both tables are consistent and every other restorer takes its blob in turn, and then what was handed over parses to exactly those tables |

## Left out

- KeyframeStore.RunKeepsHealth: assumes that epochs grow and, of a ring of more than 30 regions only, that a torn index is told from both whole ones by its checksum (`TearNoticed`), which a 32-bit checksum cannot guarantee. The same goes for KeyframeStore.StepKeepsHealth, CrashedRunLoads, CrashedCommitWindow, RetainedSurviveCrash and CutDecidesIndex.
- KeyframeStore.Store.constructor: stores whose regions would pass sector 2^32 are outside the model.
- KeyframeStore.Store.Checkpoint: requires the ring's head to name a slot, which holds of every ring the kernel makes but is not checked of an index read from a foreign disk.
- CheckpointKernel.Engine.TakeCheckpoint: the process list can be read.
- KernelState.RestoreKernelState: the slots are a map of at most six values, not an array of buffers.
- WholeMachine.TablesSurvivePowerCuts: what the restorers do with an accepted table, and when the other tags' restorers accept, is open; the adapters that fill the tables from live processes and channels are not part of this model.
- JournalStore.LoadJournal: the slot's base wraps at 32 bits as in the source; sectors counted on from it do not, which only a corrupt superblock could show.
- Reverse.Rewinder.To: the journals retained are a set; the live event source holds only the last committed one (kernel/replay_driver_sync.c:28-31), and `Reverse.OneJournalLands` says what can then be reached.
- CheckpointEngine.EveryCheckpointExact: every writeback in the run commits; what a failed one leaves is `CheckpointKernel.Engine.Writeback`.
- TimeTravel.EpochReplays: logs of at least one time and below 2^32 entries.
- JournalCapture.CaptureEpoch: the recorders' counts are 32-bit, as in the source.
- CheckpointKernel.Engine.Tick: one CPU, as the kernel runs it; the barrier itself is modelled for any number.
- Allocation failure, null arguments and reads that fail on a working disk.
- Disk faults other than stopping between sector writes and damage to what is at rest: reordering, torn single sectors.
- SnapshotStore.DamagedHeader: damage to the record count itself makes the checksum run over another length, and no bound on what it then accepts is claimed.
- A crash during formatting, and a store whose base and slots pass sector 2^32.
- Page tables, TLB, physical frames and their sharing after a fork: a page is its flags and contents, and all pages of a process go at once when it ends.
- The capture list, the page map and the journal's sector buffer are values that methods reassign; aliasing of capture buffers is not captured.
- The boot sequencer, the driver registry, framebuffer re-attach and severed external state: a few branches each.
- The open-file table: the same shape as the process table.
- The divergence detector, the gdb and MCP front ends and the kernel adapters.
