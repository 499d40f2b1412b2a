# UME: verified models of the reclamation, queue and journal core

UME (Unified Memory Engine) records memory events in an append-only journal, replays them into
analyzers, and shares data between threads with lock-free queues and deferred reclamation. This
project models that core in Dafny and proves what its code does.

- **Protocols as step machines** (`EpochRcu`, `EpochRcuConservation`, `EpochRcuLimits`, `EpochRcuAlone`,
  `EpochRcuAmid`, `MpscQueue`, `SpscQueue`, `HazardProtocol`, `HazardAlone`, `ConcurrentAppend`): each atomic access is one step,
  a schedule is any list of steps, and the theorems hold for every schedule. Loads and stores are sequentially
  consistent. The results about calls that nothing interrupts tie the machines to the objects and to the
  arguments and results of the calls.
- **Objects as classes** (`EpochManager`, `HazardPointers`, `JournalWriting`, `JournalReader`,
  `EventAnalysis`, `EventReplay`, `MemoryOptimizer`, `MemoryPlacement`, `StringInterner`): fields are updated
  in place and every method is proved against functions of its inputs and old state.
- **Data and laws** (`Crc`, `EventCodec`, `JournalFormat`, `SegmentNames`, `JournalReading`, `JournalRecovery`,
  `JournalGuarantees`, `JournalDamage`, `JournalHeaderDamage`, `JournalResync`, `JournalReopened`,
  `ConcurrentAppendGuarantees`, `MemoryAccounting`, `AccountingGuarantees`, `AccountingTotals`, `InternerAgreement`,
  `RingIndex`, `Counting`): byte layouts, the checksum algebra and the results that span modules.

`dafny verify dfyconfig.toml` checks the whole project.

## Where the code and its documentation differ

The model follows the code.

- The checksum is described as IEEE 802.3 CRC32, but core/src/event/event_serializer.cpp:19 uses
  0xED888320 and not 0xEDB88320. All checksum results are about the code's own polynomial.
- The record header comment speaks of a wider checksum range; the code covers 20 bytes of a record header
  (core/src/event/journal_writer.cpp:148) and 32 bytes of a segment header (core/src/event/journal_writer.cpp:106).
- The reader promises to skip corrupted records. For payload damage it does; damage to a record header loses
  the rest of the segment (`FirstHeaderCostsFirstSegment`) unless the scan happens on a later record
  (`HeaderDamageResumes`), damage to a segment header the rest of the journal (`SegmentHeaderBurstEndsJournal`),
  and a valid header with size zero makes it loop (`DivergesIffZeroSized`).
- Opening a directory that already holds a journal neither appends to it nor replaces it: writing starts again at
  segment 0 over the old bytes, and old records behind the new ones are read back (`ReopenedRoundTripIff`).
- The MPSC queue's static assertions admit a capacity of one, for which accepted values are lost (`LosslessIff`).
- `resolve` returns the interned string only if it holds no NUL, and `intern` is right if and only if no string is
  looked up after the arena has outgrown its reservation (`AgreementIff`), since the index keeps views into storage
  that growth frees.

## Model

| member | source | states |
|---|---|---|
| `EpochRcu.ReclamationIsSafe` | core/src/concurrency/epoch_rcu.cpp:44-152 | In every interleaving of the single loads and stores of any number of threads, no item is handed to its deleter while a reader whose active store preceded the item's epoch load is still in that critical section, timed out or not, given exclusive slots, no nested guards and no unregistering inside a section. |
| `EpochRcu.InsideIsProtected` | core/src/concurrency/epoch_rcu.cpp:44-152 | The same without the model's history: an item whose epoch is loaded while a reader is inside a section is not handed to its deleter as long as that reader stays inside, step after step. |
| `EpochRcu.StepKeepsInv` | core/src/concurrency/epoch_rcu.cpp:29-152 | Each atomic step of register, enter, exit, unregister, retire, epoch advance and reclaim keeps the inductive invariant: a guarded item's reader publishes an epoch no newer than the item's, and every scanning reclaimer has counted it or still has its slot ahead. |
| `EpochRcu.SweepKeepsInv` | core/src/concurrency/epoch_rcu.cpp:132-143 | The partition under the mutex dooms no guarded item, although the minimum was computed by an earlier, interruptible scan. |
| `EpochRcu.SplitMembers` | core/src/concurrency/epoch_rcu.cpp:133-142 | The partition puts an item on the deletion side exactly when its epoch is below the minimum, and on the other side otherwise. |
| `EpochRcuConservation.EachItemInOnePlace` | core/src/concurrency/epoch_rcu.cpp:75-152 | In every schedule, with any number of concurrent reclaimers, each retired item is exactly once in one place: being pushed, pending, held by one reclaimer, or run. |
| `EpochRcuConservation.RunConserves` | core/src/concurrency/epoch_rcu.cpp:75-152 | The multiset of items retired so far always equals pending items plus items carried by threads plus items run. |
| `EpochRcuLimits.PolicySafeIff` | core/src/concurrency/epoch_rcu.cpp:29-152 | The exact reach of safety: with guards up to `depth` deep, `registrations` in all, and unregistering inside a section allowed or not, every schedule is safe if and only if nobody can enter, or depth is 1, registrations are at most 64 and unregistering inside is not allowed. |
| `EpochRcuLimits.RegistrationLimitIff` | core/src/concurrency/epoch_rcu.cpp:29-42 | With single guards and no unregistering inside sections, all schedules with at most `limit` registrations are safe if and only if `limit` is at most 64; unregistering returns no slot. |
| `EpochRcuLimits.NestingLimitIff` | core/src/concurrency/epoch_rcu.cpp:54-73 | With exclusive slots, all schedules that hold guards at most `depth` deep are safe if and only if `depth` is at most 1. |
| `EpochRcuLimits.SharedSlotUnsafe` | core/src/concurrency/epoch_rcu.cpp:34-38 | A run with single guards and 65 registrations in which the slot 0 fallback ends another reader's protection and its item is handed to the deleter. |
| `EpochRcuLimits.NestedGuardsUnsafe` | core/src/concurrency/epoch_rcu.cpp:54-73 | A run with one registration and guards two deep in which dropping the inner guard leaves the outer section unprotected and an item is handed to its deleter. |
| `EpochRcuLimits.UnregisterInsideUnsafe` | core/src/concurrency/epoch_rcu.cpp:44-52 | A run with one registration and one guard in which unregistering with the guard alive clears its flag and an item is handed to its deleter inside the section. |
| `EpochRcuAlone.AdvanceAlone` | core/src/concurrency/epoch_rcu.cpp:86-114 | From every state, `try_advance_epoch` run by one thread without interruption raises the epoch by one, unless some slot below both the registrations and 64 is active, in an older epoch and not timed out when it is visited; nothing else changes. |
| `EpochRcuAlone.ReclaimAlone` | core/src/concurrency/epoch_rcu.cpp:116-152 | From every state, an uninterrupted `reclaim` is that advance followed by running, in order, exactly the items older than the minimum over the new epoch and the scanned active slots. |
| `EpochRcuAlone.CallAgrees` | core/src/concurrency/epoch_rcu.cpp:29-152 | For every operation, the step machine run to the end of the call and the call on the manager object take the same epoch, slots, registrations, retired list and deleters run to the same. |
| `EpochRcuAmid.AdvanceAmid` | core/src/concurrency/epoch_rcu.cpp:86-114 | Whatever other threads do between its steps, `try_advance_epoch` visits the slots handed out in order and its last step raises the epoch by one, unless the slot visited last was seen active, then in an epoch before the one loaded at the start, and not timed out; then nothing changes. |
| `EpochRcuAmid.SweepAmid` | core/src/concurrency/epoch_rcu.cpp:119-143 | Whatever other threads do between its steps, a reclaim splits the retired list it finds by the minimum of the epoch it loaded first and the epochs of the slots it saw active. |
| `EpochRcuAmid.EnterAmid` | core/src/concurrency/epoch_rcu.cpp:54-65 | Whatever other threads do between its steps, `enter` publishes the epoch it loaded first and sets the flag afterwards. |
| `EpochManager.EpochReclaimer.Reclaim` | core/src/concurrency/epoch_rcu.cpp:116-152 | Taken as one call: an item stays pending if and only if some scanned active slot has an epoch at or below the item's; the others are run in order, nothing is lost or run twice, and the epoch stays exactly when a reader blocks it. |
| `EpochManager.EpochReclaimer.TryAdvanceEpoch` | core/src/concurrency/epoch_rcu.cpp:86-114 | The epoch advances by one exactly when no scanned active reader in an older epoch entered less than timeout times 1000000 nanoseconds ago; a zero timeout never blocks. |
| `EpochManager.EpochReclaimer.Enter` | core/src/concurrency/epoch_rcu.cpp:54-65 | Publishes the current epoch and the entry time in the slot; an out-of-range slot is ignored; no slot epoch exceeds the global epoch. |
| `EpochManager.EpochReclaimer.Retire` | core/src/concurrency/epoch_rcu.cpp:75-84 | Queues the item under the current epoch; a missing deleter is ignored. |
| `EpochManager.KeptIffHeldBack` | core/src/concurrency/epoch_rcu.cpp:119-143 | Splitting the retired list by the minimum active epoch keeps exactly the items some scanned reader holds back. |
| `EpochManager.MinActiveAtMost` | core/src/concurrency/epoch_rcu.cpp:119-130 | The minimum found by the scan is at most e exactly when the global epoch is, or some active scanned slot is. |
| `EpochManager.HeldBackIffScanned` | core/src/concurrency/epoch_rcu.cpp:116-130 | With a slot active, an item of the newest epoch is held back if and only if that slot number is below the manager's own registrations or another scanned reader is active. |
| `EpochManager.ReclaimBesideReader` | core/src/concurrency/epoch_rcu.cpp:11-42 | For every manager, with whatever pending items and other readers, and every slot number from elsewhere: the item retired and reclaimed inside that reader's section stays pending if and only if the manager has handed out that number itself or another scanned reader is active, and is run otherwise; nothing is lost or run twice. |
| `EpochManager.ReaderOfAnotherManager` | core/src/concurrency/epoch_rcu.cpp:11-42 | Two managers: the reader registered once, with the first, and got slot 0; the second has registered nobody, its slot 0 is active with an epoch no newer than an item's, and it has run that item. |
| `MpscQueue.FirstInFirstOut` | core/include/ume/concurrency/mpsc_queue.h:43-113 | For any number of producers, any schedule and any capacity of at least two, the delivered values are exactly a prefix of the values in order of their successful cursor exchange, those of each producer are the arguments of its accepted calls in order, and no more are accepted than there are cells. |
| `MpscQueue.NothingAcceptedIsLost` | core/include/ume/concurrency/mpsc_queue.h:43-113 | Once all enqueues have returned, the consumer delivers every accepted value, in order, in five steps each; for each producer these are the arguments of its calls that returned true. |
| `MpscQueue.ClaimsAreCalls` | core/include/ume/concurrency/mpsc_queue.h:43-70 | In every schedule and for any capacity, a producer under way still works with the argument of its call, and the positions it owns hold, in order, the arguments of its calls that returned true and of the one that holds a position. |
| `MpscQueue.EnqueueAlone` | core/include/ume/concurrency/mpsc_queue.h:43-70 | In every reachable state, an uninterrupted enqueue changes nothing when all cells are taken, and otherwise publishes its argument at the cursor's position and changes nothing else. |
| `MpscQueue.DequeueAlone` | core/include/ume/concurrency/mpsc_queue.h:99-113 | In every reachable state, an uninterrupted dequeue changes nothing when its position is not published, and otherwise delivers the oldest accepted value and hands its cell back. |
| `MpscQueue.WritersExclusive` | core/include/ume/concurrency/mpsc_queue.h:63 | Two producers are never both about to write the data of one cell. |
| `MpscQueue.ReaderExclusive` | core/include/ume/concurrency/mpsc_queue.h:63-105 | With any number of producers, none is about to write the data of the cell the consumer is about to read. |
| `MpscQueue.RejectedIffFull` | core/include/ume/concurrency/mpsc_queue.h:46-57 | An enqueue ends if and only if it has published, or its position is the cursor's and every cell is claimed and not recycled at its sequence load; only then is it refused. |
| `MpscQueue.RetryMeansProgress` | core/include/ume/concurrency/mpsc_queue.h:51-60 | An enqueue repeats its loop only after another producer claimed its position, or after a spurious failure of the weak exchange, and then from the cursor's current position. |
| `MpscQueue.NothingToTakeIff` | core/include/ume/concurrency/mpsc_queue.h:99-113 | A dequeue reports empty if and only if nothing is claimed or the producer of the oldest position has not published it. |
| `MpscQueue.StepKeepsInv` | core/include/ume/concurrency/mpsc_queue.h:43-113 | Every step keeps the invariant tying each cell in the window of live positions to free, claimed by its owner, or published with the claimed value. |
| `MpscQueue.CellAge` | core/include/ume/concurrency/mpsc_queue.h:48-60 | How a cell's sequence number compares with a position read from the cursor: behind it exactly when the ring is full, ahead only when the position has been claimed. |
| `MpscQueue.CapacityKeptIff` | core/include/ume/concurrency/mpsc_queue.h:21-22 | The queue keeps to its capacity in every schedule if and only if it has at least two cells, although the static assertions admit one. |
| `MpscQueue.LosslessIff` | core/include/ume/concurrency/mpsc_queue.h:21-113 | Every accepted value can be drained in every schedule if and only if there are at least two cells. |
| `MpscQueue.OneCellLosesBoth` | core/include/ume/concurrency/mpsc_queue.h:21-113 | With one cell a second enqueue is accepted over the first value, and from then on no schedule delivers anything. |
| `SpscQueue.FirstInFirstOut` | core/include/ume/concurrency/spsc_queue.h:33-76 | For every interleaving and with counters modulo 2^64, popped values are a prefix of the arguments of the accepted pushes in order, the rest fits the capacity and is still in its cells. |
| `SpscQueue.PushedAreCalls` | core/include/ume/concurrency/spsc_queue.h:33-46 | In every schedule what was pushed is exactly the arguments of the pushes that moved the head, in order, and a push under way still holds its own argument. |
| `SpscQueue.PushAlone` | core/include/ume/concurrency/spsc_queue.h:33-46 | In every reachable state, an uninterrupted push appends its argument when there is room and otherwise changes no element. |
| `SpscQueue.PopAlone` | core/include/ume/concurrency/spsc_queue.h:63-76 | In every reachable state, an uninterrupted pop takes the oldest element, or nothing when there is none. |
| `SpscQueue.FrontAlone` | core/include/ume/concurrency/spsc_queue.h:78-86 | In every reachable state, an uninterrupted front points at the oldest element, or at nothing when there is none, and takes nothing. |
| `SpscQueue.CellsExclusive` | core/include/ume/concurrency/spsc_queue.h:43-86 | The producer never writes the cell the consumer is about to read or points at, and the pointer from `front` denotes the oldest element while it is held. |
| `SpscQueue.RefusedIffFull` | core/include/ume/concurrency/spsc_queue.h:36-41 | A push ends if and only if it has published, or the queue is full at the moment the tail is reloaded; only then is it refused. |
| `SpscQueue.NothingIffEmpty` | core/include/ume/concurrency/spsc_queue.h:66-84 | A pop or front finds nothing if and only if the queue is empty at the moment the head is loaded. |
| `SpscQueue.StepKeepsInv` | core/include/ume/concurrency/spsc_queue.h:33-86 | Every step keeps the invariant relating wrapped counters and cached indices to the true counts. |
| `SpscQueue.ApproxSizeExactIff` | core/include/ume/concurrency/spsc_queue.h:92-96 | Read at one instant, `approx_size` is exact if and only if the head has not wrapped past the tail; otherwise a queue with elements reports zero. |
| `HazardProtocol.ProtectedUntilCleared` | core/include/ume/concurrency/hazard_pointers.h:41-125 | Under any interleaving of readers with the writer, an entry whose pointer an active slot has published since before it was retired has not been freed. |
| `HazardProtocol.HeldIsNotFreed` | core/include/ume/concurrency/hazard_pointers.h:41-125 | The same without the model's history: a pointer that a slot publishes after some step and after every later one is not freed when it is retired after that step. |
| `HazardProtocol.PendingBounded` | core/include/ume/concurrency/hazard_pointers.h:77-125 | Between the writer's calls at most 128 distinct pointers are pending. |
| `HazardProtocol.PendingOrFreedOnce` | core/include/ume/concurrency/hazard_pointers.h:77-125 | Each retired entry is pending or freed, exactly once. |
| `HazardProtocol.StepKeepsInv` | core/include/ume/concurrency/hazard_pointers.h:41-125 | Each slot access of a reader and each step of the scan keeps the invariant that scanned slots guard no entry the scan did not find. |
| `HazardAlone.ReclaimAlone` | core/include/ume/concurrency/hazard_pointers.h:85-125 | From every state, an uninterrupted scan and sweep keeps exactly the entries the slots publish and frees the others, both in order. |
| `HazardAlone.RetireAgrees` | core/include/ume/concurrency/hazard_pointers.h:77-82 | The protocol run to the end of a retire and the call on the domain object take the same slots, retired list and freed list to the same. |
| `HazardAlone.ReclaimAgrees` | core/include/ume/concurrency/hazard_pointers.h:85-125 | The same for a reclaim. |
| `HazardAlone.AcquireAgrees` | core/include/ume/concurrency/hazard_pointers.h:41-50 | The same for acquiring: exchanges on slots 0, 1, 2, ... fail without effect up to the first inactive one. |
| `HazardAlone.ProtectAgrees` | core/include/ume/concurrency/hazard_pointers.h:61-73 | The same for publishing a pointer and for clearing. |
| `HazardAlone.ReleaseAgrees` | core/include/ume/concurrency/hazard_pointers.h:53-58 | The same for giving a slot back. |
| `HazardPointers.HazardPointerDomain.Reclaim` | core/include/ume/concurrency/hazard_pointers.h:85-125 | Frees exactly the entries no active slot publishes, in order, keeps the others in order and returns the number freed. |
| `HazardPointers.HazardPointerDomain.Retire` | core/include/ume/concurrency/hazard_pointers.h:77-82 | Queues the pointer and reclaims; a null pointer or missing deleter changes nothing. |
| `HazardPointers.HazardPointerDomain.AcquireSlot` | core/include/ume/concurrency/hazard_pointers.h:41-50 | Takes the first inactive slot, or returns 128 when all are active. |
| `HazardPointers.PublishedIff` | core/include/ume/concurrency/hazard_pointers.h:92-99 | A pointer is collected exactly when it is not null and some active slot holds it. |
| `HazardPointers.SplitByPublished` | core/include/ume/concurrency/hazard_pointers.h:104-122 | Survivors and freed entries together are the retired list; survivors are published, freed entries are not. |
| `Crc.BurstDetected` | core/src/event/event_serializer.cpp:14-40 | Two different byte strings of equal length whose differences lie within four consecutive bytes have different checksums. |
| `Crc.ComputeCrc32` | core/src/event/event_serializer.cpp:30-40 | The table-driven loop computes the bitwise reference checksum. |
| `Crc.GenerateTable` | core/src/event/event_serializer.cpp:14-24 | Each table entry is eight shifts of its index. |
| `Crc.LookupIsEightShifts` | core/src/event/event_serializer.cpp:35-38 | The table step for one byte equals eight register shifts on state xor byte. |
| `Crc.RegisterInjective` | core/src/event/event_serializer.cpp:30-40 | Absorbing the same bytes keeps different register states different. |
| `Crc.ShiftsInjective` | core/src/event/event_serializer.cpp:17-20 | Shifting loses no information, since the polynomial's top bit is set. |
| `Crc.FourBytes` | core/src/event/event_serializer.cpp:30-40 | Absorbing four bytes equals 32 shifts of the state xored with their little-endian word. |
| `Crc.RegisterBurst` | core/src/event/event_serializer.cpp:30-40 | From any state, the register tells strings apart that differ within four consecutive bytes. |
| `Crc.ChecksumResidue` | core/src/event/event_serializer.cpp:30-40 | Absorbing a string and then its own checksum always leaves the same register state. |
| `Crc.CheckValue` | core/src/event/event_serializer.cpp:14-40 | The checksum of the two bytes 0x31, 0x32 is 0x4F729E8D. |
| `EventCodec.DecodeEncode` | core/include/ume/event/event.h:21-34 | Reading back the 128-byte image of an event gives the event. |
| `EventCodec.EncodeDecode` | core/include/ume/event/event.h:21-34 | Every 128-byte buffer is the image of exactly one event. |
| `EventCodec.DecodedFields` | core/include/ume/event/event.h:21-34 | Each field of an event is read from its own bytes: id 0-7, timestamp 8-15, object 16-23, type 24-25, category 26, priority 27, flags 28-31, tiers 32-35, payload size 36-39, sequence number 40-43, reserved 44-63, payload 64-127. |
| `EventCodec.Serialize` | core/src/event/event_serializer.cpp:42-53 | Writes the image over the first 128 bytes and leaves the rest, or refuses a short buffer and writes nothing. |
| `EventCodec.DeserializeIff` | core/src/event/event_serializer.cpp:55-88 | A buffer yields an event if and only if its first 128 bytes are the event's image and the event is valid; everything else is refused with one error. |
| `EventCodec.DeserializesIff` | core/src/event/event_serializer.cpp:66-88 | From the bytes: a buffer yields an event if and only if it has 128 bytes and either bytes 24-26 are not all zero and the word at 36-39 is at most 64, or bytes 24-26, 0-7 and 36-39 are all zero. |
| `EventCodec.FactoryEventAccepted` | core/include/ume/event/event.h:101-117 | The image of every event made by `create_object_event` is accepted and read back as that event. |
| `JournalFormat.SegmentHeaderIsValid` | core/src/event/journal_writer.cpp:99-109 | A written segment header passes the reader's magic and checksum test. |
| `JournalFormat.SegmentHeaderBytes` | core/include/ume/event/journal_writer.h:23-32 | The 64 bytes of a segment header: magic, version 1.0, id, creation time, size, checksum of bytes 0-31, zeros. |
| `JournalFormat.RecordFields` | core/src/event/journal_writer.cpp:141-148 | A written record header checks out and gives back its size, payload checksum and payload. |
| `JournalFormat.RecordBytes` | core/include/ume/event/journal_writer.h:40-47 | The 160 bytes of a record: magic, size 160, sequence number, payload checksum, checksum of bytes 0-19, zeros, payload. |
| `JournalFormat.SegmentAtSlot` | core/include/ume/event/journal_writer.h:22-47 | Record j of a segment lies at offset 64 + 160 j and inside the segment. |
| `JournalWriting.JournalSlots` | core/src/event/journal_writer.cpp:114-158 | The records of a journal are the appended events under sequence numbers 1, 2, 3, ... across any number of rollovers. |
| `JournalWriting.JournalFills` | core/src/event/journal_writer.cpp:122-137 | Every segment but the last is full. |
| `JournalWriting.NthAppend` | core/src/event/journal_writer.cpp:114-158 | With K records per segment, append n is in segment (n-1)/K at offset 64 + 160 ((n-1) mod K) under sequence number n. |
| `JournalWriting.NthRecordBytes` | core/src/event/journal_writer.cpp:139-152 | The bytes of append n in its file: magic and size, n as sequence number, both checksums, padding and the image of event n. |
| `JournalWriting.JournalHeaders` | core/src/event/journal_writer.cpp:99-106 | Segment i carries number i and its creation time. |
| `JournalWriting.JournalWriter.Open` | core/src/event/journal_writer.cpp:60-84 | Starts segment 0 in a directory that is empty or holds an older journal, keeping that journal's bytes behind its header, or reports the reason it cannot and changes nothing. |
| `JournalWriting.JournalWriter.RollSegment` | core/src/event/journal_writer.cpp:86-112 | Maps the current segment and writes its header over whatever the file already held, with zeros behind what it held. |
| `JournalWriting.JournalWriter.Append` | core/src/event/journal_writer.cpp:114-158 | One append extends the journal by one record under the next sequence number, rolling over when it does not fit, and the directory keeps holding exactly the journal's bytes over the older journal's. |
| `JournalWriting.JournalWriter.Close` | core/src/event/journal_writer.cpp:168-179 | Leaves exactly the journal's segments in the directory, each over the older segment in its place. |
| `JournalWriting.WriteJournal` | core/src/event/journal_writer.cpp:60-179 | Opening an empty directory, appending any list of events and closing leaves exactly the files of that journal. |
| `JournalWriting.RewriteJournal` | core/src/event/journal_writer.cpp:72-112 | The same in a directory holding any journal of that segment size leaves the new segments laid over the old ones, and the old ones behind the last new one. |
| `SegmentNames.IdOrderIffUnderAMillion` | core/src/event/journal_writer.cpp:53-58 | Segment names sort in id order if and only if there are at most 10^6 segments. |
| `SegmentNames.NameOrder` | core/src/event/journal_writer.cpp:53-58 | Below 10^6, a smaller id has the lexicographically smaller name. |
| `SegmentNames.NameOfSegment` | core/src/event/journal_writer.cpp:53-58 | Below 10^6 a name is `segment_`, the six decimal digits of the id, and `.umej`. |
| `SegmentNames.MillionthNameComesEarly` | core/src/event/journal_writer.cpp:53-58 | The name of segment 1000000 sorts before that of segment 100001. |
| `SegmentNames.NamesDistinct` | core/src/event/journal_writer.cpp:53-58 | Different segments have different names. |
| `SegmentNames.SortPaths` | core/src/event/journal_reader.cpp:46 | Sorting returns each file once, in strictly increasing order. |
| `SegmentNames.ListingIsSegmentOrder` | core/src/event/journal_reader.cpp:36-46 | A sorted listing of a journal's files is its segments in order. |
| `JournalReading.HangsForever` | core/src/event/journal_reader.cpp:92-161 | The model's hang is real: one `read_next` call never leaves its loop exactly when the model says so. |
| `JournalReading.VerdictFromBytes` | core/src/event/journal_reader.cpp:107-152 | What the reader makes of any 160 bytes, from the bytes: padding, no magic, bad header, damaged or sound, with the length of its size field and the event of bytes 32-159. |
| `JournalReading.DivergesIffZeroSized` | core/src/event/journal_reader.cpp:87-162 | Reading to the end fails to terminate if and only if the scan comes to a record with a valid header and size field zero. |
| `JournalReading.ZeroSizedRecordHangs` | core/src/event/journal_reader.cpp:138-145 | A record with a valid header, size zero and a wrong payload checksum makes `read_next` loop forever. |
| `JournalReading.ReadingTerminates` | core/src/event/journal_reader.cpp:87-162 | On arbitrary bytes without such records every read returns and the journal ends. |
| `JournalReading.ReadingIsSound` | core/src/event/journal_reader.cpp:87-162 | On arbitrary bytes, for any number of deliveries, also when reading never ends: every delivered event lies in bounds under a valid header with both checksums matching, and positions strictly increase past every record of nonzero size. |
| `JournalReader.Reader.OpenDirectory` | core/src/event/journal_reader.cpp:29-49 | Lists exactly the journal files in sorted order and loads the first; a missing directory, an empty one and each reason for not loading have their status. |
| `JournalReader.Reader.OpenSegment` | core/src/event/journal_reader.cpp:22-27 | Lists the one given path and loads it, or reports that it is missing or corrupt. |
| `JournalReader.Reader.LoadCurrentSegment` | core/src/event/journal_reader.cpp:51-85 | Maps the current file and checks its header, with the cursor of the specification and the status of each failure. |
| `JournalReader.Reader.ReadNext` | core/src/event/journal_reader.cpp:87-162 | The loop returns what the specification of one read says, with the cursor and statistics it says. |
| `JournalReader.Reader.Close` | core/src/event/journal_reader.cpp:12-20 | Forgets the listing and mapping and keeps the statistics. |
| `JournalReader.Inspect` | core/src/event/journal_reader.cpp:111-152 | The record checks with table-driven checksums give the verdict the specification gives. |
| `JournalRecovery.ReadsShown` | core/src/event/journal_reader.cpp:87-162 | Files that show the scanner given slots and then nothing more are read as exactly the intact slots in order, with one skip per damaged slot and per step behind the last slot. |
| `JournalRecovery.ReadsIntactRecords` | core/src/event/journal_reader.cpp:87-162 | Reading a journal whose damage the checksum can see delivers exactly the intact events at their places and counts every other one. |
| `JournalGuarantees.JournalRoundTrip` | core/src/event/journal_reader.cpp:87-162 | Reading back the files of any run of appends gives exactly those events in order, nothing skipped, 160 bytes counted per event. |
| `JournalGuarantees.WriteThenRead` | core/src/event/journal_reader.cpp:29-162 | The same end to end: writer object, directory listing and reader object. |
| `JournalGuarantees.WriteThenReadKnown` | core/src/event/journal_reader.cpp:29-162 | The same for all lists of events with a known type and at most 64 bytes of payload. |
| `JournalReopened.ReopenedReads` | core/src/event/journal_writer.cpp:72-112 | Reading a journal written over an older one delivers, segment by segment, the new events and then the intact old records behind them, and then whole old segments. |
| `JournalReopened.ReopenedRoundTripIff` | core/src/event/journal_writer.cpp:72-112 | Over an intact older journal, reading gives back exactly the appended events if and only if no old segment has more records than the new one in its place. |
| `JournalReopened.RewriteThenRead` | core/src/event/journal_writer.cpp:60-179 | The same end to end: reopening writer, directory listing and reader object. |
| `JournalDamage.FaultIsolation` | core/src/event/journal_reader.cpp:138-153 | If every record suffers at most one burst of four bytes in its payload, exactly the undamaged events are delivered in order and the others counted. |
| `JournalDamage.OneRecordLost` | core/src/event/journal_reader.cpp:138-153 | A burst in one payload of a written journal costs that one event and one skip. |
| `JournalHeaderDamage.HeaderDamageEndsSegment` | core/src/event/journal_reader.cpp:111-136 | When the checked part of a record header was changed and the scan gives the segment up there, the reader delivers what a journal cut off at that record would: the rest of that segment is lost, other segments are read in full. |
| `JournalHeaderDamage.BurstBreaksHeader` | core/src/event/journal_reader.cpp:122-136 | Any change within four consecutive bytes of a record header's 24 checked bytes, the checksum itself included, makes the header fail its checks. |
| `JournalHeaderDamage.BurstHitsHeader` | core/src/event/journal_reader.cpp:111-136 | Every such burst ends the segment, unless a header checks out at header bytes 1 to 16 or the magic stands at bytes 17 to 20. |
| `JournalHeaderDamage.HeaderHitExists` | core/src/event/journal_reader.cpp:111-136 | Every record whose sequence number has no byte 0x44 has a burst of that kind. |
| `JournalHeaderDamage.FirstHeaderCostsFirstSegment` | core/src/event/journal_reader.cpp:111-136 | In every written journal one burst in the first record's header loses all events of the first segment. |
| `JournalHeaderDamage.HeaderDamageIsolatedIff` | core/src/event/journal_reader.cpp:111-136 | Header damage costs exactly one event if and only if the record is the last of its segment. |
| `JournalResync.HeaderDamageReadsOn` | core/src/event/journal_reader.cpp:111-136 | Whatever changes in a record header, reading ends or hangs as it would from that record's offset, and delivers the intact events before it followed by what a reader starting there delivers. |
| `JournalResync.HeaderDamageResumes` | core/src/event/journal_reader.cpp:111-136 | When the scan behind the damaged header comes down on record m of the segment, exactly the records from the damaged one to m - 1 are lost. |
| `JournalResync.ReadsOnAt` | core/src/event/journal_reader.cpp:111-136 | On arbitrary bytes, a read delivers what a read starting at the first offset with a valid header on the scan's course delivers. |
| `JournalResync.NowhereIffEnds` | core/src/event/journal_reader.cpp:111-136 | The scan's course meets no valid header if and only if it gives the segment up. |
| `JournalResync.ResumesAtNextRecord` | core/src/event/journal_reader.cpp:116-136 | A way to resume: with the magic at byte 17 of a bad header and no magic or zero words elsewhere, the scan comes down on the next record. |
| `JournalHeaderDamage.BadSegmentHeaderEndsJournal` | core/src/event/journal_reader.cpp:95-105 | On arbitrary bytes, a file with a bad segment header ends the journal: exactly the records of the files before it are delivered. |
| `JournalHeaderDamage.SegmentHeaderBurstEndsJournal` | core/src/event/journal_reader.cpp:62-79 | A burst of four bytes in the checked header of segment i loses that segment and all later ones; for the first segment the journal cannot be opened. |
| `ConcurrentAppend.CopiesDisjoint` | core/src/event/journal_writer.cpp:122-152 | Threads copying records into one segment write to disjoint in-bounds ranges under different sequence numbers. |
| `ConcurrentAppend.RunKeepsInv` | core/src/event/journal_writer.cpp:114-158 | Every step of any interleaving, down to single byte stores, keeps the reservations, numbers and copied bytes consistent. |
| `ConcurrentAppend.ClaimsAreAppends` | core/src/event/journal_writer.cpp:122-152 | In every interleaving the records written are the arguments of the appends that found room for 160 bytes, in order of reservation. |
| `ConcurrentAppendGuarantees.NumbersExact` | core/src/event/journal_writer.cpp:139 | When all appends within a segment have returned, their sequence numbers are exactly the next n, each used once. |
| `ConcurrentAppendGuarantees.QuietBytes` | core/src/event/journal_writer.cpp:122-152 | The segment then has the bytes of appending one at a time in order of reservation. |
| `ConcurrentAppendGuarantees.ConcurrentRoundTrip` | core/src/event/journal_writer.cpp:114-158 | A reader of that segment gets the argument of every append that found room, in order of reservation, nothing skipped. |
| `AccountingGuarantees.BytesConserved` | core/src/event/event_analyzer.cpp:43-95 | In every run without 64-bit overflow, active bytes equal bytes created less bytes destroyed, and exceed the table's sum by the bytes of live objects created again. |
| `AccountingGuarantees.DestroyNeverClamps` | core/src/event/event_analyzer.cpp:77-90 | The zero clamp on destroy is unreachable, even with repeated creates. |
| `AccountingGuarantees.ActiveBytesExactIff` | core/src/event/event_analyzer.cpp:43-95 | Active bytes equal the sum over the active table if and only if no live object of nonzero size was created again. |
| `AccountingGuarantees.AgreementIffClean` | core/src/event/memory_statistics.cpp:10-97 | Active bytes, per-tier, per-pool and per-process bytes and allocation counts match the active table after every event if and only if no live id is created again and only RAM objects (or empty ones) complete a migration. |
| `AccountingGuarantees.CleanRunNeverClamps` | core/src/event/memory_statistics.cpp:48-97 | In such runs no clamp of the collector fires. |
| `AccountingGuarantees.PeakIsPrefixMaximum` | core/src/event/memory_statistics.cpp:10-46 | In every run each peak is the maximum of its running total over all prefixes. |
| `AccountingTotals.ActiveIsStanding` | core/src/event/event_analyzer.cpp:43-105 | From the events alone: an object is in the active table if and only if its last creation was not followed by its destruction, with that creation's size, time and process, and its tier or RAM after a completed migration. |
| `AccountingTotals.TotalsAreSums` | core/src/event/memory_statistics.cpp:10-97 | In every run the counts and bytes allocated and freed, the total lifetime and the number of lifetimes are the sums over the created and the destroyed objects, modulo 2^64. |
| `AccountingTotals.CountsAreSums` | core/src/event/memory_statistics.cpp:36-96 | In every run the allocation and free counts of each tier and each known process are the numbers of objects created and destroyed in it, modulo 2^64. |
| `AccountingTotals.OrderCounted` | core/src/event/event_analyzer.cpp:17-41 | In every run events processed, newest time and active count are exact, and out-of-order events are the late ones plus the destructions of unknown objects, modulo 2^64. |
| `MemoryAccounting.ObservedBytes` | core/src/event/event_analyzer.cpp:43-56 | The analyzer reads type, object, time, size, tier and process from bytes 24-25, 16-23, 8-15, 64-71, 76 and 40-43 of an event's image. |
| `MemoryAccounting.ObservedFactoryEvent` | core/include/ume/event/event.h:101-117 | An event made by `create_object_event` is seen as a RAM object of its object id, time and size, and no process. |
| `EventAnalysis.StatisticsCollector.RecordAllocation` | core/src/event/memory_statistics.cpp:10-46 | Updates counters, peaks, tier and process entries as specified, for tracked and untracked tiers. |
| `EventAnalysis.StatisticsCollector.RecordFree` | core/src/event/memory_statistics.cpp:48-97 | Lowers every level, clamped at zero, and counts the free and its lifetime. |
| `EventAnalysis.StatisticsCollector.TakeSnapshot` | core/src/event/memory_statistics.cpp:105-136 | Totals, live count, levels, peaks, average size and average lifetime agree with the collector, with zero averages where nothing was counted. |
| `EventAnalysis.EventAnalyzer.ProcessEvent` | core/src/event/event_analyzer.cpp:17-41 | Analyzer and collector move by exactly one specified step; from the event's own fields: a creation files exactly one entry under its object id, a destruction removes that id, a completed migration sets its tier to RAM, and every other type leaves the table alone. |
| `EventAnalysis.EventAnalyzer.HandleCreated` | core/src/event/event_analyzer.cpp:43-65 | Records the allocation in table, totals and collector. |
| `EventAnalysis.EventAnalyzer.HandleDestroyed` | core/src/event/event_analyzer.cpp:67-95 | Removes a known allocation and its bytes with its lifetime; an unknown one changes only what the code changes. |
| `EventAnalysis.EventAnalyzer.HandleMigrated` | core/src/event/event_analyzer.cpp:97-105 | Moves a known allocation's table entry without touching the collector. |
| `EventReplay.ReplayEqualsDirect` | core/src/event/replay_engine.cpp:45-50 | The replay flag added to each event does not change the analyzer or collector state. |
| `EventReplay.ReplayDirectory` | core/src/event/replay_engine.cpp:34-57 | All listeners end in the state of hearing exactly the events a reader of the directory delivers, flagged and filtered, in order; a missing or empty directory is reported as not found and a first segment that does not load as corrupted, both without any change. |
| `EventReplay.HeardIndependently` | core/src/event/event_dispatcher.cpp:50-61 | Listeners that share nothing each end as if only the events of their filter's category, kind and priority had been dispatched, to them alone. |
| `EventReplay.HeardIsChosen` | core/include/ume/event/event_dispatcher.h:36-54 | A filter on category, kind or least priority, 0 standing for any, has the effect of dispatching only the events of that category, kind and priority. |
| `EventReplay.Summarize` | core/src/event/memory_statistics.cpp:105-136 | The snapshot after any list of events without 64-bit overflow: its totals are the sums over created and destroyed objects and its averages their quotients. |
| `EventReplay.WriteThenReplay` | core/src/event/replay_engine.cpp:34-57 | Writing events to a journal and replaying it into a fresh default-filtered analyzer gives the state of processing them directly. |
| `EventReplay.Analyze` | core/src/event/event_analyzer.cpp:17-41 | Processing events one by one gives the fold of the specified step. |
| `EventReplay.EventDispatcher.Dispatch` | core/src/event/event_dispatcher.cpp:50-61 | Every subscription whose filter matches processes the event once, in order of subscription, also when a listener is subscribed twice or listeners share a collector; nothing else changes. |
| `EventReplay.EventDispatcher.Subscribe` | core/src/event/event_dispatcher.cpp:10-20 | A listener is added under a token not in use; a null listener gets token 0. |
| `EventReplay.EventDispatcher.Unsubscribe` | core/src/event/event_dispatcher.cpp:33-48 | Removes exactly the subscription with the token, or reports why not and changes nothing. |
| `MemoryOptimizer.Optimizer.OptimizePass` | core/src/event/memory_optimizer.cpp:62-131 | One pass ages every object, creates tasks for cold and hot ones, hands over exactly the admitted tasks, adds their bytes and estimated times, and keeps the refused; an object cools by the decay rate and, unless null or queued, ends in the tier of its oldest waiting task, else in RAM when below 20 in VRAM, in VRAM when above 80 in RAM, else where it was; tasks created = completed + pending and attempted = completed + cancelled always hold. |
| `MemoryOptimizer.Optimizer.ProcessPending` | core/src/event/memory_optimizer.cpp:101-130 | The erase-while-iterating loop splits the list into admitted and refused tasks as if each were offered in order. |
| `MemoryOptimizer.Optimizer.AgeAndPlan` | core/src/event/memory_optimizer.cpp:66-99 | In whatever order the map is visited, every object is aged once and tasks appear in that order. |
| `MemoryOptimizer.Optimizer.RecordAccess` | core/src/event/memory_optimizer.cpp:46-60 | Raises the object's temperature by ten up to 100, starting at 50, and changes no other object. |
| `MemoryOptimizer.AdmittedOnce` | core/src/event/memory_optimizer.cpp:101-126 | In one pass no object migrates twice, and none that was queued already or is null. |
| `MemoryOptimizer.TasksConserved` | core/src/event/memory_optimizer.cpp:101-130 | Every offered task is admitted or kept, once. |
| `MemoryOptimizer.RefusedBecauseQueued` | core/src/event/memory_optimizer.cpp:126-129 | A task is kept only for a null object or one whose request is in the queue. |
| `MemoryOptimizer.RelocatedTier` | core/src/event/memory_optimizer.cpp:118-123 | After the pass an object is in the tier of its one admitted task, or where it was. |
| `MemoryOptimizer.PlannedIff` | core/src/event/memory_optimizer.cpp:71-98 | An object gets one new task exactly when it is cold in VRAM or hot in RAM after ageing, and never two. |
| `MemoryOptimizer.PlannedTasks` | core/src/event/memory_optimizer.cpp:71-98 | Every new task moves an object below 20 from VRAM to RAM with priority 50 or one above 80 from RAM to VRAM with priority 150, with its size and its cost of 0.00005 per byte plus 10. |
| `MemoryOptimizer.CoolingBoundedIff` | core/src/event/memory_optimizer.cpp:68 | Ageing keeps temperatures between 0 and 100 if and only if the decay rate is not negative. |
| `MemoryPlacement.PlacementEngine.EnqueueRequest` | core/src/event/memory_placement.cpp:58-80 | Accepted exactly when the object is not null and not queued; the pending set always equals the queued ids, without duplicates. |
| `MemoryPlacement.PlacementEngine.DequeueRequest` | core/src/event/memory_placement.cpp:82-94 | Returns the oldest request and frees its object, or reports an empty queue. |
| `StringInterner.Interner.Intern` | core/src/concurrency/string_interner.cpp:17-47 | As long as no view dangles, a known string gets its handle and stores nothing, whether or not there is room, and a new one gets the next; always, strings interned before keep their handles. |
| `StringInterner.Interner.Resolve` | core/src/concurrency/string_interner.cpp:49-64 | The strlen scan returns the bytes from the handle's offset to the first NUL; unknown handles give nothing. |
| `StringInterner.Interner.Clear` | core/src/concurrency/string_interner.cpp:76-82 | Starts an empty, reliable index again. |
| `StringInterner.ResolvesIffNoNul` | core/src/concurrency/string_interner.cpp:49-64 | In every later state before a clear, also after the arena has moved, a handle resolves to its string if and only if the string has no NUL, and else to the part before it. |
| `StringInterner.FoundIff` | core/src/concurrency/string_interner.cpp:24-28 | Behind the dangling views a lookup finds a string if and only if it was interned there. |
| `InternerAgreement.InternAll` | core/src/concurrency/string_interner.cpp:17-47 | For any list whose distinct new strings fit the reservation, however often they repeat, handles are equal exactly when the strings are, and each new string is stored once. |
| `InternerAgreement.AgreementIff` | core/src/concurrency/string_interner.cpp:17-47 | For a fresh interner and any list, handles agree with strings whatever freed memory holds and however much a growing arena reserves, if and only if no nonempty string is looked up after the distinct strings before it have outgrown the capacity. |
| `InternerAgreement.DanglesIff` | core/src/concurrency/string_interner.cpp:30-44 | With a reservation that holds the first string, views dangle after a list of calls if and only if its distinct strings take more bytes than reserved. |
| `InternerAgreement.MemoryThatBreaksAgreement` | core/src/concurrency/string_interner.cpp:24-28 | For every list with such a late lookup there are contents of freed memory for which two handles are wrong: one string gets two, or two strings share one. |
| `InternerAgreement.OutgrownExample` | core/src/concurrency/string_interner.cpp:17-47 | With four bytes reserved and the strings a, b, c, a, the last call looks up a dangling view, and there is freed memory for which it goes wrong. |

## Left out

- Memory orders weaker than sequential consistency: the step machines interleave single accesses.
- Wrap-around of epochs, MPSC positions, journal sequence numbers used as counters, request and task numbers and reader
  statistics: these counters are unbounded; SPSC counters and byte totals do wrap in the model.
- EpochRcu.ReclamationIsSafe: assumes that slots are not shared, guards do not nest, and no thread unregisters inside a
  section; `PolicySafeIff` shows that each is needed. Threads pass their own slot number, and the step machine has one
  manager; `ReclaimBesideReader` says when a second one protects.
- HazardProtocol.ProtectedUntilCleared: one thread retires and reclaims, because the retired list is unsynchronised.
- JournalWriting.JournalWriter.Append: appends come one at a time; concurrent ones are modelled within one segment
  (`ConcurrentAppend`), because a rollover between a reservation and its copy changes the target mapping.
- JournalGuarantees.WriteThenRead: the directory starts empty, mapping succeeds, there are at most 10^6 segments and
  the events are valid; a directory with an older journal is in `RewriteThenRead`.
- JournalReopened.RewriteThenRead: the older journal has the same segment size, and its damage, if any, is such that
  the checksum sees it.
- JournalHeaderDamage.BurstHitsHeader: does not cover bursts after which the scan finds a header that checks out inside
  the damaged one, or the magic at its bytes 17 to 20; `HeaderDamageReadsOn` and `HeaderDamageResumes` say what is then
  delivered, down to bytes that check out although no record was written there.
- JournalReader.Reader.ReadNext: callable only where the loop leaves; `HangsForever` says where it does not.
- EventReplay.Summarize: the sums stay below 2^64; `TotalsAreSums` says what is counted beyond that.
- EventReplay.ReplayDirectory: callable only on directories whose reading ends; `DivergesIffZeroSized` says which.
- StringInterner.Interner.Intern: once a view dangles, the handle depends on what freed memory holds, which is an input;
  `AgreementIff` says exactly when that matters. The index is a list of views in order of insertion: hashing, which can
  spare a lookup comparisons with other strings, is not modelled.
- InternerAgreement.AgreementIff: the reservation, or the first string if that is larger, stays below 4 GiB, where
  offsets would be truncated.
- MemoryOptimizer.Optimizer.OptimizePass: no other thread dequeues during a pass; temperatures and costs are real
  numbers; last access times are not kept.
- Segment header padding after the checksum is zero and the host is little-endian, as on the supported platforms.
- Creation times, entry times and the clock are inputs.
- Deleters and dispatcher callbacks as arbitrary code; a deleter call is recorded, a subscriber is an analyzer.
- `record_migration`, `reset`, `flush` and the remaining plain queries: they would only add easy members.
- Replay of a single segment: its loop is that of the directory replay.
- Destructors of the reclamation managers, which run all deleters and assume quiescence.
- `plan_placement`: current usage is never updated, so each check involves one allocation.
- Scheduler, advisor, digital twin, prediction, prefetch and pattern learning: threshold arithmetic and sleeping workers.
- Configuration, dashboard, HTTP server, platform layer, benchmarks and scripts: I/O or user interface.
