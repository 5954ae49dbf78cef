# Signet firmware: a verified model

Signet is a USB security device in two hardware generations. This project models the parts of its firmware in
which several asynchronous activities, or flash memory and RAM, have to stay in step, and proves what they keep.

* **The buffer pipeline** (`buffer_*.dfy`). Two to four stages share a ring of slots and finish asynchronously, in
  any order. `BufferManager` holds the atomic steps, `BufferFifoObject` the object that carries them out on its
  tables. Every run hands the items on in order and so computes what the stages would compute one after the other;
  slots are exclusive exactly when the ring has at least `stages - 1` of them; no wake-up is lost and the end is
  reported once.
* **Mass-storage transfers** (`scsi_*.dfy`). READ(10) and WRITE(10) drive the pipeline with a USB, an eMMC and a
  cipher stage, each with counters of its own. Under every interleaving of their callbacks the counters agree, each
  sector passes the cipher under the address it is stored at, and over a session of requests reads give what was
  last written. `ScsiDriverObject` is the driver with its separate variables.
* **The record database** (`record_*.dfy`, `block_choice.dfy`). Flash blocks divided into partitions, two tables in
  RAM, swap-with-last deletion, relocation in two page writes with a two-bit revision, and a startup scan. Over every
  run of updates and power losses it refines a map from uid to record, and the tables equal what a scan would rebuild.
* **The asynchronous database** (`hc_*.dfy`) of the newer hardware: one record per block, a one-block read cache, and
  commands that start over once the missing block has been loaded.
* **Smaller protocols**: the rewindable random ring (`rand_*.dfy`), the two copies of the root page and the flash
  driver under them (`root_*.dfy`, `flash_sectors.dfy`), the two forms of CBC (`cbc.dfy`), the credentials of
  getAssertion and getNextAssertion (`ctap_*.dfy`), the DER form of a signature (`der_signature.dfy`), and the
  chunked USB configuration descriptors (`usb_*.dfy`).

Code that updates state in place is a class or a method over arrays whose contract ties the new state to a function
of the old one; the properties are then lemmas about those functions. Preconditions are what callers have to see to.
The block cipher is an abstract permutation for each key, the CRC an uninterpreted function, and a page write of the
record database is atomic. What hardware does in the background is a step of its own wherever other code may run in
between.

Some promises do not hold everywhere. In each case the code is modelled as it is, and the exact condition is proved:

* Two running stages of the pipeline can share a slot exactly when the ring has fewer slots than stages less one
  (`BufferSafety.ExclusionExactlyWhen`), and then stage 0 is
  started with size 0 (`BufferSafety.FirstItemSize`).
* An update of the record database that falls back to the record's own block answers OKAY but leaves the old record
  in force (`RecordCommands.UpdateIsCorrectExactlyWhen`, `RecordCommands.OwnBlockKeepsOldRecord`; a run of
  insertions from a formatted database to one in which this happens is in `RecordExamples.OwnBlockHappens`), until the
  next start takes the old entry for an outdated copy and removes it (`RecordOwnBlock.OwnBlockHealsAtStart`).
* In the asynchronous database the deletion of an absent uid is never answered, and storing without space is answered
  OKAY though it stores nothing (`HcRecords.AnswersExactlyWhen`, `HcRecords.DeletionIsDropped`,
  `HcRecords.StoreIsLost`; `HcExamples` has a disk for each). The block goes to the root page instead, and the next
  start takes it for the root page unless the write counter wraps (`HcRoot.LostStoreReplacesRoot`).
* A root page can be selected at a start though its write was cut off: the CRC covers the device data only, not the
  user data behind it. What is selected is whole exactly when the words past the step that completes the device data
  are blank or absent, as they are where only the device data is written (`RootPage.SelectedIsWholeExactlyWhen`,
  `RootPage.StructureWritesAreWhole`; an example is `RootPage.TornTailIsSelected`).
* A finished root write is selected at the next start exactly when the 16-bit write counter did not wrap
  (`RootPage.SelectedExactlyWhen`; at the last number, `RootPage.WrapIsNotSelected`).
* The sort of the credentials compares unsigned 32-bit counts by a signed difference. It is sure to put a valid
  credential before an invalid one exactly when its count is below 2^31
  (`CtapAssertions.ValidBeforeInvalidExactlyWhen`), so what is proved of the sorted list is for such counts.
* A command between two getNextAssertions ends the sequence exactly when it is not a getAssertion turned away before it
  saves a list, by a lock, a check of its message or its PIN, the lack of a valid credential, or its extensions
  (`CtapAssertions.SequenceEndsExactlyWhen`). `CtapAssertions.NextEntry` says which entry comes next in each case, and
  `CtapAssertions.OpenSequenceIsOverwritten` shows one of the turned away request.
* The host sees the end of the configuration descriptors unless they are fewer bytes than it asked for and fill their
  last packet (`UsbDescriptors.EndIsSeenExactlyWhen`). The two lists of this firmware, of 132 and 107 bytes, never do
  (`UsbDescriptors.OwnListsAreSeenToEnd`).

Check the whole project with `dafny verify dfyconfig.toml` (Dafny 4.11).

## Model

| member | source | states |
|---|---|---|
| BufferFifoObject.BufferFifo.ExecStage | firmware-hc/buffer_manager.c:6-17 | the stage is marked running and handed the size, word and bytes of the slot its read index names; nothing else moves |
| BufferFifoObject.BufferFifo.StageStalled | firmware-hc/buffer_manager.c:19-37 | the answer is the specification's: running, stalled, or waiting for the stage before it or for a free slot |
| BufferFifoObject.BufferFifo.StallStage | firmware-hc/buffer_manager.c:39-45 | the stage stops running and is stalled for good; a step of its own, apart from the completion |
| BufferFifoObject.BufferFifo.DetectEnd | firmware-hc/buffer_manager.c:65-75 | the scan over stalled stages goes on where it stopped, and the end is reported when it passes the last stage |
| BufferFifoObject.BufferFifo.ProcessingComplete | firmware-hc/buffer_manager.c:47-77 | a completion records the slot, advances both indexes, wakes at most the stage itself and the next one, and looks for the end; it tells which it started |
| BufferFifoObject.BufferFifo.Start | firmware-hc/buffer_manager.c:79-109 | a start clears sizes and flags, sets every index to its base, and runs stage 0 on the first slot |
| BufferSafety.ReadyStageIsFed | firmware-hc/buffer_manager.c:19-37 | the test on raw indexes means what it should: a stage is not stalled exactly when it is idle and the stage before it has produced its next item, or the ring has room |
| BufferSafety.WriteSlotIsFree | firmware-hc/buffer_manager.c:79-107 | with enough slots, the slot a running stage writes holds no item that is still to be read |
| BufferSafety.StartEstablishesInv | firmware-hc/buffer_manager.c:79-109 | the invariant of the pipeline holds from every start, whatever an earlier transfer left |
| BufferSafety.FirstItemSize | firmware-hc/buffer_manager.c:79-107 | stage 0 is first given the size the caller names if the ring has enough slots, and 0 if not, since the size goes to the raw index |
| BufferSafety.CompletedItem | firmware-hc/buffer_manager.c:47-54 | a completed item is the bytes in its slot with the length and the word reported, or as they were for a negative length |
| BufferSafety.StepKeepsInv | firmware-hc/buffer_manager.c:39-77 | every data movement, stall and completion keeps the invariant: indexes count completions, counts descend by at most the ring size, items lie where they were put |
| BufferSafety.OnlyEndStagesWorkInPlace | firmware-hc/buffer_manager.c:90-104 | a middle stage's read and write slots differ, while the first and the last use one slot for both |
| BufferSafety.ExclusionExactlyWhen | firmware-hc/buffer_manager.c:19-37 | in every state of every run no slot written by a running stage is read or written by another running one, if and only if the ring has at least stages - 1 slots |
| BufferSafety.TooFewSlotsCollide | firmware-hc/buffer_manager.c:47-64 | with fewer slots the very first completion makes two stages collide |
| BufferSafety.RunningStageReadsItsItem | firmware-hc/buffer_manager.c:6-17 | in every run, while a stage behind the first is at work, the slot it reads holds exactly the item it was started with, which is the one the stage before it produced; of the last stage, which works in place, as long as it only reads |
| BufferSafety.HandOverInOrder | firmware-hc/buffer_manager.c:6-77 | in every run the k-th item a stage is started with is, in bytes, size and word, the k-th its predecessor produced |
| BufferSafety.PipelineRefinesSequential | firmware-hc/buffer_manager.c:6-109 | in every run from a start, whatever the order of completions, stages that each do their own work on what they are given make the k-th output of every stage the k-th source item taken through the stages one after the other |
| BufferProgress.AdvanceReadiesTwo | firmware-hc/buffer_manager.c:55-64 | a completion can make only the stage itself and the one after it ready, so waking those two loses no wake-up |
| BufferProgress.AllStalledMeansDone | firmware-hc/buffer_manager.c:65-75 | after a completion all stages are stalled and idle exactly when the last stage has done all its items |
| BufferProgress.PendingLastIsAlone | firmware-hc/buffer_manager.c:65-75 | while the last completion is outstanding no other stage has anything in flight |
| BufferProgress.StepKeepsProgress | firmware-hc/buffer_manager.c:47-77 | drivers that stall on their last item keep every stage that could run running |
| BufferProgress.NoDeadlock | firmware-hc/buffer_manager.c:19-77 | until the last stage has done all its items, some stage is running or has a completion pending |
| BufferProgress.RunIsBounded | firmware-hc/buffer_manager.c:39-77 | no run has more than two reports for each item of each stage |
| BufferProgress.TransferEndsOnce | firmware-hc/buffer_manager.c:65-75 | a run that can go no further has all counts equal to the number of items, and processingComplete was called exactly once |
| ScsiDriverObject.ScsiDriver.ProcessStage | firmware-hc/usbd_msc_scsi.c:479-530 | each stage's callback fixes its own item length: the minimum of its bytes left and the buffer for a first stage, the size handed over for a later one |
| ScsiDriverObject.ScsiDriver.StartRequest | firmware-hc/usbd_msc_scsi.c:578-616 | the set-up of a read or a write, of no blocks as well, gives all three counters the whole request and all three addresses its first block, and starts the pipeline |
| ScsiDriverObject.ScsiDriver.EmmcReadRxComplete | firmware-hc/usbd_msc_scsi.c:534-546 | the eMMC has fetched the item at mmcBlockAddr; counters, stall on the last item and completion are the three steps of the specification |
| ScsiDriverObject.ScsiDriver.ScsiProcess | firmware-hc/usbd_msc_scsi.c:461-477 | the USB stage moves min(scsi_blk_len, writeLen) bytes, takes them off the residue, stalls at zero and completes |
| ScsiDriverObject.ScsiDriver.UsbdScsiIdle | firmware-hc/usbd_msc_scsi.c:699-725 | one more sector is ciphered under the sector counter, and the last one of an item passes the item on |
| ScsiDriverObject.ScsiDriver.EmmcWriteDmaComplete | firmware-hc/usbd_msc_scsi.c:745-752 | a written item is placed at mmcBlockAddr and counted before it is reported |
| ScsiDriverObject.ScsiDriver.EmmcWriteComplete | firmware-hc/usbd_msc_scsi.c:764-771 | the write is reported and completed as a separate step |
| ScsiSteps.StepKeepsTransfer | firmware-hc/usbd_msc_scsi.c:453-501 | every callback, in any interleaving, keeps the transfer invariant: the independent counters, lengths and addresses of the stages all follow from the number of items each has done, and slots hold what their stage owes |
| ScsiVolume.StartKeepsTransfer | firmware-hc/usbd_msc_scsi.c:589-615 | the invariant holds from every start, whatever the last transfer left in the variables |
| ScsiVolume.DueStepFits | firmware-hc/usbd_msc_scsi.c:534-546 | whatever the other stages have done in the meantime, a stage with an item in hand never finds the guard of its next callback false |
| ScsiVolume.TransferNeverHangs | firmware-hc/usbd_msc_scsi.c:534-546 | until the end is reported some stage has an item in hand, and so a callback is due |
| ScsiVolume.CipherUsesStorageAddress | firmware-hc/usbd_msc_scsi.c:594-603 | the cipher's sector counter and the eMMC block address, which nothing ties together, agree: every sector of an item passes the cipher under the address it is fetched from or placed at |
| ScsiVolume.EndOfTransfer | firmware-hc/usbd_msc_scsi.c:453-457 | when the end is reported all three counters are zero on the same item number, mmcDataToTransfer is zero as asserted, the residue is zero, and the sink holds the owed sectors |
| ScsiVolume.WholeTransfer | firmware-hc/usbd_msc_scsi.c:548-616 | a transfer of any alignment and length has a step due until it ends, and it ends after exactly three steps (data moved and counted, stall test, completion) per stage and item and one per ciphered sector, with exactly the requested sectors placed at the requested addresses |
| ScsiSafety.ItemsAreLeast | firmware-hc/usbd_msc_scsi.c:479-530 | a request is cut into items of 32 sectors of 512 bytes, as few as hold it, all but the last full |
| ScsiVolume.WriteStores | firmware-hc/usbd_msc_scsi.c:548-616 | a write leaves at each address its sector encrypted under that address, or as it is on a plain volume, and changes no other |
| ScsiVolume.ReadGives | firmware-hc/usbd_msc_scsi.c:548-616 | a read gives for each address the stored sector decrypted under that address, or as it is, and changes nothing |
| ScsiVolume.TransferHappens | firmware-hc/usbd_msc_scsi.c:548-616 | whatever the last transfer left, some run of the callbacks carries a request to its end and places exactly the requested sectors |
| ScsiVolume.ReadAfterWrite | firmware-hc/usbd_msc_scsi.c:505-546 | in any session of in-range requests a read returns, for each sector asked for, the data last written to that address, encrypted volume or not |
| ScsiVolume.SessionHappens | firmware-hc/usbd_msc_scsi.c:505-546 | every sequence of requests within the disk is carried out by some session |
| RecordLayout.GetPartCount | firmware/db.c:67-75 | the loop computes the specification's count, at the block size of either generation |
| RecordLayout.CountIsLargest | firmware/db.c:61-75 | for every block size the count is the largest that fits beside the entry table: every smaller number fits and every larger does not |
| RecordLayout.HeaderIsTight | firmware/db.c:61-64 | the header takes the fewest sub-blocks of 16 bytes that hold 8 bytes and 6 for each entry |
| RecordLayout.CountFitsInBytes | firmware/db.c:61-75 | in bytes: n is within the count exactly when some header holds 8 + 6n bytes and leaves room for n partitions |
| RecordLayout.FirstPartition | firmware/db.c:77-81 | the first partition lies behind the smallest header that holds the table |
| RecordLayout.PartitionsApart | firmware/db.c:77-81 | partitions lie inside the block, clear of the entry table and apart from each other |
| RecordLayout.TargetPartSize | firmware/db.c:138-147 | the search over the size list computes the specification's size |
| RecordLayout.TargetIsTightest | firmware/db.c:133-147 | it is the smallest listed size that holds the record, and 0 exactly when none does |
| RecordLayout.TargetTable | firmware/db.c:133-147 | the partition size for each size of record in bytes, as a table |
| RecordBlock.RemovedKeepsOthers | firmware/db.c:296-309 | swap-with-last removes exactly the one record and keeps every other with its size, revision and ciphertext |
| RecordBlock.AppendedRecords | firmware/db.c:180-196 | appending adds a record for a uid the block did not hold and keeps all others; a uid it did hold keeps its old record |
| RecordDetails.AppendedEntry | firmware/db.c:180-196 | the fields of the new entry, and everything else in the block, the rest of the partition included, unchanged |
| BlockChoice.ChoiceRule | firmware/db.c:209-247 | an exact fit, else a free block, else the tightest larger fit, and none exactly when no data block is any of these |
| BlockChoice.FirstIsTaken | firmware/db.c:209-247 | among blocks that are as good the one with the lowest number is taken |
| BlockChoice.FindExactBlock | firmware/db.c:210-219 | the first loop of allocate_uid |
| BlockChoice.FindFreeBlock | firmware/db.c:150-159 | the search for an unallocated block |
| BlockChoice.FindLargerBlock | firmware/db.c:237-246 | the best-fit loop of allocate_uid |
| RecordStore.WinnerOfPair | firmware/db.c:108-119 | of two copies of a record the scan's revision rule keeps the one written last |
| RecordDbObject.RecordDb.FindUid | firmware/db.c:261-278 | the record's block and index by the two tables, or nothing |
| RecordDbObject.RecordDb.DeallocateUid | firmware/db.c:280-312 | scratch block and scratch table entry without the record: the block freed if it was its last and that is asked for, else closed up |
| RecordDbObject.RecordDb.AllocateUid | firmware/db.c:198-259 | the chosen block with the record appended, in the scratch buffers; flash and tables untouched; 0 exactly when nothing was chosen |
| RecordDbObject.RecordDb.UpdateUid | firmware/db.c:314-379 | all cases of an update in one plan: delete, insert, replace in place, move with the next revision |
| RecordDbObject.RecordDb.UpdateUidCmdComplete | firmware/db.c:381-388 | the first page write: exactly the planned block changes, with its CRC unless it was freed |
| RecordDbObject.RecordDb.UpdateUidCmdWriteFinished | firmware/db.c:390-417 | what each finished write does to flash, block table and map, and whether a second write follows |
| RecordDbObject.RecordDb.Update | firmware/db.c:353-417 | a whole command: refused with everything unchanged, or carried out, and then correct exactly when it does not fall back to the record's own block |
| RecordDbObject.RecordDb.ReadUid | firmware/db.c:436-475 | the record's size and the bytes of its decrypted sub-blocks; on demand data byte j of each is zero exactly where bit j of its mask is set |
| RecordDbObject.RecordDb.StartupScan | firmware/db.c:84-131 | one scan of any flash, whatever entries its blocks have, is the scan of the specification: it either builds tables that agree with flash, exactly when no uid has two entries, or settles the first clash and writes one block |
| RecordDbObject.RecordDb.Startup | firmware/commands.c:1172-1206 | repeated scans of any flash come to an end, with a clean flash and synchronized tables |
| RecordDbObject.RecordDb.SettleClash | firmware/db.c:108-124 | where an entry's uid is in the map already, the revisions decide which block loses its first entry for the uid, in a page write with its CRC unless the block was freed |
| RecordRecovery.ClashIsInterruption | firmware/db.c:107-124 | after an interrupted update a record met twice is the one whose relocation was cut off, and the revisions tell the older copy |
| RecordCommands.RefusedExactlyWhen | firmware/db.c:314-371 | NOT_ENOUGH_SPACE exactly for deleting what is not there, a record no partition can hold, or no room |
| RecordCommands.DeleteCommits | firmware/db.c:316-318 | a deletion removes exactly its record and leaves tables and flash in step |
| RecordCommands.InsertCommits | firmware/db.c:323-327 | an insertion adds exactly its record |
| RecordCommands.ReplaceCommits | firmware/db.c:334-341 | a replacement in place changes exactly its record |
| RecordCommands.RelocationCommits | firmware/db.c:342-348 | a relocation changes exactly its record, which is the new one from the first of the two writes on |
| RecordDetails.NewRecord | firmware/db.c:323-327 | a new record has revision 0 and lies in the chosen block, which gets the tightest partition size if it was free |
| RecordDetails.ReplacedRecord | firmware/db.c:334-341 | a record replaced in place keeps its revision and its block |
| RecordDetails.MovedRecord | firmware/db.c:342-348 | a moved record has the next of four revisions and lies in the chosen block |
| RecordDetails.DeletionLeaves | firmware/db.c:288-309 | a deletion frees the block whose only record it takes, and else leaves one fewer |
| RecordDetails.MoveLeaves | firmware/db.c:390-401 | so does the second write of a move |
| RecordDetails.RepairLeaves | firmware/db.c:116-124 | so does a scan with the block of an older copy |
| RecordDetails.StoredBytes | firmware/db.c:180-196 | what is stored for a uid is the CBC encryption of its data under the uid's own IV, byte by byte |
| RecordDetails.LiveExactlyWhen | firmware/db.c:44-59 | a block in use is one whose CRC is that of its header, table and partitions |
| RecordCommands.OwnBlockKeepsOldRecord | firmware/db.c:234-248 | falling back to the record's own block succeeds, but the record read back is the old one |
| RecordCommands.UpdateIsCorrectExactlyWhen | firmware/db.c:314-351 | an update that is not refused stores what was asked, and only that, if and only if it does not fall back to the record's own block |
| RecordExamples.OwnBlockHappens | firmware/db.c:168-248 | a run of 90 insertions from a formatted database, after which a request falls back to the record's own block |
| RecordOwnBlock.OwnBlockKeepsReads | firmware/db.c:261-278 | until the next start every record reads as before such an update |
| RecordOwnBlock.OwnBlockHealsAtStart | firmware/db.c:107-124 | after such an update the first clash the next scan meets is the second entry; by the revision rule it removes the first, and the start ends with what was asked for, every other record unchanged, and synchronized tables |
| RecordRecovery.InterruptionIsUnique | firmware/db.c:107-124 | an interrupted flash determines which record was moving and which copy is the older |
| RecordRecovery.FirstClashIsUnique | firmware/db.c:102-128 | where a scan first meets a uid again, and in which block it met it before, is determined by flash |
| RecordRecovery.NoClashExactlyWhenClean | firmware/db.c:84-131 | a scan finds nothing to repair exactly when no uid has two entries |
| RecordRecovery.ScanAllCleans | firmware/commands.c:1172-1206 | however many repairs a flash needs, scanning ends and leaves it clean |
| RecordRecovery.ScanCleans | firmware/db.c:84-131 | one scan makes any flash a power loss can leave clean, changes no logical record, and the next scan changes nothing |
| RecordRecovery.UpdateIsAtomic | firmware/db.c:381-417 | whichever page write the power fails after, the restarted database holds exactly the old records or exactly the new ones, the new ones once the first write is done |
| RecordRuns.RunRefinesMap | firmware/db.c:314-417 | over every run of updates, power losses and starts flash holds exactly the records of the map the caller expects, and memory stays in step with flash; an update that falls back to the record's own block changes the map at the next start, or at once if the power fails after its write |
| RecordRuns.IndexEqualsRebuiltIndex | firmware/db.c:84-106 | after any run that does not end in such a fallback uid_map and block_info_tbl are what a fresh scan would build: valid and occupied always, all fields of occupied blocks |
| RecordRuns.ReadReturnsLastStored | firmware/db.c:436-446 | after any run, a fallback included, a read finds a record exactly when the map has one and decrypts to its bytes |
| RecordMask.MaskUidData | firmware/db.c:419-434 | in place, data byte j of a sub-block becomes zero if bit j of the two mask bytes in front is set, and no other byte changes, the mask bytes included |
| RecordMask.MaskedIsShown | firmware/db.c:419-434 | the masked record shows exactly the bytes whose mask bit is not set |
| RecordMask.MaskingTwice | firmware/db.c:419-434 | masking a masked record changes nothing |
| HcStore.OnePartition | firmware-hc/db.c:153-167 | with MAX_PART_SIZE the counting loop, in blocks of 16384 bytes, finds exactly one partition, which starts after one sub-block of header |
| HcDbObject.HcDb.GetCachedDataBlock | firmware-hc/db.c:90-100 | a hit gives the line and changes nothing; a miss gives the line away and queues one read |
| HcDbObject.HcDb.WriteDataBlock | firmware-hc/commands.c:333-346 | a cached copy is given up before the write is queued |
| HcDbObject.HcDb.FindUid | firmware-hc/db.c:373-397 | found, invalid or loading, by what the cache shows |
| HcDbObject.HcDb.DeallocateUid | firmware-hc/db.c:399-434 | the scratch block without the record, or loading, or invalid, with nothing touched |
| HcDbObject.HcDb.AllocateUid | firmware-hc/db.c:305-371 | the chosen block with the record appended, or loading; success even when no block was chosen |
| HcDbObject.HcDb.UpdateUid | firmware-hc/db.c:436-495 | all branches of an update over the cache, the moving one included |
| HcDbObject.HcDb.UpdateUidCmdIter | firmware-hc/db.c:510-547 | a try that does not have to load starts the write of the sealed block |
| HcDbObject.HcDb.UpdateUidCmd | firmware-hc/db.c:497-576 | a command needs at most one load and ends in the state of the direct command, with a settled cache; it ends unanswered, with nothing changed, exactly for the deletion of an absent uid |
| HcRecords.CacheNeverStale | firmware-hc/db.c:78-100 | however loads and writes follow each other, one at a time, a settled line equals its stored block |
| HcCommands.OneLoadIsEnough | firmware-hc/db.c:436-538 | an update over the cache either has the result of reading storage directly at once, or has it after loading one block; loading touches only the cache |
| HcRecords.AnswersExactlyWhen | firmware-hc/db.c:305-371 | a command goes on to write a data block exactly when its record exists or there is space for it; otherwise a deletion is never answered and a store goes on with block 0, and NO_SPACE is never the result |
| HcRecords.DeletionIsDropped | firmware-hc/db.c:510-538 | the deletion of an absent uid ends with the first try: nothing is loaded, written or answered |
| HcRecords.StoreIsLost | firmware-hc/db.c:365-370 | a store without space is carried through to its answer, but no data block and no record changes, and the uid stays absent |
| HcRoot.LostStoreReplacesRoot | firmware-hc/commands.c:333-346 | the write to block 0 of such a store goes over the reserve copy of the root page, word for word but for number and CRC, and is selected at the next start exactly when the counter did not wrap; served commands leave the root pages alone |
| HcExamples.FormattedDiskIsReady | firmware-hc/db.c:273-285 | the disk that formatting leaves, and its tables, are a start for every run |
| HcExamples.DeletionUnanswered | firmware-hc/db.c:455-458 | a disk on which a deletion is not answered |
| HcExamples.FullStoreGoesOn | firmware-hc/db.c:365-370 | a full disk, and a store that is not refused but goes on with block 0 |
| HcRecords.CommandIsDirect | firmware-hc/db.c:497-576 | apart from the cache an asynchronous command is the synchronous one |
| HcRecords.GoodPlanStores | firmware-hc/db.c:436-576 | it stores exactly what was asked and touches no other record |
| HcRecords.StoredEntry | firmware-hc/db.c:455-485 | a stored record has revision 0 if it is new and else the one it had, in the block it had or the chosen one |
| HcRecords.HcRunRefinesMap | firmware-hc/db.c:436-576 | over every run of commands, served or not, the cache stays settled and the store holds exactly the records last asked for by served commands |
| HcRecords.ReadNeedsOneLoad | firmware-hc/db.c:606-658 | a read finds exactly the stored record after at most one load and decrypts it |
| RandPoolObject.RandSource.Get | firmware-hc/rand.c:41-49 | the word at the tail, or 0 from an empty ring |
| RandPoolObject.RandSource.Push | firmware-hc/rand.c:93-112 | the word is mixed in at the head unless that would reach the tail or the rewind point; then only the interrupt is turned off |
| RandPoolObject.RandPool.RandGet | firmware-hc/rand.c:51-58 | one word from each source, combined |
| RandPoolObject.RandPool.RandRewind | firmware-hc/rand.c:20-32 | both readers go back to their rewind points |
| RandPoolObject.RandPool.RandAvail | firmware-hc/rand.c:34-39 | no more than either source has |
| RandRing.PushKeepsRing | firmware-hc/rand.c:80-113 | level and rewind_level stay the ring distances, and a push never overwrites a word since the rewind point: it adds one at the end or is refused |
| RandRing.GetKeepsRing | firmware-hc/rand.c:41-49 | a read gives the first word there is, leaves the rest in order, and gives 0 and changes nothing when there is none; since the rewind point it is the next word |
| RandRing.CombinedWord | firmware-hc/rand.c:34-58 | what is handed out is the exclusive or of the next word of each source, as long as both have one |
| RandRing.RewindReplays | firmware-hc/rand.c:20-113 | for any pushes in between, the words taken from each of the two sources after a rewind are those taken before it, in the same order |
| RandRing.SettingStartsReplay | firmware-hc/rand.c:60-70 | setting the rewind point anywhere starts a run that can be replayed |
| FlashSectors.AddrToSector | firmware-hc/flash.c:49-60 | the first sector whose range holds the address, or -1 |
| FlashSectors.SectorsPartitionFlash | firmware-hc/flash.c:35-60 | the two maps are inverse: each address belongs to exactly the sector whose range holds it, and to none outside |
| FlashSectors.SectorBounds | firmware-hc/flash.c:35-47 | the bounds of the eight sectors: four of 16 KiB, one of 64, three of 128 |
| RootFlashObject.RootFlash.FlashWritePage | firmware-hc/flash.c:184-197 | a page write of any length, none included, is set up for the sector of its address |
| RootFlashObject.RootFlash.FlashIdle | firmware-hc/flash.c:123-165 | one step of a page write: the erase, or the next 16 words; idle exactly after the last step; the other page never changes |
| RootFlashObject.RootFlash.WriteRootBlock | firmware-hc/commands.c:409-427 | the caller's data is stamped with the next iteration, or 0 without a valid root page, and its CRC, every other word as it was, and the write goes to the other copy |
| RootFlashObject.RootFlash.CmdInit | firmware-hc/commands.c:1734-1769 | the copy chosen at start, marked valid whether or not any copy is good |
| RootPage.SelectTakesNewest | firmware-hc/commands.c:1739-1761 | a bad copy is never taken while there is a good one, of two good ones the greater number is, of equal ones the second |
| RootPage.StampedKeepsData | firmware-hc/commands.c:409-418 | stamping changes only the CRC word and the low half of word 2 |
| RootPage.WordsOfStep | firmware-hc/flash.c:123-165 | after k steps the first 16 (k - 1) words are the caller's, but for number and CRC, and the rest is erased |
| RootPage.FinishedWrite | firmware-hc/commands.c:409-427 | a finished write leaves the caller's words, erased ones behind them, and the other page alone |
| RootPage.EveryPrefixIsSafe | firmware-hc/commands.c:409-427 | after every prefix of a root write the current copy is untouched, and a start selects the new copy from the step on that completes its checked structure, which then holds the caller's data but for number and CRC, and the current copy before |
| RootPage.SelectedIsWholeExactlyWhen | firmware-hc/memory_layout.h:109-139 | every copy a start can select is completely written, if and only if the words past the step that completes the checked structure are blank or absent |
| RootPage.StructureWritesAreWhole | firmware-hc/commands.c:409-427 | a write of the checked structure alone is never selected in part |
| RootPage.TornTailIsSelected | firmware-hc/commands.c:333-346 | a write of one word past the checked structure that is selected without that word, as the writes of BLK_SIZE bytes here and in firmware-hc/main.c:515-516 may be |
| RootPage.SelectedExactlyWhen | firmware-hc/commands.c:1739-1747 | a finished write is selected exactly when its predecessor did not have the last 16-bit number |
| RootPage.WrapIsNotSelected | firmware-hc/commands.c:1739-1747 | a root page with the last number, and the finished write after it, which is not selected |
| RootPage.StartFindsLastWrite | firmware-hc/commands.c:1734-1761 | over every run of root writes, however far each got, a start selects the last copy whose checked structure was completed, as far as its write got |
| RootPage.StartFindsLastData | firmware-hc/commands.c:1734-1761 | over every run of root writes, however far each got, the checked structure a start selects is the data one of its callers wrote, but for number and CRC, and no later write programmed that many words; it is the copy from before if no write got that far |
| RootPage.FirstWriteStarts | firmware-hc/commands.c:1756-1764 | with no good copy the first whole write lands in the second page and starts the guarantees |
| Cbc.XorBlock | firmware-hc/signet_aes.c:25-35 | each of the 16 bytes is the exclusive or of block and mask; a missing mask copies the block |
| Cbc.CiphertextBlocks | firmware-hc/signet_aes.c:50-61 | each ciphertext block is the cipher's image of the plaintext block mixed in all 16 bytes with the ciphertext block before it, the first with the IV |
| Cbc.PlaintextBlocks | firmware-hc/signet_aes.c:76-87 | each plaintext block is the cipher's preimage of its ciphertext block, mixed in all 16 bytes with the one before |
| Cbc.EncryptCbc | firmware-hc/signet_aes.c:50-61 | the walk over three pointers is CBC encryption, in place or not |
| Cbc.DecryptCbc | firmware-hc/signet_aes.c:76-87 | the out-of-place walk is CBC decryption |
| Cbc.CryptoAes256.Encrypt | firmware-hc/fido2/crypto.c:438-457 | the buffer is encrypted block by block in place, and the last ciphertext block becomes the IV |
| Cbc.CryptoAes256.Decrypt | firmware-hc/fido2/crypto.c:459-477 | the buffer is decrypted in place, and the last ciphertext block becomes the IV |
| Cbc.DecryptUndoesEncrypt | firmware-hc/signet_aes.c:50-87 | decryption with the same key and IV gives the message back |
| Cbc.EncryptFormsAgree | firmware-hc/fido2/crypto.c:438-457 | the stateful form over any split of a message equals the out-of-place form on the whole |
| Cbc.DecryptFormsAgree | firmware-hc/fido2/crypto.c:459-477 | the same for decryption |
| Cbc.PiecesRoundTrip | firmware-hc/fido2/crypto.c:421-477 | encrypt in pieces, reset the IV, decrypt cut up in any other way: the message comes back |
| Cbc.ScheduleMatches | firmware-hc/fido2/crypto.c:405-469 | after any run of calls the loaded key schedule matches key and direction |
| Cbc.SetUpStartsFromNonce | firmware-hc/fido2/crypto.c:405-436 | a context set up, or set back, with a nonce works from that nonce, and without one from zeros |
| CtapStateObject.CtapState.FilterInvalidCredentials | firmware-hc/fido2/ctap.c:986-1051 | in place, invalid entries lose their count, or the matching resident keys that fit are taken; the entries are sorted by the 32-bit comparator and the valid ones counted |
| CtapStateObject.CtapState.PopCredential | firmware-hc/fido2/ctap.c:1072-1083 | the last saved entry, once, or none |
| CtapStateObject.CtapState.ParseAllowList | firmware-hc/fido2/ctap_parse.c:959-1000 | the entries read so far are in the shared array, up to the first that cannot be read and 20 at most, and the answer says whether that was all |
| CtapAnswers.ReadListExactly | firmware-hc/fido2/ctap_parse.c:959-1000 | a list is read up to the first entry that cannot be read or has no room among 20, and all of it was read exactly when there is no such entry |
| CtapStateObject.CtapState.ParseGetAssertion | firmware-hc/fido2/ctap_parse.c:1003-1141 | a message that stops being readable before, in or after its allow list leaves in the array what was read of it |
| CtapStateObject.CtapState.DoGetAssertion | firmware-hc/fido2/ctap.c:1180-1318 | what a request answers and leaves in the shared array, the saved count and the saved hash, wherever its checks stop it |
| CtapStateObject.CtapState.CtapRequest | firmware-hc/fido2/ctap.c:1665-1766 | the locks before an assertion, the gate on the last command, and the command remembered after it |
| CtapAssertions.CompareOrders | firmware-hc/fido2/ctap.c:957-962 | for counts below 2^31 the comparator orders by descending count |
| CtapAssertions.ValidBeforeInvalidExactlyWhen | firmware-hc/fido2/ctap.c:957-962 | every order the comparator allows has the valid credential before the invalid one, if and only if its count is below 2^31 |
| CtapAssertions.ValidComeFirst | firmware-hc/fido2/ctap.c:957-1051 | for counts below 2^31, however ties fall, after the sort the valid credentials are exactly the first ones |
| CtapAssertions.RefusedForGood | firmware-hc/fido2/ctap.c:1135-1178 | with nothing left to give or after another command, every getNextAssertion is refused, however many follow |
| CtapAssertions.EachValidOnce | firmware-hc/fido2/ctap.c:1135-1318 | a completed getAssertion with v valid credentials and v - 1 getNextAssertions give each valid credential exactly once, all for the same clientDataHash, and any number of further ones are refused |
| CtapAnswers.AnsweredExactlyWhen | firmware-hc/fido2/ctap.c:1180-1318 | a request is answered exactly when no lock is on, it is well made, and one of its listed credentials is valid or, without a list, there is a resident key |
| CtapAnswers.AnsweredFrom | firmware-hc/fido2/ctap.c:1020-1046 | the answers are the valid credentials of the list, or without a list the resident keys, the first 19 of them if there are more, each as often as it is there |
| CtapAnswers.LowestCountFirst | firmware-hc/fido2/ctap.c:1072-1083 | the answers come in the order of their counts, the lowest first |
| CtapAnswers.FailedNextEnds | firmware-hc/fido2/ctap.c:1732-1757 | a getNextAssertion whose answer cannot be encoded takes its entry and ends the sequence |
| CtapAssertions.SequenceEndsExactlyWhen | firmware-hc/fido2/ctap.c:1665-1766 | after an intervening command the next getNextAssertion is answered for the old request exactly when the command is a getAssertion that does not pass the locks, its checks, the filter and the extensions, and for the new one exactly when it passes and has two valid credentials |
| CtapAssertions.NextEntry | firmware-hc/fido2/ctap_parse.c:1012-1013 | which entry that is: the next of the old list behind a lock, else an entry of the array as the turned away request left it |
| CtapAssertions.OpenSequenceIsOverwritten | firmware-hc/fido2/ctap_parse.c:1012-1013 | such a sequence goes on with entries of the failed request, since both live in one array |
| DerSignature.EncodeDerSig | firmware-hc/fido2/ctap.c:604-638 | for nonzero r and s the buffer starts with the SEQUENCE of the two INTEGERs, the returned length is exact and at most 72, and the rest is zero |
| DerSignature.TagsAndLengths | firmware-hc/fido2/ctap.c:604-638 | where the tags 0x30 and 0x02 and the lengths stand in what is printed |
| DerSignature.PrintedSignatureReadsBack | firmware-hc/fido2/ctap.c:604-638 | a DER reader recovers r and s from what is printed (sections 8.3, 8.9 and 10.1 of ITU-T X.690) |
| DerSignature.ContentIsMinimal | firmware-hc/fido2/ctap.c:610-619 | the content octets have the number's value, no superfluous zero, and never look negative |
| DerSignature.FewerOctetsAreTooFew | firmware-hc/fido2/ctap.c:618-619 | the printed content octets are the shortest there are: fewer octets that do not look negative only reach smaller numbers |
| UsbControlObject.UsbControl.SendDescriptors | firmware/usb_fs_driver.c:92-134 | the byte loop puts exactly the stretch from the restart byte into packet memory, two bytes a word, and answers where to go on; nothing is sent while a packet is pending |
| UsbControlObject.UsbControl.TxCtrl | firmware/usb.c:866-885 | the callback sends the next stretch as long as bytes of the request are left |
| UsbControlObject.UsbControl.Exchange | firmware/usb.c:480-491 | the exchange ends, and its packets are those of the specification |
| UsbDescriptors.PacketsCarryPrefix | firmware/usb_fs_driver.c:92-134 | for every list and wLength the packets put together are the first min(wLength, total) bytes of the descriptors, and all but the last are full (section 9.4.3 of USB 2.0) |
| UsbDescriptors.LowByteFirst | firmware/usb_fs_driver.c:100-123 | in packet memory the first byte of each pair is the low one |
| UsbDescriptors.EndIsSeenExactlyWhen | firmware/usb_fs_driver.c:124-133 | a short last packet or the full count tells the host the end, except when fewer bytes than asked for fill their last packet, since no empty packet follows |

## Left out

- Integer widths: the pipeline's 32-bit indexes do not wrap in the model; it would take 2^31 items in one transfer. The widths that matter are modelled: the 16-bit root page counter, the two-bit revision and the 32-bit credential counts with their signed comparison.
- Slot contents: a slot holds the sectors written to it; the stale tail of a shorter item is not modelled.
- Volume offset: the constant that places a volume in its region of the eMMC is left out of the block addresses.
- SCSI checks before the set-up (flags, readiness, write protection, address range, sense codes): whole transfers are taken to be in range, with blocks of 512 bytes and a positive length.
- ScsiDriverObject.ScsiDriver.ScsiProcess: keeps the moved length in writeLen, where the source has a local variable; the flag that tells a USB transmission is under way is left out.
- ScsiDriverObject.ScsiDriver.StartRequest: also sets the stall index to zero, which the start of the pipeline does next; what follows a request of no blocks is up to the hardware and not traced further.
- Button presses, long presses and the answers of the record commands: an update runs from its plan to its last write.
- RecordDbObject.RecordDb.AllocateUid: blocks and records are values in the arrays; byte offsets inside a page are covered by RecordLayout only.
- read_all_uids and the formatting of a new database: they add only easy members.
- HcDbObject.HcDb.UpdateUidCmdWriteFinished: models the record that stays in its block; with one partition size no record ever moves, and a move to another occupied block would have to load two blocks in turns.
- HcDbObject.HcDb.AllocateUid: what appending to scratch buffers that were never set up leaves in them is a parameter, since it is whatever memory held.
- HcRecords.AnswersExactlyWhen: takes the record to fit the one partition; the source has no size check of its own here.
- HcDbObject.HcDb.WriteDataBlock: a write to block 0 goes to an element 0 of the storage that no command reads; that it is a root page write in the source, and what that does, is stated in HcRoot.
- RecordDbObject.RecordDb.StartupScan: takes a block with a good CRC to have the shape of its partition size, as every block this firmware writes.
- RecordRuns.RunRefinesMap: an update that fell back to the record's own block is followed by reads and a start, not by another update.
- The scan that builds the tables of the asynchronous database: a loop over blocks without repair, since the repair code is compiled out.
- RootFlashObject.RootFlash.FlashWritePage: the two root pages are the only destinations; firmware images go the same way to other sectors.
- RootPage.EveryPrefixIsSafe: takes a device-data structure that is cut off, and does not look complete anyway, to fail its CRC, and a counter that does not wrap; SelectedExactlyWhen says what happens when it does.
- DerSignature.EncodeDerSig: takes r and s to be nonzero, as signatures have them; for zero the source prints an empty INTEGER or reads past its input.
- CtapAssertions.EachValidOnce: takes valid credentials to have counts above zero and below 2^31; what lies beyond is in ValidBeforeInvalidExactlyWhen.
- CtapStateObject.CtapState.DoGetAssertion: whether parts of the message are readable CBOR, which PIN result they give, and whether the extensions and the answer can be made are parameters; user names, user presence and the U2F build option are left out.
- The sort of the credentials stands for the library's; the results hold for every order among equal counts.
- The AES block function, CRC, SHA-256 and elliptic curves: foreign code, abstract here.
- 128-bit CBC (firmware-hc/signet_aes.c:37-48 and 63-74): the same loops with another block cipher.
- Hardware registers, interrupts, clocks, LEDs, keyboard, raw HID, host tools and start-up code.
