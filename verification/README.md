# Verified model of the failsafe GPT updater, the power HAL's lock keeping and its metadata parser

Three parts of the repository are modelled and proved, in this order of weight.

**The failsafe GPT update** (`gpt-utils/gpt-utils.cpp`). A disk carries two copies of a GUID Partition Table, each a
header block and an entry array under CRC-32 (UEFI Specification, sections 5.3.2 and 5.3.3). Two protocols rewrite
them: the staged update `prepare_partitions`, and the handle protocol load, edit, update CRCs, commit. The model works
on the bytes of the disk, with a concrete CRC-32 that is proved to have its check value and residue. Every operation
is an imperative method over byte buffers and a device object; each is proved to make exactly the writes of a *plan*,
a function of the disk it found, or, when a device operation fails, a first part of them. The theorems are about
plans: a power cut can stop a call between any two writes and inside an array write. For the staged update any number
of calls may follow in any order. For a commit the condition under which a reader always finds the old or the new
entries is exact, on any disk with a valid primary copy; over a run of edits it is kept when every interrupted commit
is repeated until it is complete, and can be lost when another commit is put on top of an unfinished one.

**The lock keeping of the power HAL** (`power/`). A heap-linked list of hint nodes refines a sequence; the vendor
library is an object that grants fresh positive handles or refuses, with an account of all handles acquired, released
and outstanding. Over this stand profiles, mode locks, reference-counted hints, the display-state lock and the
interaction boost, each a class with a step function and theorems over all runs.

**The metadata parser** (`power/metadata-parser.c`). An in-place `strtok_r` loop over a character buffer is proved
equal to split-then-fold, and printing numbers as attributes is proved to be undone by parsing.

## What is assumed

- Writes reach the disk in program order. The code calls `fsync` only once, at the end
  (gpt-utils/gpt-utils.cpp:938). `StagedOrder.AnyOrder`, `StagedSubsets.BackupAnyOrder` and
  `StagedSubsets.FinalizeAnyOrder` state what happens to the three stages without the assumption,
  `CommitRuns.CommitAnyOrder` what happens to a commit.
- A header is one block and is written whole or not at all. An array write may be torn. The theorems about the staged
  update let any byte of the array be old or new, which covers blocks of every size (`Tearing.CutByIsCut`). In those
  about a commit the size of the blocks that are written whole is a parameter: one byte for any tear at all, the
  disk's block size for a device that treats arrays as it treats headers.
- A partitioned disk (`Disk.Partitioned`) has four regions that do not overlap, header sizes of at most a block, two
  headers that agree on entry count and entry size, entries of at least 128 bytes and an array size below 2^32.
- A device operation works or fails without effect; past the end of the device it fails. Failures are counted, so every
  contract says what happens with none and with some. Failures of `ioctl`, `lseek64` and `malloc` are those of the read
  next to them.
- The perf library grants a positive handle never granted before, or refuses. The calls through the hint list test each
  of its entry points; for the other clients it is present with all of them or absent. The theorems over all runs of
  profiles and of the display state are for the library being present.
- An in-sync disk with a backup pair, from which the theorems about updates start, exists:
  `ExampleDisk.ExampleHasBackup`.

## What the code does that its comments do not say

- The 250 ms between boosts (power/power-8996.c:320) are not exact: the truncating quotient lets a short boost through
  a fraction of a microsecond early when the nanosecond part went down. `Boost.ThrottleExact` gives the exact
  condition, `Boost.EarlyBoost` an instance.
- The display-state lock leaks when the scaling governor changes while the display is off.
  `DisplayState.TurnIsSound` gives the exact condition per call, `DisplayState.ChangingGovernorLeaks` an instance.
- A commit cut inside the primary array can leave a reader with neither the old nor the new entries, on a disk in sync
  exactly when some mixture of old and new blocks has the CRC of the new entries: `TornCommits.AtomicInSync`. With tears
  only between the disk's own blocks, some edit has such a mixture exactly when the array is longer than one block:
  `TornEdits.LongArraysTear`; for blocks of any other size, when the array is in more than one:
  `TornEdits.EditsAtomicExactly`.
- Committing again before an interrupted commit is complete can lose both copies (gpt-utils/gpt-utils.cpp:1524-1569).
  `HandleProofs.AtomicAtWritesExactly` gives the exact condition for one commit on any disk with a valid primary copy,
  `CommitRuns.CommitOnUnfinished` what a reader finds, `CommitRuns.ChangeAndBack` an instance on every disk with an
  entry, and `CommitRuns.EditsSafe` the safe use.
- `gpt_disk_update_crc` uses the primary's header size and array size for both copies. `HandlePlan.UpdateMakesValid`
  gives the exact condition under which the backup copy comes out right, `HandlePlan.LongerBackupFails` a backup
  header that does not.
- The header CRCs kept by loading a handle are not those of the headers: they are taken without clearing the CRC field
  (gpt-utils/gpt-utils.cpp:1409, 1415). `HandleCrcs.LoadKeepsCrcs` gives the exact condition under which they are right.
- UPDATE_BACKUP does not look at the primary entry array (gpt-utils/gpt-utils.cpp:876-912). When that was damaged after
  UPDATE_MAIN, it succeeds and leaves no valid copy: `StagedDamage.DamagedEntries`.
- A repeated stage is not always acknowledged (gpt-utils/gpt-utils.cpp:822-829). When power fails between the two writes
  of UPDATE_BACKUP the update is back at its first stage, and UPDATE_BACKUP and UPDATE_FINALIZE are refused.
  `StagedRecovery.RetryExactly` gives the exact condition, `StagedRecovery.BackupInterrupted` the instance, and
  `StagedRecovery.StagesRecover` the way out.
- UPDATE_BACKUP relies on the order of its two header writes (gpt-utils/gpt-utils.cpp:899-911). If only the second
  persists, both signatures are cleared, no valid copy is left and every stage is refused:
  `StagedSubsets.BackupAnyOrder`.

## Model

| member | source | states |
|---|---|---|
| Bytes.PutFour | gpt-utils/gpt-utils.cpp:111-114 | the four stores put a value that reading the field gives back, and change no other byte |
| Bytes.SameField | gpt-utils/gpt-utils.cpp:97-109 | a field read from the buffer determines its bytes: equal numbers come from equal bytes |
| Crc32.SingleByteDetected | gpt-utils/gpt-utils.cpp:454-456 | replacing one byte of any block always changes its CRC |
| Crc32.DifferenceSurvives | gpt-utils/gpt-utils.cpp:454-456 | the CRC register differs after the replaced byte and never becomes equal again |
| Crc32Collisions.RegisterDeviates | gpt-utils/gpt-utils.cpp:454-456 | the CRC is linear: the registers of two blocks differ by what their difference alone leaves in a register that starts at zero |
| Crc32Collisions.GeneratorUndetected | gpt-utils/gpt-utils.cpp:454-456 | at any place of any block five bytes can all be changed without changing the CRC |
| Crc32Values.CheckValue | gpt-utils/gpt-utils.cpp:454-456 | the CRC of the digits from one to nine is 0xCBF43926, the check value published for CRC-32; computed in a register of 32 machine bits that is proved to be the model's |
| Crc32Residue.Residue | gpt-utils/gpt-utils.cpp:423-456 | the CRC of nothing is 0, as the code's crc_zero, and any block followed by the four bytes of its CRC has CRC 0x2144DF1C |
| Crc32Residue.BurstDetected | gpt-utils/gpt-utils.cpp:454-456 | any change inside four neighbouring bytes of a block changes its CRC |
| HeaderFields.FieldsFromBytes | gpt-utils/gpt-utils.h:44-53 | each field of a header is a number v if and only if v fits it and the field's four or eight bytes are the octets of v, lowest first |
| HeaderFields.ArrayFromBytes | gpt-utils/gpt-utils.cpp:1293-1296 | place and size of an entry array are the products of the numbers in the header's bytes, in 64 and in 32 bits |
| HeaderProofs.SetThenGet | gpt-utils/gpt-utils.cpp:412-538 | setting a state and reading it back agree on every well-formed block; the signature is written whole or its first byte cleared, and besides it only the CRC field moves |
| HeaderProofs.GoodSpells | gpt-utils/gpt-utils.cpp:448-456 | a header whose CRC is right is good if and only if it starts with the letters EFI PART and a NUL |
| HeaderProofs.CorruptThenFix | gpt-utils/gpt-utils.cpp:513-527 | clearing and then fixing the signature restores the block byte for byte if and only if it was good before |
| HeaderProofs.SingleByteDamage | gpt-utils/gpt-utils.cpp:448-456 | one damaged byte of a good header, outside the size field, is always a bad CRC: never good, never the updater's own mark |
| HeaderProofs.ArrayCrcSet | gpt-utils/gpt-utils.cpp:376-382 | the header edit of the boot-chain switch sets the array CRC, seals the header and moves no other byte |
| HeaderProofs.FormSetState | gpt-utils/gpt-utils.cpp:513-527 | a header's form depends on its last signature state only: earlier states leave no trace |
| HeaderProofs.FormSetArrayCrc | gpt-utils/gpt-utils.cpp:376-382 | and on its last array CRC only |
| Entries.NameTestMeaning | gpt-utils/gpt-utils.cpp:205-211 | the strncmp and strcmp on the 72-byte buffer accept exactly the name and the name followed by "bak" |
| Entries.Seek | gpt-utils/gpt-utils.cpp:191-217 | the result is the first entry from the start on that has the name or the backup name; none only if no entry has |
| Entries.GptPentrySeek | gpt-utils/gpt-utils.cpp:191-217 | the scan with its name buffer computes that first entry |
| SwapMeaning.NameFromBytes | gpt-utils/gpt-utils.cpp:197-211 | the name of an entry is s if and only if the low bytes of its 16-bit units spell s, up to a zero or to the last of the 36 |
| SwapMeaning.SlotIs | gpt-utils/gpt-utils.cpp:201-203 | the places looked at are the multiples of the entry size |
| EntriesProofs.SwapListIsDistinguishable | gpt-utils/gpt-utils.h:81-83 | no entry can be called by two names of the swap list |
| EntriesProofs.SwapOneKeepsNames | gpt-utils/gpt-utils.cpp:254-270 | exchanging the pair of one name changes for no other name which slots match it, so every pair stays where it was |
| EntriesProofs.SwapAllIsPartner | gpt-utils/gpt-utils.cpp:243-272 | the sequential loop moves every entry as the pairing says that is read off the array before the first exchange |
| SwapMeaning.PairMeaning | gpt-utils/gpt-utils.cpp:254-265 | the pair found for a name is (x, y) if and only if x and y are the first two slots that have the name or the backup name; none is found only if no two slots have it |
| SwapMeaning.FirstTwoChangePlaces | gpt-utils/gpt-utils.cpp:243-272 | for every name of the list, wherever its first two entries lie, each receives the 128 bytes the other had before the first exchange |
| SwapMeaning.OthersStay | gpt-utils/gpt-utils.cpp:243-272 | every entry that is not one of the first two of some listed name keeps its 128 bytes |
| SwapMeaning.HasBackupMeaning | gpt-utils/gpt-utils.cpp:240-274 | there is a backup if and only if some listed name has two slots |
| SwapMeaning.SwapListMeaning | gpt-utils/gpt-utils.cpp:243-252 | the names acted on are those of the list, and on UFS those of them that do not start with xbl |
| EntriesProofs.PartnerTwice | gpt-utils/gpt-utils.cpp:243-272 | the partners pair the entries off, so the swap is a permutation |
| EntriesProofs.SwapAllKeepsTails | gpt-utils/gpt-utils.cpp:268-270 | bytes of an entry past its first 128 never move |
| EntriesProofs.SwapAllTwice | gpt-utils/gpt-utils.cpp:234-275 | swapping a distinguishable list twice restores the array |
| EntriesProofs.BootChainSwapTwice | gpt-utils/gpt-utils.cpp:234-275 | the swap list in use undoes itself on eMMC and UFS, and finds the same backup pairs before and after |
| ChainSwap.SwapEntries | gpt-utils/gpt-utils.cpp:266-270 | the three copies exchange the two entries and nothing else |
| ChainSwap.GptBootChainSwap | gpt-utils/gpt-utils.cpp:234-275 | the loop computes the swap in place and returns 0 if some listed name has two entries in the array it was given, else 1; what that moves, `SwapMeaning` says on slots and names |
| ChainSwap.NoBackupNoChange | gpt-utils/gpt-utils.cpp:240-274 | with no backup pair the array is unchanged |
| Device.BlockDevice.BlkRead | gpt-utils/gpt-utils.cpp:150-172 | reading gives the bytes at the offset, or fails and counts a fault, as it always does past the end |
| Device.BlockDevice.BlkWrite | gpt-utils/gpt-utils.cpp:150-172 | writing replaces the bytes at the offset and logs the write, or fails and changes nothing, as it always does past the end |
| Disk.HeaderWritten | gpt-utils/gpt-utils.cpp:529 | a header write of the same geometry changes one header and nothing else that is read |
| Disk.ArrayWritten | gpt-utils/gpt-utils.cpp:388-389 | an array write changes one array and nothing else that is read |
| StagedPlan.ChainWritten | gpt-utils/gpt-utils.cpp:376-389 | the boot-chain switch leaves the primary copy alone and gives the secondary the new array and a header for it |
| StagedUpdate.GptGetState | gpt-utils/gpt-utils.cpp:412-463 | a read header is judged by nine signature bytes and the CRC, a bad CRC overriding a bad signature |
| StagedUpdate.GptSetState | gpt-utils/gpt-utils.cpp:480-538 | one header write with the new signature and CRC; the third state and every fault fail without a write |
| StagedUpdate.Gpt2SetBootChain | gpt-utils/gpt-utils.cpp:291-397 | without a fault: -1 on a bad primary array CRC and 1 without a backup, both before any write, else header and array of the secondary; a fault gives -1 after a first part of the two writes |
| StagedUpdate.StageMain | gpt-utils/gpt-utils.cpp:832-875 | the main stage makes exactly the writes of its plan, and no backup is no error |
| StagedUpdate.StageBackup | gpt-utils/gpt-utils.cpp:876-912 | the backup stage fixes the primary before it corrupts the secondary |
| StagedUpdate.StageFinalize | gpt-utils/gpt-utils.cpp:913-932 | the finalizing stage realigns the secondary before it fixes its signature |
| StagedUpdate.PreparePartitions | gpt-utils/gpt-utils.cpp:762-942 | with no fault the call returns and writes what the plan for the disk and stage says; with a fault it fails after a first part of those writes |
| StagedProofs.PhaseDetermines | gpt-utils/gpt-utils.cpp:831-932 | all an update can change is two signatures, one array CRC and one array: they determine the disk |
| StagedProofs.PhaseBoots | gpt-utils/gpt-utils.cpp:852-868 | a reader finds the original entries while the primary's signature stands and the swapped ones when it is cleared |
| StagedProofs.ChainCut | gpt-utils/gpt-utils.cpp:384-389 | the boot-chain switch and the header write after it, cut anywhere with the array torn, leave the primary copy and the secondary's signature as they were, unless all is written |
| StagedProofs.MainDone | gpt-utils/gpt-utils.cpp:832-875 | a complete main stage leaves the primary marked and the secondary booting the backup partitions; it writes if and only if there is a backup and the boot unit was switched |
| StagedProofs.BackupDone | gpt-utils/gpt-utils.cpp:876-912 | a complete backup stage leaves the primary good and the secondary marked |
| StagedProofs.FinalizeDone | gpt-utils/gpt-utils.cpp:913-932 | a complete finalizing stage leaves the phase the disk started in |
| StagedProofs.MainCut | gpt-utils/gpt-utils.cpp:832-875 | the main stage cut anywhere leaves a phase that boots |
| StagedProofs.BackupCut | gpt-utils/gpt-utils.cpp:876-912 | so does the backup stage |
| StagedProofs.FinalizeCut | gpt-utils/gpt-utils.cpp:913-932 | so does the finalizing stage |
| StagedTheorems.CrashSafety | gpt-utils/gpt-utils.cpp:762-942 | in every run of calls with any stages, cut at any write and resumed any number of times, the primary is fully valid with the original entries, or the secondary is with the backup partitions swapped in; a reader sees the one or the other by the primary's signature |
| StagedTheorems.RunHolds | gpt-utils/gpt-utils.cpp:762-942 | the invariant behind it: every disk of a run is the original one in a safe phase |
| StagedTheorems.FailedCallKeeps | gpt-utils/gpt-utils.cpp:856-931 | a call stopped by a failing device operation keeps that invariant |
| StagedTheorems.AlwaysAtAStage | gpt-utils/gpt-utils.cpp:794-820 | no run reaches a bad header CRC or two cleared signatures |
| StagedTheorems.Dispatch | gpt-utils/gpt-utils.cpp:808-829 | at every point of every run a call writes only at its own stage, a stage just taken is acknowledged without a write, and every other call fails without one |
| StagedTheorems.DamageRefused | gpt-utils/gpt-utils.cpp:794-800 | one damaged byte in a good header makes every stage fail before any write |
| StagedDamage.MainExactly | gpt-utils/gpt-utils.cpp:352-358 | on any disk where the main stage is next it fails without a write if and only if the boot unit cannot be switched or the primary array has another CRC than its header states; else it succeeds, and writes if and only if some listed name has two entries |
| StagedDamage.FinalizeExactly | gpt-utils/gpt-utils.cpp:352-358 | the finalizing stage fails without a write if and only if the primary array has another CRC than its header states |
| StagedDamage.BackupExactly | gpt-utils/gpt-utils.cpp:876-912 | on any disk where the backup stage is next, what a reader finds when it is done: the primary array if that has the CRC its header states and the header is in the block it names, else nothing |
| StagedDamage.DamagedEntries | gpt-utils/gpt-utils.cpp:352-358 | at every point of a run, with any other entries in the primary array: the main and finalizing stages fail without a write if and only if the CRC is another, and the backup stage succeeds and then leaves no valid copy if it is |
| StagedDamage.BurstRefused | gpt-utils/gpt-utils.cpp:352-358 | damage inside four neighbouring bytes of the primary array makes the main and the finalizing stage fail before any write |
| StagedTheorems.FinalizeRestores | gpt-utils/gpt-utils.cpp:913-932 | whatever ran before and wherever it was cut, a finalizing call that writes gives back every byte of the original disk |
| StagedTheorems.FullCycle | gpt-utils/gpt-utils.cpp:831-932 | the three stages in order give back every byte, with or without backup pairs, and a reader sees the swapped entries after the first and the original ones after the second |
| StagedTheorems.MainTaken | gpt-utils/gpt-utils.cpp:822-824 | repeating the main stage after it took effect succeeds without a write, and the backup stage is next |
| StagedTheorems.BackupTaken | gpt-utils/gpt-utils.cpp:822-824 | repeating the backup stage succeeds without a write, and the finalizing stage is next |
| StagedTheorems.NothingToUpdate | gpt-utils/gpt-utils.cpp:856-865 | without a backup pair the main stage returns 0 and writes nothing, and the later stages are refused |
| StagedOrder.AnyOrder | gpt-utils/gpt-utils.cpp:384-389 | for every subset of the main stage's three writes that persisted, and any secondary array: the original entries while the primary's signature stands, then the secondary's if they have the CRC the persisted secondary header states, else none |
| StagedOrder.PersistedEnds | gpt-utils/gpt-utils.cpp:852-874 | the empty subset is the original disk and the full one the disk the main stage leaves |
| StagedOrder.OrderMatters | gpt-utils/gpt-utils.cpp:936-940 | with the signature cleared, the swapped entries are found when array and header persisted, the original ones when neither did, and when one did no valid copy is left if and only if the arrays differ in CRC |
| StagedSubsets.BackupAnyOrder | gpt-utils/gpt-utils.cpp:899-911 | at every point of a run where the backup stage is next, for every subset of its two writes that persisted: what a reader finds and which stage comes next; only when the second persisted without the first is no copy valid and every stage refused |
| StagedSubsets.FinalizeAnyOrder | gpt-utils/gpt-utils.cpp:917-931 | where the finalizing stage is next, for every subset of its three writes and any secondary array: the original entries; finished exactly if the last header persisted, with a valid backup copy exactly if the array has the original's CRC, and the original disk exactly if it has its bytes |
| StagedRecovery.StagesRecover | gpt-utils/gpt-utils.cpp:786-932 | from every disk of every run, however it was cut, the three stages run to the end give back every byte of the original disk, with or without a backup pair |
| StagedRecovery.RetryExactly | gpt-utils/gpt-utils.cpp:808-829 | a stage cut at any write can be repeated, and completes, if and only if it is the main stage or the disk is not back at it; that happens to the backup stage exactly between its two writes and to the finalizing one only when it is done |
| StagedRecovery.BackupInterrupted | gpt-utils/gpt-utils.cpp:899-911 | a run that is cut between the two writes of the backup stage, after which the backup and finalizing stages are refused |
| ExampleDisk.ExampleHasBackup | gpt-utils/gpt-utils.cpp:191-275 | a disk of any number of blocks from five up, its secondary header in the last, with entries "tz" and "tzbak" is in sync and has a backup pair |
| GptHandle.GptDisk.GetDiskInfo | gpt-utils/gpt-utils.cpp:1389-1462 | loading fills the handle with the two headers and the array each of them places, of whatever sizes; failing leaves it as initialized as it was |
| GptHandle.GptDisk.GetPentry | gpt-utils/gpt-utils.cpp:1465-1481 | the first entry with the name or the backup name in as many bytes of the chosen array as the handle keeps, none only if there is none or the handle is empty |
| GptHandle.GptDisk.UpdateCrc | gpt-utils/gpt-utils.cpp:1487-1521 | the CRC update in place, and -1 without change on an empty handle |
| GptHandle.GptDisk.Commit | gpt-utils/gpt-utils.cpp:1524-1569 | four region writes in order, each array where its own header says, or a first part of them and -1 when an operation fails, none on an empty handle |
| ArrayPlaces.LoadPlaces | gpt-utils/gpt-utils.cpp:1389-1462 | loading takes the second and the last block and, from the LBA and in the size the bytes of each state, its array |
| ArrayPlaces.CommitPlaces | gpt-utils/gpt-utils.cpp:1539-1562 | a commit writes the second block, the array at the LBA its bytes state, the last block, and the array at the LBA its bytes state, in this order |
| ArrayPlaces.ChainPlaces | gpt-utils/gpt-utils.cpp:365-389 | the boot-chain switch writes the last block, then an array at the LBA that block's bytes state |
| HandleCrcs.UpdateKeepsCrcs | gpt-utils/gpt-utils.cpp:1487-1521 | the four CRCs kept in the handle after an update are those its headers state |
| HandleCrcs.LoadKeepsCrcs | gpt-utils/gpt-utils.cpp:1404-1455 | loading keeps the stated array CRCs; what it keeps as a header's CRC is that header's CRC if and only if the header states zero |
| HandleCrcs.LoadedAgain | gpt-utils/gpt-utils.cpp:1389-1569 | loading after update and commit gives back the array CRCs, and each header CRC if and only if it is zero |
| HandlePlan.UpdateMakesValid | gpt-utils/gpt-utils.cpp:1487-1521 | the primary copy's two CRCs are right after the update; the backup's array CRC and header CRC are right if and only if its array and its sealed header have the same CRC over the primary's sizes as over their own; no other byte of a header and no array changes |
| HandlePlan.UpdateMakesBothValid | gpt-utils/gpt-utils.cpp:1487-1521 | with equal header sizes and array sizes all four CRCs are right |
| HandlePlan.LongerBackupFails | gpt-utils/gpt-utils.cpp:1510-1517 | when the backup header is one byte longer, of any two values of that byte at least one gives a bad backup CRC |
| HandlePlan.UpdateTwice | gpt-utils/gpt-utils.cpp:1487-1521 | updating twice is updating once |
| HandleProofs.CommitLoaded | gpt-utils/gpt-utils.cpp:1389-1569 | committing a handle just loaded leaves the disk unchanged |
| HandleProofs.LoadCommitted | gpt-utils/gpt-utils.cpp:1389-1569 | loading after a commit returns the committed headers, arrays and sizes, equal sizes or not |
| HandleProofs.CommitIsAtomic | gpt-utils/gpt-utils.cpp:1539-1562 | after k of the four writes a reader sees exactly the old entries for k < 2 and exactly the new ones from then on |
| HandleProofs.AtomicAtWritesExactly | gpt-utils/gpt-utils.cpp:1539-1562 | on any disk with a valid primary copy, in sync or not, a reader sees the old or the new entries after every one of the four writes if and only if the two arrays have one CRC or the backup copy is valid with the old or the new entries |
| TornCommits.CutStaysUnderway | gpt-utils/gpt-utils.cpp:1539-1562 | wherever a commit, or a repetition of an interrupted one, is cut: the disk is as it was, or has the new primary header over old and new blocks and the backup copy untouched, or has the new primary copy |
| TornCommits.MixtureIsReached | gpt-utils/gpt-utils.cpp:1546-1550 | every mixture of old and new blocks is what some cut leaves |
| TornCommits.AtomicExactly | gpt-utils/gpt-utils.cpp:1539-1562 | for blocks of any size and any disk with a valid primary copy, a reader sees the old or the new entries after every cut if and only if no mixture that is neither has the CRC of the new ones, and the backup copy covers if some mixture has another CRC |
| TornCommits.AtomicInSync | gpt-utils/gpt-utils.cpp:1539-1562 | from a disk in sync that is so if and only if no mixture that is neither has the CRC of the new entries |
| TornCommits.RetriesAtomic | gpt-utils/gpt-utils.cpp:1524-1569 | a commit that is atomic stays so however often it is cut and repeated with the same handle |
| TornEdits.UnluckyTears | gpt-utils/gpt-utils.cpp:1483-1562 | an edit that changes one byte, and five others in other blocks, so that its commit can be torn into neither the old nor the new entries |
| TornEdits.EditsAtomicExactly | gpt-utils/gpt-utils.cpp:1483-1562 | on a disk in sync every edit, made and sealed as intended, is committed atomically if and only if the primary array lies in one block of the device |
| TornEdits.LongArraysTear | gpt-utils/gpt-utils.cpp:1483-1562 | in the disk's own blocks, if and only if the array is no longer than one |
| CommitRuns.Recommit | gpt-utils/gpt-utils.cpp:1524-1569 | repeating a commit that was cut anywhere leaves the disk the undisturbed commit leaves |
| CommitRuns.CommitSyncs | gpt-utils/gpt-utils.cpp:1524-1569 | a complete commit leaves a disk in sync if and only if its arrays are equal, its backup header is good for its array and that header is in the block it names |
| CommitRuns.EditsSafe | gpt-utils/gpt-utils.cpp:1389-1569 | from a disk in sync with headers of one size, over any run of edits, each committed until it is complete: while the commit under way is an atomic one, a reader sees the entries of the latest complete commit or the new ones however often it is cut and repeated, and completing it leaves what an undisturbed run leaves |
| CommitRuns.CommitOnUnfinished | gpt-utils/gpt-utils.cpp:1539-1562 | when a commit is put on one that stopped behind its second or third write and stops behind its own first: unless the two arrays agree in CRC, a reader finds the entries before both in the first case, and in the second none, unless the first edit kept the CRC under a good backup header |
| CommitRuns.ChangeAndBack | gpt-utils/gpt-utils.cpp:1539-1562 | on any disk with an entry, changing a byte and changing it back can leave no valid copy |
| CommitRuns.CommitAnyOrder | gpt-utils/gpt-utils.cpp:1539-1562 | for every subset of a commit's header writes that persisted, and any two arrays: a reader finds the primary array if it has the CRC the persisted primary header states, else the backup array if its persisted header is good and states its CRC, else none |
| CommitRuns.CommitNeedsOrder | gpt-utils/gpt-utils.cpp:1539-1562 | when both new headers persist without the arrays, or both arrays without the headers, no valid copy is left if and only if the edit changed the CRC |
| HandleProofs.EditedHandleUpdates | gpt-utils/gpt-utils.cpp:1483-1521 | any edit of the two arrays loaded from a disk with a good primary header, followed by a CRC update, is a handle the theorems about commits apply to |
| HintList.NodeList.AddListNode | power/list.c:37-56 | the new node becomes the first of the list, and without memory nothing changes |
| HintList.NodeList.FindNode | power/list.c:93-109 | the node found is the first with the id, and none only if no node has it |
| HintList.NodeList.RemoveListNode | power/list.c:61-91 | a node of the list is unlinked and the others keep their order; any other node gives -1 and no change |
| PerfLocks.PowerHal.PerformHintAction | power/utils.c:277-314 | a granted lock is recorded first in the list, or released again if it can be, with the return code of each case; nothing happens, with success, without a call to acquire |
| PerfLocks.PowerHal.UndoHintAction | power/utils.c:316-345 | the newest lock of the hint is released and its node removed; an unknown hint, or a library that cannot release, changes nothing |
| PerfLocks.RunConserves | power/utils.c:277-345 | over any run the outstanding locks are exactly the recorded handles, one node each, and what was acquired is what was released and what is recorded |
| PerfLocks.LostWithoutRelease | power/utils.c:290-311 | with a library that cannot release, a lock is lost if and only if it was granted and could not be recorded |
| PerfLocks.ResultTells | power/utils.c:277-345 | 0 is returned if and only if the lock was recorded first in the list or none can be taken, -22 if and only if it was refused and nothing changed, -12 when it could not be recorded and was given back if it could be; without the library nothing changes |
| PerfLocks.ReleasedOnce | power/utils.c:326-339 | no handle is released twice or while it is recorded, and every acquired handle is released or outstanding |
| PerfLocks.ListIsStacks | power/utils.c:305-339 | over any run the one list behaves as one stack per hint id: undo releases the newest of its id and disturbs no other |
| PowerProfiles.Profiles.SetPowerProfile | power/power-8996.c:96-140 | the old profile's lock goes before the new one's is taken, and a failure or an unknown profile ends balanced, with whatever parts of the library there are |
| PowerProfiles.ProfilesNeverLeak | power/power-8996.c:96-140 | over any run, with refusals, failed allocations, unknown profiles and foreign hints, there is one profile lock when a profile is in force and none when balanced |
| PowerProfiles.ProfileAsAsked | power/power-8996.c:96-140 | over any run the recorded profile and its lock are those of the latest request that was met; a refused or unknown one makes it balanced |
| PerfModes.PerfModeHints.SwitchMode | power/power-8996.c:173-194 | the lock in force is given back and then the one of the new mode taken, with never two outstanding, and -1 when it is refused |
| PerfModes.PerfModeHints.ProcessPerfHint | power/power-8996.c:196-230 | a mode is recorded only when its lock was obtained, and a request for the present state changes nothing |
| PerfModes.ModeLockSound | power/power-8996.c:173-230 | in every reachable state at most the recorded lock is outstanding, it was taken for the recorded modes, and it exists if and only if some mode is on and the latest switch did not fail |
| PerfModes.HeldWhenNotNormal | power/power-8996.c:173-230 | when no acquisition fails a lock is held exactly when the mode is not normal |
| PerfModes.CallGivesMode | power/power-8996.c:196-230 | one request sets or clears its own bit and returns 0, unless it needs a lock that is refused: then both bits stay and it returns -1 |
| PerfModes.ModeAsAsked | power/power-8996.c:173-230 | over any run the recorded mode is the one an account of the granted requests gives, and a lock that is held is the only one and was taken for the vendor's hint of exactly those modes |
| PerfModes.LatestRequestDecides | power/power-8996.c:196-230 | when no acquisition fails a bit is in the mode if and only if the latest request for it was an enable, and a lock is held if and only if some bit is |
| HintRefs.HintCounts.PowerHint | power/power-common.c:67-99 | the first enable takes the lock, later ones count, and the last disable gives it back; every hint number that is not counted changes nothing |
| HintRefs.CountsSound | power/power-common.c:67-99 | over any run a hint has a lock exactly while its count is positive, and the locks in use are those outstanding |
| HintRefs.CountIsUsers | power/power-common.c:80-94 | over any run the count of a hint is the number of its users: counted enables less counted disables |
| HintRefs.HandleLifecycle | power/power-common.c:80-94 | over any run an acquired handle is in one slot and not released, or in none and released once |
| HintRefs.AllReturned | power/power-common.c:86-90 | when no hint has users every lock ever acquired has been released exactly once and none is outstanding |
| HintRefs.LocksForTheirHints | power/power-common.c:80-85 | over any run the lock in a slot was taken for 0x1200 plus that slot's hint |
| HintRefs.LockForUsers | power/power-common.c:67-99 | in every run from the start a hint has users if and only if its slot has a lock, which is outstanding and was taken for that hint |
| DisplayState.DisplayHints.SetInteractiveHint | power/power-common.c:115-143 | a repeated display-off does nothing; otherwise the lock is taken or released if the governor is the interactive one |
| DisplayState.DisplayHints.SetInteractiveOverride | power/power-660.c:324-374 | the override takes or releases the lock under the interactive governor and reports an unreadable one |
| DisplayState.TurnIsSound | power/power-660.c:327-374 | a call keeps at most one lock, and none while the display is on, if and only if it does not turn the display on with the lock held under another governor |
| DisplayState.DisplayLockSound | power/power-common.c:115-143 | with an unchanging governor that holds over any run |
| DisplayState.LockWhileOff | power/power-common.c:115-143 | over any run under the interactive governor the display lock is the one obtained when the display last went off, while it is off, and there is none while it is on |
| DisplayState.NoneWhenOn | power/power-common.c:115-143 | and no lock is left after the call that turned the display on |
| DisplayState.ChangingGovernorLeaks | power/power-660.c:367-372 | off, on under another governor, and off again leave two locks |
| Boost.SpanIsClose | power/utils.c:380-385 | a span is within one microsecond of the exact difference, for any two times |
| Boost.ChainDrift | power/utils.c:380-385 | n chained spans drift by less than n microseconds |
| Boost.ThrottleExact | power/power-8996.c:319-325 | a short request is accepted if and only if 250 ms have passed, or just over 249.999 ms when the nanosecond part went down |
| Boost.AcceptsExactly | power/power-8996.c:297-325 | a request is accepted if and only if no special mode is on and it is longer than 750 ms or comes late enough |
| Boost.EarlyBoost | power/power-8996.c:320-325 | a boost accepted before 250 ms have passed |
| Boost.Duration | power/power-8996.c:302-315 | a duration within the limits is kept, and any other becomes the limit it is beyond |
| Boost.InteractionBoost.ProcessInteractionHint | power/power-8996.c:295-335 | an accepted request gives back the boost in force before it asks for a new one, and a rejected one changes nothing |
| Boost.BoostsSpaced | power/power-8996.c:317-326 | over any run and any clock, each short accepted boost comes more than 249999 microseconds after the accepted one before it |
| Boost.ThrottleHolds | power/power-8996.c:317-326 | on a clock that does not run backwards, k short boosts take more than k times 249999 microseconds, however many long ones lie between |
| Boost.OneBoostAtMost | power/power-8996.c:329-334 | over any run at most the recorded boost is outstanding, and every other acquired handle was released once |
| Boost.BoostAsAsked | power/power-8996.c:295-335 | over any run and any clock, the lock that is held is the one granted for the latest accepted request, and the time, duration and record of accepted requests are as asked |
| MetadataParser.StrtokR | power/metadata-parser.c:42 | the cut in place yields the first token, leaves a buffer that holds the remaining ones, and writes only NULs over semicolons |
| MetadataParser.ParseMetadata | power/metadata-parser.c:36-58 | one call yields the first token's attribute and value, each as far as its buffer goes, and leaves the other tokens; done exactly when there is none |
| MetadataParser.ParseVideoMetadata | power/metadata-parser.c:60-118 | the loop over the buffer computes split-then-fold of the string it was given, and always returns 0 |
| Metadata.SplitMeaning | power/metadata-parser.c:42 | the pieces hold no semicolon and joined by semicolons give the string back |
| Metadata.LastOnesDecide | power/metadata-parser.c:66-83 | the result is decided by the last non-empty hint_id value and the last non-empty state value |
| Metadata.AtoiOfPrint | power/metadata-parser.c:71 | atoi of a printed number is the number |
| Metadata.AtoiReads | power/metadata-parser.c:71 | white space before a number, a sign, and anything but a digit behind it do not change what atoi reads |
| Metadata.ReadBack | power/metadata-parser.c:46-55 | a written attribute is read back under its name and no other, with up to 1023 characters of its value |
| Metadata.TokensOfText | power/metadata-parser.c:42 | the tokens of written attributes are those attributes, in order |
| Metadata.PrintThenParse | power/metadata-parser.c:60-118 | any two 32-bit numbers written as the two attributes, in either order and with unknown attributes around and between them, parse back to the pair |

## Left out

- The switch of the UFS boot unit (gpt-utils/gpt-utils.cpp:540-753): SCSI nodes, sysfs and ioctls; its outcome is the
  `Platform` parameter of a call.
- LUN lists and the partition map (gpt-utils/gpt-utils.cpp:944-1145): path handling only.
- Path resolution, null arguments, `devpath`, opening by name and `gpt_disk_free`: opening is one operation that may
  fail.
- Device.BlockDevice.BlkRead: a short read, which the code reports as success, is not modelled.
- Device.BlockDevice.BlkWrite: nor is a short write, or an error that wrote something: an operation works or has no
  effect.
- Arrays of 2^32 bytes and more: the 32-bit size and 64-bit offset products wrap in the model as in the code, but a
  partitioned disk has smaller arrays.
- GptHandle.GptDisk.GetDiskInfo: assigns the fields after all reads, where the code assigns each as it is read, so
  what a failing load leaves in the other fields is not modelled.
- GptHandle.GptDisk.UpdateCrc: requires a backup array at least as long as the primary's: with a shorter one the code
  reads past its buffer.
- GptHandle.GptDisk.GetPentry: requires the same for a search of the backup array, and arrays of whole entries.
- CommitRuns.EditsSafe: is about disks whose two headers are of one size; with others the update can seal the backup
  header wrongly, which `HandlePlan.UpdateMakesValid` states.
- PerfLocks.PowerHal.UndoHintAction: what `perf_lock_rel` returns is logged by the code and ignored.
- The comparator and dump pointers of list nodes and freeing nodes: every node compares by hint id.
- The resource values a lock asks for: constants of each chip set.
- The locks of the display-on and display-off vendor hints: the code drops their handles; they are kept in an account of
  their own.
- The activity-launch hint, and the video-encode override: it can report that it did nothing while it holds a lock,
  so it is kept apart from the counted hints.
- Overflow of `ref_count`, of `atoi` and of 64-bit time arithmetic: the model's integers are unbounded.
- A metadata pointer that is null, and a buffer with no NUL: callers pass a C string.
- The XML hint parser (power/powerhintparser.c), the other chip sets, and the Android service and UI code.
