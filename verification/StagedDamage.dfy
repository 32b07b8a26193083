/** The staged update on disks that are not in order: when the primary entry array is not what its header states. */
module StagedDamage {
  import opened Bytes
  import opened Crc32
  import opened Crc32Residue
  import opened Disk
  import opened Entries
  import opened Header
  import opened HeaderProofs
  import opened StagedPlan
  import opened StagedProofs
  import opened SwapMeaning
  import opened Wrappers

  // ----- any disk

  /** The primary array has the CRC its header states. */
  predicate ArrayRight(d: Disk)
    requires Partitioned(d)
  {
    ArrayCrc(HeaderOf(d, Primary)) == Crc(ArrayOf(d, Primary))
  }

  /** Some listed name has two entries in the primary array. */
  ghost predicate HasPair(d: Disk, ufs: bool)
    requires Partitioned(d)
  {
    exists name, x, y :: name in SwapList(ufs)
      && TwoNamed(ArrayOf(d, Primary), EntrySize(HeaderOf(d, Primary)), name, x, y)
  }

  lemma PairIsBackup(d: Disk, ufs: bool)
    requires Partitioned(d)
    ensures BackupPresent(d, ufs) <==> HasPair(d, ufs)
  {
    hide TwoNamed, SwapList, HasBackup, Multiple;
    ArrayIsGrid(d);
    HasBackupMeaning(ArrayOf(d, Primary), EntrySize(HeaderOf(d, Primary)), SwapList(ufs));
  }

  /** On any disk where UPDATE_MAIN is next: it fails without a write when the boot unit cannot be switched or the
      primary array has another CRC than its header states; else it succeeds, and writes exactly if some listed name has
      two entries. */
  lemma MainExactly(d: Disk, platform: Platform)
    requires Preparable(d) && DiskStage(d) == Some(UPDATE_MAIN)
    ensures var p := PreparePlan(d, platform, UPDATE_MAIN);
      && p.ret == (if platform == Ufs(SwitchFailed) || !ArrayRight(d) then -1 else 0)
      && (p.writes != [] <==> platform != Ufs(SwitchFailed) && ArrayRight(d) && HasPair(d, platform.Ufs?))
  {
    hide Partitioned, Crc, State, BackupPresent, HasPair, ChainWrites, StateWrite, AfterChain, ArrayOf, HeaderOf;
    PartitionedIsSized(d);
    PairIsBackup(d, platform.Ufs?);
  }

  /** Where UPDATE_FINALIZE is next, it fails without a write exactly when the primary array has another CRC than its
      header states, and else succeeds and writes. */
  lemma FinalizeExactly(d: Disk, platform: Platform)
    requires Preparable(d) && DiskStage(d) == Some(UPDATE_FINALIZE)
    ensures var p := PreparePlan(d, platform, UPDATE_FINALIZE);
      && p.ret == (if ArrayRight(d) then 0 else -1)
      && (p.writes != [] <==> ArrayRight(d))
  {
    hide Partitioned, Crc, State, BackupPresent, ChainWrites, StateWrite, AfterChain, ArrayOf, HeaderOf;
    PartitionedIsSized(d);
  }

  lemma BackupWritten(d: Disk, platform: Platform)
    requires Partitioned(d) && platform != Ufs(SwitchFailed)
    ensures var p := BackupPlan(d, platform);
      && p.ret == 0
      && Sees(ApplyAll(d, p.writes),
              if ArrayRight(d) && Product(OwnLba(HeaderOf(d, Primary)), d.blk) == d.blk then Some(ArrayOf(d, Primary))
              else None)
  {
    hide Crc, State, SetState, ComputedCrc, Apply, ApplyAll, Product, Number, Read;
    var h := SetState(HeaderOf(d, Primary), true);
    var d1 := Apply(d, StateWrite(d, Primary, true));
    SetThenGet(HeaderOf(d, Primary), true);
    HeaderWritten(d, Primary, h);
    var g := SetState(HeaderOf(d1, Secondary), false);
    SetThenGet(HeaderOf(d1, Secondary), false);
    HeaderWritten(d1, Secondary, g);
    ApplyTwo(d, StateWrite(d, Primary, true), StateWrite(d1, Secondary, false));
    GeometryFields(HeaderOf(d, Primary), h, d.blk);
    SameNumber(HeaderOf(d, Primary), h, PARTITION_CRC_OFFSET, PARTITION_CRC_OFFSET + 4);
  }

  /** Where UPDATE_BACKUP is next, it does not look at the primary array: once it is done a reader finds that array if
      it has the CRC its header states and the header is in the block it names, and else no valid copy at all. */
  lemma BackupExactly(d: Disk, platform: Platform)
    requires Preparable(d) && DiskStage(d) == Some(UPDATE_BACKUP) && platform != Ufs(SwitchFailed)
    ensures var p := PreparePlan(d, platform, UPDATE_BACKUP);
      && p.ret == 0
      && Sees(ApplyAll(d, p.writes),
              if ArrayRight(d) && Product(OwnLba(HeaderOf(d, Primary)), d.blk) == d.blk then Some(ArrayOf(d, Primary))
              else None)
  {
    hide Partitioned, HeadersFit, Preparable, DiskStage, MainPlan, BackupPlan, FinalizePlan, Sees, ApplyAll, ArrayRight;
    hide HeaderOf, ArrayOf, Product, OwnLba, Sized, ArrayFits;
    PreparableAtStage(d);
    PartitionedIsSized(d);
    BackupWritten(d, platform);
  }

  // ----- a disk of a run with damaged entries

  lemma HeldFacts(d: Disk, base: Disk, ufs: bool)
    requires InSync(base) && Held(d, base, ufs)
    ensures Partitioned(d) && Partitioned(base) && ArrayRight(d)
    ensures ArrayOf(d, Primary) == ArrayOf(base, Primary) && ArrayLength(d, Primary) == |ArrayOf(base, Primary)|
    ensures Product(OwnLba(HeaderOf(d, Primary)), d.blk) == d.blk
  {
    hide Crc, Form, State;
    var s :| Is(d, base, s) && Safe(base, ufs, s);
    PhaseHeaders(d, base, s);
    PhaseFields(d, base, s);
  }

  /** The disk with other entries in its primary array. */
  function Damaged(d: Disk, t: seq<byte>): Disk
    requires Partitioned(d)
  {
    Apply(d, ArrayWrite(d, Primary, t))
  }

  lemma DamagedFacts(d: Disk, t: seq<byte>)
    requires Preparable(d) && DiskStage(d).Some? && |t| == ArrayLength(d, Primary)
    ensures var e := Damaged(d, t);
      && Preparable(e) && DiskStage(e) == DiskStage(d) && Partitioned(e) && ArrayOf(e, Primary) == t
      && HeaderOf(e, Primary) == HeaderOf(d, Primary)
  {
    hide Partitioned, Apply, State, ArrayOf;
    PartitionedIsSized(d);
    ArrayWritten(d, Primary, t);
    PartitionedIsSized(Damaged(d, t));
  }

  lemma StageIsOneOfThree(d: Disk)
    requires Preparable(d) && DiskStage(d).Some?
    ensures DiskStage(d).value == UPDATE_MAIN || DiskStage(d).value == UPDATE_BACKUP
         || DiskStage(d).value == UPDATE_FINALIZE
  {
    hide State, Partitioned;
  }

  lemma FailedIsEmpty(p: Plan)
    ensures p.ret == -1 && p.writes == [] <==> p == Plan(-1, [])
  {
  }

  /** At any point of a run, when the entries of the primary array are replaced: the main and the finalizing stage fail
      without a write exactly if the CRC is another, and the backup stage then leaves no valid copy. */
  lemma DamagedEntries(d: Disk, base: Disk, t: seq<byte>, platform: Platform)
    requires InSync(base) && Held(d, base, platform.Ufs?) && platform != Ufs(SwitchFailed)
    requires Preparable(d) && DiskStage(d).Some? && |t| == ArrayLength(d, Primary)
    ensures var e, differs := Damaged(d, t), Crc(t) != Crc(ArrayOf(base, Primary));
      && Preparable(e) && DiskStage(e) == DiskStage(d)
      && var p := PreparePlan(e, platform, DiskStage(d).value);
         && (DiskStage(d) != Some(UPDATE_BACKUP) ==> (p == Plan(-1, []) <==> differs))
         && (DiskStage(d) == Some(UPDATE_BACKUP) ==>
              p.ret == 0 && Sees(ApplyAll(e, p.writes), if differs then None else Some(t)))
  {
    hide Partitioned, InSync, Held, Crc, State, PreparePlan, Preparable, Damaged, ArrayOf, HeaderOf, Sees, DiskStage;
    HeldFacts(d, base, platform.Ufs?);
    DamagedFacts(d, t);
    var e := Damaged(d, t);
    PartitionedIsSized(d);
    PartitionedIsSized(e);
    StageIsOneOfThree(d);
    if DiskStage(d) == Some(UPDATE_MAIN) {
      MainExactly(e, platform);
      FailedIsEmpty(PreparePlan(e, platform, UPDATE_MAIN));
    } else if DiskStage(d) == Some(UPDATE_FINALIZE) {
      FinalizeExactly(e, platform);
      FailedIsEmpty(PreparePlan(e, platform, UPDATE_FINALIZE));
    } else {
      BackupExactly(e, platform);
    }
  }

  /** In particular damage inside four neighbouring bytes of the entries is always noticed by the main and the
      finalizing stage. */
  lemma BurstRefused(d: Disk, base: Disk, t: seq<byte>, p: nat, platform: Platform)
    requires InSync(base) && Held(d, base, platform.Ufs?) && platform != Ufs(SwitchFailed)
    requires Preparable(d) && (DiskStage(d) == Some(UPDATE_MAIN) || DiskStage(d) == Some(UPDATE_FINALIZE))
    requires p + 4 <= |t| == |ArrayOf(d, Primary)| && t != ArrayOf(d, Primary)
    requires forall i :: 0 <= i < |t| && !(p <= i < p + 4) ==> t[i] == ArrayOf(d, Primary)[i]
    ensures Preparable(Damaged(d, t)) && DiskStage(Damaged(d, t)) == DiskStage(d)
    ensures PreparePlan(Damaged(d, t), platform, DiskStage(d).value) == Plan(-1, [])
  {
    hide Partitioned, InSync, Held, Crc, State, PreparePlan, Preparable, Damaged, HeaderOf, Sees, DiskStage;
    HeldFacts(d, base, platform.Ufs?);
    PartitionedIsSized(d);
    BurstDetected(ArrayOf(d, Primary), t, p);
    DamagedEntries(d, base, t, platform);
  }
}
