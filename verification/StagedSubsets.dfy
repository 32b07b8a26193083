/** The disk when only some of the writes of UPDATE_BACKUP or of UPDATE_FINALIZE have persisted, from any disk a run can
    reach. */
module StagedSubsets {
  import opened Bytes
  import opened Crc32
  import opened Disk
  import opened Header
  import opened HeaderProofs
  import opened StagedOrder
  import opened StagedPlan
  import opened StagedProofs
  import opened Wrappers

  lemma PhaseHolds(d: Disk, base: Disk, ufs: bool, s: Phase)
    requires InSync(base) && Is(d, base, s) && Safe(base, ufs, s)
    ensures Held(d, base, ufs)
  {
  }

  // ----- UPDATE_BACKUP

  /** The disk on which of the two writes of UPDATE_BACKUP the primary's fixed signature has persisted if `fixed`, the
      secondary's cleared one if `cleared`. */
  function BackupPersisted(d: Disk, platform: Platform, fixed: bool, cleared: bool): Disk
    requires Partitioned(d) && platform != Ufs(SwitchFailed)
  {
    var ws := BackupPlan(d, platform).writes;
    var e := if fixed then Apply(d, ws[0]) else d;
    if cleared then Apply(e, ws[1]) else e
  }

  lemma PrimaryFits(d: Disk)
    requires Partitioned(d)
    ensures Sized(d) && WellFormed(HeaderOf(d, Primary))
  {
  }

  lemma SameSecondary(d: Disk, good: bool)
    requires Partitioned(d)
    ensures var e := Apply(d, StateWrite(d, Primary, true));
      Partitioned(e) && StateWrite(e, Secondary, good) == StateWrite(d, Secondary, good)
  {
    hide Partitioned, SetState, Apply, Readable, State, Crc;
    PrimaryFits(d);
    SetThenGet(HeaderOf(d, Primary), true);
    HeaderWritten(d, Primary, SetState(HeaderOf(d, Primary), true));
    PartitionedIsSized(Apply(d, StateWrite(d, Primary, true)));
  }

  lemma BackupPersistedIs(d: Disk, base: Disk, s: Phase, platform: Platform, fixed: bool, cleared: bool)
    requires InSync(base) && Is(d, base, s) && platform != Ufs(SwitchFailed)
    ensures Partitioned(d)
    ensures Is(BackupPersisted(d, platform, fixed, cleared), base,
               s.(prim := s.prim || fixed, second := s.second && !cleared))
  {
    hide InSync, Is, Partitioned, SetState, HeaderOf, HeaderWrite;
    PhaseIsPartitioned(d, base, s);
    SameSecondary(d, false);
    if fixed {
      PrimaryStateMoves(d, base, s, true);
      if cleared {
        SecondaryStateMoves(Apply(d, StateWrite(d, Primary, true)), base, s.(prim := true), false);
      }
    } else if cleared {
      SecondaryStateMoves(d, base, s, false);
    }
  }

  lemma AtBackup(d: Disk, base: Disk, ufs: bool) returns (s: Phase)
    requires InSync(base) && Held(d, base, ufs) && Preparable(d) && DiskStage(d) == Some(UPDATE_BACKUP)
    ensures Is(d, base, s) && Safe(base, ufs, s) && s == MainPhase(base, ufs) && BackupPresent(base, ufs)
  {
    hide Partitioned, State, Is, BackupPresent, Swapped, Crc, InternalStage, DiskStage;
    s :| Is(d, base, s) && Safe(base, ufs, s);
    PhaseStage(d, base, s);
  }

  lemma HeldAtAStage(d: Disk, base: Disk, ufs: bool)
    requires InSync(base) && Held(d, base, ufs)
    ensures Preparable(d) && DiskStage(d).Some?
  {
    hide Partitioned, State, Is, BackupPresent, Swapped, Crc, DiskStage;
    var s :| Is(d, base, s) && Safe(base, ufs, s);
    PhaseStage(d, base, s);
  }

  /** Whichever of the two writes of UPDATE_BACKUP persisted: a reader finds the original entries once the primary is
      fixed, and the backup partitions while neither persisted. When only the secondary's signature was cleared no valid
      copy is left, and no stage is ever accepted again. */
  lemma BackupAnyOrder(d: Disk, base: Disk, platform: Platform, fixed: bool, cleared: bool)
    requires InSync(base) && Held(d, base, platform.Ufs?) && platform != Ufs(SwitchFailed)
    requires Preparable(d) && DiskStage(d) == Some(UPDATE_BACKUP)
    ensures var r := BackupPersisted(d, platform, fixed, cleared);
      && Sees(r, if fixed then Some(ArrayOf(base, Primary))
                 else if cleared then None
                 else Some(Swapped(base, platform.Ufs?)))
      && Preparable(r)
      && DiskStage(r) == (if fixed then Some(if cleared then UPDATE_FINALIZE else UPDATE_MAIN)
                          else if cleared then None
                          else Some(UPDATE_BACKUP))
      && (Held(r, base, platform.Ufs?) <==> fixed || !cleared)
      && (cleared && !fixed ==> forall p, stage :: PreparePlan(r, p, stage) == Plan(-1, []))
  {
    hide InSync, Partitioned, State, Is, Swapped, Crc, BackupPersisted, BackupPresent;
    hide Valid, DiskStage, Held, Preparable;
    hide MainPlan, BackupPlan, FinalizePlan;
    SyncIsPartitioned(base);
    var ufs := platform.Ufs?;
    var s := AtBackup(d, base, ufs);
    BackupPersistedIs(d, base, s, platform, fixed, cleared);
    var r, t := BackupPersisted(d, platform, fixed, cleared), s.(prim := fixed, second := !cleared);
    PhaseStage(r, base, t);
    PhaseValidity(r, base, t);
    PhaseArrays(r, base, t);
    if fixed || !cleared {
      PhaseHolds(r, base, ufs, t);
    } else if Held(r, base, ufs) {
      HeldAtAStage(r, base, ufs);
    }
  }

  // ----- UPDATE_FINALIZE

  /** The disk on which of the three writes of UPDATE_FINALIZE the secondary header with the new array CRC has persisted
      if `header`, the one with its signature fixed as well if `signature`, and of the secondary array what is in `a`:
      the old array, the new one, or a torn mixture of them. */
  function FinalizePersisted(d: Disk, platform: Platform, header: bool, a: seq<byte>, signature: bool): Disk
    requires Partitioned(d) && |FinalizePlan(d, platform).writes| == 3
  {
    var ws := FinalizePlan(d, platform).writes;
    var e := if header then Apply(d, ws[0]) else d;
    var f := Apply(e, ws[1].(data := a));
    if signature then Apply(f, ws[2]) else f
  }

  /** The secondary header of `base` with the array CRC of its primary array. */
  function FinalHeader(base: Disk, good: bool): (h: seq<byte>)
    requires Partitioned(base)
    ensures |h| == base.blk
  {
    FormShape(HeaderOf(base, Secondary), good, Crc(ArrayOf(base, Primary)));
    Form(HeaderOf(base, Secondary), good, Crc(ArrayOf(base, Primary)))
  }

  lemma SameHeaderWrite(d: Disk, e: Disk, gpt: Instance, h: seq<byte>)
    requires Sized(d) && Sized(e) && d.blk == e.blk && |d.bytes| == |e.bytes|
    ensures HeaderWrite(d, gpt, h) == HeaderWrite(e, gpt, h)
  {
  }

  lemma PhaseHeader(d: Disk, base: Disk, s: Phase)
    requires InSync(base) && Is(d, base, s)
    ensures Partitioned(d) && Partitioned(base) && d.blk == base.blk && |d.bytes| == |base.bytes|
    ensures Sized(d)
    ensures HeaderOf(d, Secondary) == Form(HeaderOf(base, Secondary), s.second, s.crc)
    ensures ArrayOffset(d, Secondary) == ArrayOffset(base, Secondary)
    ensures HeaderOf(base, Secondary)[..9] == GPT_SIGNATURE
  {
  }

  lemma HeaderFits(d: Disk)
    requires Partitioned(d)
    ensures WellFormed(HeaderOf(d, Secondary))
  {
  }

  lemma ChainHeaderIs(d: Disk, base: Disk, s: Phase, ufs: bool)
    requires InSync(base) && Is(d, base, s)
    ensures Partitioned(d) && Partitioned(base)
    ensures ChainHeader(d, NormalBoot, ufs) == FinalHeader(base, s.second)
  {
    PhaseHeader(d, base, s);
    PhaseChain(d, base, s, ufs);
    hide InSync, Is, Partitioned, Form, SetArrayCrc, Crc, ChainArray;
    HeaderFits(base);
    FormSetArrayCrc(HeaderOf(base, Secondary), s.second, s.crc, Crc(ArrayOf(base, Primary)));
  }

  /** The last write of UPDATE_FINALIZE. */
  lemma FinalStateWrite(d: Disk, base: Disk, s: Phase, ufs: bool)
    requires InSync(base) && Is(d, base, s)
    ensures Partitioned(d) && Partitioned(base)
    ensures StateWrite(AfterChain(d, NormalBoot, ufs), Secondary, true)
         == HeaderWrite(base, Secondary, FinalHeader(base, true))
  {
    hide InSync, Is, Partitioned, Form, SetState, Crc, ChainArray, AfterChain, HeaderOf, ArrayOf, State;
    hide Sized, ArrayFits, ArrayOffset, BackupPresent;
    SyncIsPartitioned(base);
    PhaseIsPartitioned(d, base, s);
    PhaseChain(d, base, s, ufs);
    ChainDone(d, base, s, NormalBoot, ufs);
    PhaseHeader(AfterChain(d, NormalBoot, ufs), base, Realigned(base, s));
    HeaderFits(base);
    FormSetState(HeaderOf(base, Secondary), s.second, true, Crc(ArrayOf(base, Primary)));
    SameHeaderWrite(AfterChain(d, NormalBoot, ufs), base, Secondary, FinalHeader(base, true));
  }

  lemma FinalizeWritesAre(d: Disk, base: Disk, s: Phase, platform: Platform)
    requires InSync(base) && Is(d, base, s) && s.prim
    ensures Partitioned(d) && Partitioned(base)
    ensures FinalizePlan(d, platform).writes == [
      HeaderWrite(base, Secondary, FinalHeader(base, s.second)),
      ArrayWrite(base, Secondary, ArrayOf(base, Primary)),
      HeaderWrite(base, Secondary, FinalHeader(base, true))]
  {
    hide InSync, Is, Partitioned, Form, SetState, SetArrayCrc, Crc, ChainArray;
    hide ChainHeader, AfterChain, HeaderOf, ArrayOf;
    hide FinalizePlan, ChainPlan, FinalHeader, HeaderWrite, Sized, ArrayFits;
    hide ArrayOffset, BackupPresent, State, ApplyAll;
    SyncIsPartitioned(base);
    PhaseHeader(d, base, s);
    PhaseChain(d, base, s, platform.Ufs?);
    ChainHeaderIs(d, base, s, platform.Ufs?);
    FinalizeShape(d, platform);
    FinalStateWrite(d, base, s, platform.Ufs?);
    SameHeaderWrite(d, base, Secondary, FinalHeader(base, s.second));
  }

  /** Writing the final header brings any phase to its signature and array CRC. */
  lemma FinalHeaderMoves(d: Disk, base: Disk, s: Phase, good: bool)
    requires InSync(base) && Is(d, base, s)
    ensures Partitioned(base)
    ensures Is(Apply(d, HeaderWrite(base, Secondary, FinalHeader(base, good))), base,
               s.(second := good, crc := Crc(ArrayOf(base, Primary))))
  {
    hide Crc, State, Valid;
    var h := FinalHeader(base, good);
    PhaseHeaders(d, base, s);
    FormShape(HeaderOf(base, Secondary), good, Crc(ArrayOf(base, Primary)));
    SameHeaderWrite(d, base, Secondary, h);
    hide Form;
    HeaderWritten(d, Secondary, h);
    HeaderWriteStaysInside(base, d, Secondary, h);
  }

  /** The phase that disk is in. */
  function FinalizePhase(base: Disk, s: Phase, header: bool, a: seq<byte>, signature: bool): Phase
    requires Partitioned(base)
  {
    Phase(s.prim, s.second || signature, if header || signature then Crc(ArrayOf(base, Primary)) else s.crc, a)
  }

  lemma FinalizePersistedIs(d: Disk, base: Disk, s: Phase, platform: Platform, header: bool, a: seq<byte>,
                            signature: bool)
    requires InSync(base) && Is(d, base, s) && s.prim && |a| == ArrayLength(base, Secondary)
    ensures Partitioned(d) && Partitioned(base) && |FinalizePlan(d, platform).writes| == 3
    ensures Is(FinalizePersisted(d, platform, header, a, signature), base, FinalizePhase(base, s, header, a, signature))
  {
    hide InSync, Is, Partitioned, FinalHeader, HeaderWrite, Crc, FinalizePlan, Apply;
    hide ArrayOf, HeaderOf, Sized, ArrayFits;
    hide ArrayOffset, ArrayLength;
    SyncIsPartitioned(base);
    FinalizeWritesAre(d, base, s, platform);
    var w := HeaderWrite(base, Secondary, FinalHeader(base, s.second));
    var e, t := if header then Apply(d, w) else d, FinalizePhase(base, s, header, s.arr, false);
    if header {
      FinalHeaderMoves(d, base, s, s.second);
    }
    ArrayPersisted(base, e, t, a);
    var f := Apply(e, ArrayWrite(base, Secondary, a));
    if signature {
      FinalHeaderMoves(f, base, t.(arr := a), true);
    }
  }

  lemma StartOf(base: Disk)
    requires InSync(base)
    ensures ArrayFits(base, Primary) && ArrayFits(base, Secondary)
    ensures ArrayOf(base, Secondary) == ArrayOf(base, Primary)
    ensures Start(base) == Phase(true, true, Crc(ArrayOf(base, Primary)), ArrayOf(base, Primary))
  {
  }

  lemma AtFinalize(d: Disk, base: Disk, ufs: bool) returns (s: Phase)
    requires InSync(base) && Held(d, base, ufs) && Preparable(d) && DiskStage(d) == Some(UPDATE_FINALIZE)
    ensures Is(d, base, s) && s.prim && !s.second
  {
    hide Partitioned, State, Is, BackupPresent, Swapped, Crc, InternalStage, DiskStage;
    s :| Is(d, base, s) && Safe(base, ufs, s);
    PhaseStage(d, base, s);
  }

  /** Whichever of the writes of UPDATE_FINALIZE persisted, and whatever became of the array: a reader finds the
      original entries. The disk counts as finished exactly when the last header persisted; then its backup copy is
      valid exactly if the array has the CRC of the original one, and the disk is the original one exactly if the array
      has its bytes. */
  lemma FinalizeAnyOrder(d: Disk, base: Disk, platform: Platform, header: bool, a: seq<byte>, signature: bool)
    requires InSync(base) && Held(d, base, platform.Ufs?) && |a| == ArrayLength(base, Secondary)
    requires Preparable(d) && DiskStage(d) == Some(UPDATE_FINALIZE)
    ensures |FinalizePlan(d, platform).writes| == 3
    ensures var r := FinalizePersisted(d, platform, header, a, signature);
      && Sees(r, Some(ArrayOf(base, Primary))) && Held(r, base, platform.Ufs?) && HeadersFit(r)
      && DiskStage(r) == Some(if signature then UPDATE_MAIN else UPDATE_FINALIZE)
      && (Valid(r, Secondary) <==> signature && Crc(a) == Crc(ArrayOf(base, Primary)))
      && (r == base <==> signature && a == ArrayOf(base, Primary))
  {
    hide InSync, Partitioned, State, Is, Swapped, Crc, FinalizePersisted, BackupPresent, Valid, DiskStage, Held;
    hide FinalizePlan;
    SyncIsPartitioned(base);
    var s := AtFinalize(d, base, platform.Ufs?);
    FinalizePersistedIs(d, base, s, platform, header, a, signature);
    var r, t := FinalizePersisted(d, platform, header, a, signature), FinalizePhase(base, s, header, a, signature);
    PhaseStage(r, base, t);
    PhaseValidity(r, base, t);
    PhaseArrays(r, base, t);
    PhaseHolds(r, base, platform.Ufs?, t);
    StartIs(base);
    StartOf(base);
    PhaseStage(base, base, Start(base));
    if signature && a == ArrayOf(base, Primary) {
      PhaseDetermines(base, r, base, Start(base));
    }
  }
}
