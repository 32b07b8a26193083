/** The promises of the staged update, over every run: stages in any order, cut at any write, resumed any number
    of times. Writes reach the device in program order. */
module StagedTheorems {
  import opened Bytes
  import opened Crc32
  import opened Header
  import opened HeaderProofs
  import opened Disk
  import opened StagedPlan
  import opened StagedProofs
  import opened Wrappers

  /** One call of prepare_partitions, with any stage number and any outcome of the boot unit switch. */
  datatype Call = Call(stage: int, platform: Platform)

  ghost predicate Possible(d: Disk, call: Call, ufs: bool, e: Disk) {
    && call.platform.Ufs? == ufs
    && (Preparable(d) ==> Cut(d, PreparePlan(d, call.platform, call.stage).writes, e))
  }

  /** `trace[i + 1]` is what call `i` can leave when power may fail during it; the swap list is that of one device. */
  ghost predicate Run(calls: seq<Call>, trace: seq<Disk>, ufs: bool) {
    && |trace| == |calls| + 1
    && forall i :: 0 <= i < |calls| ==> Possible(trace[i], calls[i], ufs, trace[i + 1])
  }

  lemma PlanCut(d: Disk, base: Disk, s: Phase, call: Call, e: Disk) returns (t: Phase)
    requires InSync(base) && Is(d, base, s) && Safe(base, call.platform.Ufs?, s)
    requires Preparable(d) && DiskStage(d) == StageOf(s)
    requires Cut(d, PreparePlan(d, call.platform, call.stage).writes, e)
    ensures Is(e, base, t) && Safe(base, call.platform.Ufs?, t)
  {
    hide Partitioned, InSync, Is, Safe, Cut, State, MainPlan, BackupPlan, FinalizePlan, DiskStage;
    if StageOf(s) != Some(call.stage) {
      CutOfNone(d, e);
      t := s;
    } else if call.stage == UPDATE_MAIN {
      t := MainCut(d, base, s, call.platform, e);
    } else if call.stage == UPDATE_BACKUP {
      t := BackupCut(d, base, s, call.platform, e);
    } else {
      t := FinalizeCut(d, base, s, call.platform, e);
    }
  }

  /** One call keeps the disk in a safe phase, wherever it is cut. */
  lemma CallKeeps(d: Disk, base: Disk, call: Call, ufs: bool, e: Disk)
    requires InSync(base) && Held(d, base, ufs) && Possible(d, call, ufs, e)
    ensures Held(e, base, ufs)
  {
    hide Partitioned, State;
    var s :| Is(d, base, s) && Safe(base, ufs, s);
    PhaseStage(d, base, s);
    var t := PlanCut(d, base, s, call, e);
  }

  /** A call that a failing device operation stops after some of its writes keeps the disk safe as well. */
  lemma FailedCallKeeps(d: Disk, base: Disk, call: Call, ufs: bool, done: nat)
    requires InSync(base) && Held(d, base, ufs) && call.platform.Ufs? == ufs
    requires Preparable(d) && done <= |PreparePlan(d, call.platform, call.stage).writes|
    ensures Held(ApplyAll(d, PreparePlan(d, call.platform, call.stage).writes[..done]), base, ufs)
  {
    hide Partitioned, Held, PreparePlan;
    PrefixIsCut(d, PreparePlan(d, call.platform, call.stage).writes, done);
    CallKeeps(d, base, call, ufs, ApplyAll(d, PreparePlan(d, call.platform, call.stage).writes[..done]));
  }

  lemma {:induction false} RunHolds(base: Disk, calls: seq<Call>, trace: seq<Disk>, ufs: bool, i: nat)
    requires InSync(base) && Run(calls, trace, ufs) && trace[0] == base && i < |trace|
    ensures Held(trace[i], base, ufs)
  {
    hide Partitioned, InSync, Is, Possible;
    if i == 0 {
      StartIs(base);
      assert Is(base, base, Start(base));
    } else {
      RunHolds(base, calls, trace, ufs, i - 1);
      CallKeeps(trace[i - 1], base, calls[i - 1], ufs, trace[i]);
    }
  }

  /** Crash safety. At every point of every run one copy is fully valid: the primary with the original array, or,
      once the primary's signature is cleared, the secondary with the backup partitions swapped in. */
  lemma CrashSafety(base: Disk, calls: seq<Call>, trace: seq<Disk>, ufs: bool, i: nat)
    requires InSync(base) && Run(calls, trace, ufs) && trace[0] == base && i < |trace|
    ensures Partitioned(trace[i]) && Partitioned(base)
    ensures var d := trace[i];
      || (Valid(d, Primary) && ArrayOf(d, Primary) == ArrayOf(base, Primary))
      || (Valid(d, Secondary) && ArrayOf(d, Secondary) == Swapped(base, ufs) && BackupPresent(base, ufs))
    ensures var d := trace[i];
      Boot(d) == Some(if State(HeaderOf(d, Primary)) == Ok then ArrayOf(base, Primary) else Swapped(base, ufs))
    ensures Untouched(base, trace[i]) && ArrayOf(trace[i], Primary) == ArrayOf(base, Primary)
  {
    RunHolds(base, calls, trace, ufs, i);
    var s :| Is(trace[i], base, s) && Safe(base, ufs, s);
    PhaseHeaders(trace[i], base, s);
    PhaseBoots(trace[i], base, s, ufs);
  }

  /** No run ever reaches a state the update refuses: neither header's CRC is ever wrong, and never are both
      signatures cleared. */
  lemma AlwaysAtAStage(base: Disk, calls: seq<Call>, trace: seq<Disk>, ufs: bool, i: nat)
    requires InSync(base) && Run(calls, trace, ufs) && trace[0] == base && i < |trace|
    ensures Preparable(trace[i]) && DiskStage(trace[i]).Some? && 1 <= DiskStage(trace[i]).value <= 3
  {
    hide Partitioned, InSync, Run, Is, State, Safe, Preparable, DiskStage;
    SyncIsPartitioned(base);
    RunHolds(base, calls, trace, ufs, i);
    var s :| Is(trace[i], base, s) && Safe(base, ufs, s);
    PhaseStage(trace[i], base, s);
    SafeHasStage(base, ufs, s);
  }

  /** A finalizing call that writes gives back the original disk, every byte of it, from every safe phase. */
  lemma PhaseFinalized(d: Disk, base: Disk, s: Phase, platform: Platform)
    requires InSync(base) && Is(d, base, s)
    requires Preparable(d) && DiskStage(d) == StageOf(s)
    ensures var p := PreparePlan(d, platform, UPDATE_FINALIZE);
      p.writes != [] ==> p.ret == 0 && ApplyAll(d, p.writes) == base
  {
    hide Partitioned, Is, InSync, MainPlan, BackupPlan, FinalizePlan, State;
    if StageOf(s) == Some(UPDATE_FINALIZE) {
      FinalizeDone(d, base, s, platform);
      StartIs(base);
      PhaseDetermines(base, ApplyAll(d, FinalizePlan(d, platform).writes), base, Start(base));
    }
  }

  /** Whatever stages ran before and wherever they were cut: a finalizing call that writes restores the disk. */
  lemma FinalizeRestores(base: Disk, calls: seq<Call>, trace: seq<Disk>, ufs: bool, i: nat, platform: Platform)
    requires InSync(base) && Run(calls, trace, ufs) && trace[0] == base && i < |trace|
    ensures Preparable(trace[i])
    ensures var p := PreparePlan(trace[i], platform, UPDATE_FINALIZE);
      p.writes != [] ==> p.ret == 0 && ApplyAll(trace[i], p.writes) == base
  {
    hide Partitioned, State;
    RunHolds(base, calls, trace, ufs, i);
    var s :| Is(trace[i], base, s) && Safe(base, ufs, s);
    PhaseStage(trace[i], base, s);
    PhaseFinalized(trace[i], base, s, platform);
  }

  // ----- dispatch

  /** Which calls write, at a disk that is at stage `at`. */
  predicate Writes(at: Option<int>, base: Disk, call: Call)
    requires Partitioned(base)
  {
    && at == Some(call.stage)
    && (call.stage == UPDATE_MAIN ==> MainWrites(base, call.platform))
    && (call.stage == UPDATE_BACKUP ==> call.platform != Ufs(SwitchFailed))
  }

  /** Which calls succeed: those that write, those whose stage was just taken, and UPDATE_MAIN with no backup. */
  predicate Succeeds(at: Option<int>, base: Disk, call: Call)
    requires Partitioned(base)
  {
    || Writes(at, base, call)
    || at == Some(call.stage + 1)
    || (at == Some(UPDATE_MAIN) && call.stage == UPDATE_MAIN && call.platform != Ufs(SwitchFailed))
  }

  lemma PhaseDispatch(d: Disk, base: Disk, s: Phase, call: Call)
    requires InSync(base) && Is(d, base, s)
    requires Preparable(d) && DiskStage(d) == StageOf(s)
    ensures var p := PreparePlan(d, call.platform, call.stage);
      && (p.writes != [] <==> Writes(StageOf(s), base, call))
      && p.ret == if Succeeds(StageOf(s), base, call) then 0 else -1
  {
    hide BackupPresent, Partitioned, Is, InSync, MainPlan, BackupPlan, FinalizePlan, State, ApplyAll, MainPhase, Start;
    hide HeadersFit, DiskStage, Preparable;
    PreparableAtStage(d);
    PhaseIsPartitioned(d, base, s);
    if StageOf(s) == Some(UPDATE_MAIN) {
      MainDone(d, base, s, call.platform);
    } else if StageOf(s) == Some(UPDATE_FINALIZE) {
      FinalizeDone(d, base, s, call.platform);
    } else if StageOf(s) == Some(UPDATE_BACKUP) {
      BackupDone(d, base, s, call.platform);
    }
  }

  /** Dispatch at every point of every run: a call writes only at its own stage, a stage just taken is
      acknowledged without a write, and every other call fails without a write. */
  lemma Dispatch(base: Disk, calls: seq<Call>, trace: seq<Disk>, ufs: bool, i: nat, call: Call)
    requires InSync(base) && Run(calls, trace, ufs) && trace[0] == base && i < |trace|
    ensures Preparable(trace[i])
    ensures var p := PreparePlan(trace[i], call.platform, call.stage);
      && (p.writes != [] <==> Writes(DiskStage(trace[i]), base, call))
      && p.ret == if Succeeds(DiskStage(trace[i]), base, call) then 0 else -1
  {
    hide Partitioned, State;
    RunHolds(base, calls, trace, ufs, i);
    var s :| Is(trace[i], base, s) && Safe(base, ufs, s);
    PhaseStage(trace[i], base, s);
    PhaseDispatch(trace[i], base, s, call);
  }

  /** A header with a bad CRC, or two cleared signatures, stops every call before any write, on any disk. */
  lemma BadStateRefused(d: Disk, platform: Platform, stage: int)
    requires Preparable(d)
    ensures var p, q := State(HeaderOf(d, Primary)), State(HeaderOf(d, Secondary));
      p == BadCrc || q == BadCrc || (p == BadSignature && q == BadSignature)
      ==> PreparePlan(d, platform, stage) == Plan(-1, [])
  {
  }

  /** One damaged byte in a good header, outside its size field, makes every call of every stage fail before any
      write: damage is never mistaken for the marks the update leaves. */
  lemma DamageRefused(d: Disk, gpt: Instance, i: nat, b: byte, platform: Platform, stage: int)
    requires HeadersFit(d) && State(HeaderOf(d, gpt)) == Ok
    requires i < HeaderSize(HeaderOf(d, gpt)) && !(12 <= i < 16) && HeaderOf(d, gpt)[i] != b
    ensures var e := Apply(d, HeaderWrite(d, gpt, HeaderOf(d, gpt)[i := b]));
      Preparable(e) && PreparePlan(e, platform, stage) == Plan(-1, [])
  {
    hide Crc, Partitioned, State, Apply, PreparePlan;
    SingleByteDamage(HeaderOf(d, gpt), i, b);
    HeaderReads(d, gpt, HeaderOf(d, gpt)[i := b]);
    BadStateRefused(Apply(d, HeaderWrite(d, gpt, HeaderOf(d, gpt)[i := b])), platform, stage);
  }

  // ----- whole cycles

  /** The disk a complete call leaves. */
  function After(d: Disk, platform: Platform, stage: int): Disk
    requires Preparable(d)
  {
    ApplyAll(d, PreparePlan(d, platform, stage).writes)
  }

  lemma PlanIsMain(d: Disk)
    requires Preparable(d) && DiskStage(d) == Some(UPDATE_MAIN)
    ensures PreparePlan(d, Emmc, UPDATE_MAIN) == MainPlan(d, Emmc)
  {
    hide MainPlan, Partitioned, State;
  }

  lemma AlreadyTaken(d: Disk, stage: int)
    requires Preparable(d) && DiskStage(d) == Some(stage + 1)
    ensures PreparePlan(d, Emmc, stage) == Plan(0, [])
  {
    hide Partitioned, State;
  }

  /** A stage that took effect: repeating it succeeds without a write, and the next stage can be taken. */
  lemma MainTaken(base: Disk)
    requires InSync(base) && BackupPresent(base, false)
    ensures Preparable(base) && PreparePlan(base, Emmc, UPDATE_MAIN).ret == 0
    ensures var d := After(base, Emmc, UPDATE_MAIN);
      && Is(d, base, MainPhase(base, false)) && Preparable(d)
      && DiskStage(d) == Some(UPDATE_BACKUP)
      && PreparePlan(d, Emmc, UPDATE_MAIN) == Plan(0, [])
  {
    hide PreparePlan, MainPlan, Is, InSync, Partitioned, State, Form, Valid;
    hide BackupPresent, ApplyAll, HeadersFit, DiskStage;
    SyncIsPartitioned(base);
    StartIs(base);
    PhaseStage(base, base, Start(base));
    MainDone(base, base, Start(base), Emmc);
    PlanIsMain(base);
    PhaseStage(After(base, Emmc, UPDATE_MAIN), base, MainPhase(base, false));
    AlreadyTaken(After(base, Emmc, UPDATE_MAIN), UPDATE_MAIN);
  }

  lemma PlanIsBackup(d: Disk)
    requires Preparable(d) && DiskStage(d) == Some(UPDATE_BACKUP)
    ensures PreparePlan(d, Emmc, UPDATE_BACKUP) == BackupPlan(d, Emmc)
  {
    hide BackupPlan, Partitioned, State;
  }

  lemma BackupTaken(d: Disk, base: Disk)
    requires InSync(base) && Is(d, base, MainPhase(base, false))
    requires Preparable(d) && DiskStage(d) == Some(UPDATE_BACKUP)
    ensures PreparePlan(d, Emmc, UPDATE_BACKUP).ret == 0
    ensures var e := After(d, Emmc, UPDATE_BACKUP);
      && Is(e, base, BackupPhase(base, false)) && Preparable(e)
      && DiskStage(e) == Some(UPDATE_FINALIZE)
      && PreparePlan(e, Emmc, UPDATE_BACKUP) == Plan(0, [])
  {
    hide PreparePlan, BackupPlan, Is, InSync, Partitioned, State, Form, ApplyAll, HeadersFit, DiskStage;
    SyncIsPartitioned(base);
    BackupDone(d, base, MainPhase(base, false), Emmc);
    PlanIsBackup(d);
    PhaseStage(After(d, Emmc, UPDATE_BACKUP), base, BackupPhase(base, false));
    AlreadyTaken(After(d, Emmc, UPDATE_BACKUP), UPDATE_BACKUP);
  }

  lemma DispatchIdle(base: Disk, stage: int)
    requires Partitioned(base) && UPDATE_MAIN <= stage <= UPDATE_FINALIZE
    ensures StageOf(Start(base)) == Some(UPDATE_MAIN)
    ensures Writes(Some(UPDATE_MAIN), base, Call(stage, Emmc))
      <==> stage == UPDATE_MAIN && BackupPresent(base, false)
    ensures Succeeds(Some(UPDATE_MAIN), base, Call(stage, Emmc)) <==> stage == UPDATE_MAIN
  {
    hide BackupPresent, Partitioned;
  }

  lemma NothingAtStage(base: Disk, stage: int)
    requires InSync(base) && !BackupPresent(base, false) && UPDATE_MAIN <= stage <= UPDATE_FINALIZE
    ensures Preparable(base)
    ensures PreparePlan(base, Emmc, stage) == Plan(if stage == UPDATE_MAIN then 0 else -1, [])
  {
    hide BackupPresent, PreparePlan, State, Is, InSync, Partitioned, HeadersFit, DiskStage;
    SyncIsPartitioned(base);
    StartIs(base);
    PhaseStage(base, base, Start(base));
    PhaseDispatch(base, base, Start(base), Call(stage, Emmc));
    DispatchIdle(base, stage);
  }

  /** Without a backup pair the first stage does nothing and says so, and the later stages are refused. */
  lemma NothingToUpdate(base: Disk)
    requires InSync(base) && !BackupPresent(base, false)
    ensures Preparable(base)
    ensures PreparePlan(base, Emmc, UPDATE_MAIN) == Plan(0, [])
    ensures PreparePlan(base, Emmc, UPDATE_BACKUP) == Plan(-1, [])
    ensures PreparePlan(base, Emmc, UPDATE_FINALIZE) == Plan(-1, [])
  {
    hide PreparePlan, InSync, BackupPresent, Preparable;
    NothingAtStage(base, UPDATE_MAIN);
    NothingAtStage(base, UPDATE_BACKUP);
    NothingAtStage(base, UPDATE_FINALIZE);
  }

  lemma MainBoots(d: Disk, base: Disk)
    requires InSync(base) && BackupPresent(base, false) && Is(d, base, MainPhase(base, false))
    ensures Sees(d, Some(Swapped(base, false)))
  {
    hide Is, InSync, Partitioned, Valid, Boot, Crc, Swapped, Readable, BackupPresent;
    SyncIsPartitioned(base);
    PhaseIsPartitioned(d, base, MainPhase(base, false));
    PartitionedIsSized(d);
    PhaseBoots(d, base, MainPhase(base, false), false);
  }

  lemma FinalizeTaken(d: Disk, base: Disk)
    requires InSync(base) && BackupPresent(base, false) && Is(d, base, BackupPhase(base, false))
    requires Preparable(d) && DiskStage(d) == Some(UPDATE_FINALIZE)
    ensures Sees(d, Some(ArrayOf(base, Primary)))
    ensures PreparePlan(d, Emmc, UPDATE_FINALIZE).ret == 0 && After(d, Emmc, UPDATE_FINALIZE) == base
  {
    hide Is, InSync, Valid, Boot, Crc, Swapped, Partitioned, PreparePlan;
    hide Readable, BackupPresent, HeadersFit, DiskStage;
    hide ArrayOf, ApplyAll;
    SyncIsPartitioned(base);
    PhaseIsPartitioned(d, base, BackupPhase(base, false));
    PartitionedIsSized(d);
    PhaseBoots(d, base, BackupPhase(base, false), false);
    PhaseDispatch(d, base, BackupPhase(base, false), Call(UPDATE_FINALIZE, Emmc));
    PhaseFinalized(d, base, BackupPhase(base, false), Emmc);
  }

  /** The full cycle MAIN, BACKUP, FINALIZE gives back every byte of the disk, with or without backup pairs. */
  lemma FullCycle(base: Disk) returns (d1: Disk, d2: Disk)
    requires InSync(base)
    ensures Preparable(base) && d1 == After(base, Emmc, UPDATE_MAIN)
    ensures Preparable(d1) && d2 == After(d1, Emmc, UPDATE_BACKUP)
    ensures Preparable(d2) && After(d2, Emmc, UPDATE_FINALIZE) == base
    ensures BackupPresent(base, false) ==>
      && Sees(d1, Some(Swapped(base, false))) && Sees(d2, Some(ArrayOf(base, Primary)))
      && PreparePlan(base, Emmc, UPDATE_MAIN).ret == 0 && PreparePlan(d1, Emmc, UPDATE_BACKUP).ret == 0
      && PreparePlan(d2, Emmc, UPDATE_FINALIZE).ret == 0
    ensures !BackupPresent(base, false) ==> d1 == base && d2 == base
  {
    hide Is, InSync, State, Partitioned, Sees, PreparePlan, BackupPresent, Swapped, ArrayOf, Preparable, DiskStage;
    SyncIsPartitioned(base);
    if BackupPresent(base, false) {
      MainTaken(base);
      d1 := After(base, Emmc, UPDATE_MAIN);
      BackupTaken(d1, base);
      d2 := After(d1, Emmc, UPDATE_BACKUP);
      MainBoots(d1, base);
      FinalizeTaken(d2, base);
    } else {
      NothingToUpdate(base);
      d1, d2 := base, base;
      assert ApplyAll(base, []) == base;
    }
  }
}
