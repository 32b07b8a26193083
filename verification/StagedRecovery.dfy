/** What a caller can do after an interrupted update: running the stages to the end, and repeating the stage that was
    cut. */
module StagedRecovery {
  import opened Disk
  import opened Header
  import opened StagedPlan
  import opened StagedProofs
  import opened StagedTheorems
  import opened Wrappers

  // ----- one complete call

  /** The phase a complete call leaves. */
  function Taken(base: Disk, s: Phase, ufs: bool, stage: int): Phase
    requires Partitioned(base)
  {
    if StageOf(s) != Some(stage) then s
    else if stage == UPDATE_MAIN then (if BackupPresent(base, ufs) then MainPhase(base, ufs) else s)
    else if stage == UPDATE_BACKUP then s.(prim := true, second := false)
    else Start(base)
  }

  lemma PlanOfStage(d: Disk, platform: Platform, stage: int)
    requires Preparable(d)
    ensures DiskStage(d) != Some(stage) ==> PreparePlan(d, platform, stage).writes == []
    ensures DiskStage(d) == Some(stage) ==>
      PreparePlan(d, platform, stage) ==
        if stage == UPDATE_MAIN then MainPlan(d, platform)
        else if stage == UPDATE_BACKUP then BackupPlan(d, platform)
        else FinalizePlan(d, platform)
  {
    hide MainPlan, BackupPlan, FinalizePlan, Partitioned;
  }

  /** A complete call takes a phase to the one it is to leave. */
  lemma CallTaken(d: Disk, base: Disk, s: Phase, platform: Platform, stage: int)
    requires InSync(base) && Is(d, base, s) && platform != Ufs(SwitchFailed)
    ensures Preparable(d) && DiskStage(d) == StageOf(s)
    ensures Is(After(d, platform, stage), base, Taken(base, s, platform.Ufs?, stage))
  {
    hide Partitioned, InSync, Is, MainPlan, BackupPlan, FinalizePlan, PreparePlan, DiskStage, Preparable;
    PhaseStage(d, base, s);
    PhaseIsPartitioned(d, base, s);
    PlanOfStage(d, platform, stage);
    if StageOf(s) == Some(stage) {
      if stage == UPDATE_MAIN {
        MainDone(d, base, s, platform);
      } else if stage == UPDATE_BACKUP {
        BackupDone(d, base, s, platform);
      } else {
        FinalizeDone(d, base, s, platform);
      }
    }
  }

  // ----- recovery

  /** The three stages take every safe phase back to the start, when there is a backup pair. */
  lemma ThreeStages(base: Disk, s: Phase, ufs: bool)
    requires Partitioned(base) && BackupPresent(base, ufs) && Safe(base, ufs, s)
    ensures var s1 := Taken(base, s, ufs, UPDATE_MAIN);
      Taken(base, Taken(base, s1, ufs, UPDATE_BACKUP), ufs, UPDATE_FINALIZE) == Start(base)
  {
    hide BackupPresent, Partitioned, Swapped;
  }

  lemma NothingToCut(base: Disk, call: Call)
    requires InSync(base) && !BackupPresent(base, call.platform.Ufs?)
    ensures Preparable(base) && PreparePlan(base, call.platform, call.stage).writes == []
  {
    hide BackupPresent, PreparePlan, State;
    StartIs(base);
    PhaseStage(base, base, Start(base));
    PhaseDispatch(base, base, Start(base), call);
  }

  /** Without a backup pair nothing a run does changes the disk. */
  lemma {:induction false} RunIdle(base: Disk, calls: seq<Call>, trace: seq<Disk>, ufs: bool, i: nat)
    requires InSync(base) && !BackupPresent(base, ufs)
    requires Run(calls, trace, ufs) && trace[0] == base && i < |trace|
    ensures trace[i] == base
  {
    hide BackupPresent, InSync, PreparePlan;
    if i == 0 {
    } else {
      RunIdle(base, calls, trace, ufs, i - 1);
      var call := calls[i - 1];
      assert Possible(trace[i - 1], call, ufs, trace[i]);
      NothingToCut(base, call);
      CutOfNone(base, trace[i]);
    }
  }

  /** The disk after the three stages, each run to the end, whatever each of them returns. */
  ghost predicate Recovered(d: Disk, platform: Platform, base: Disk) {
    && Preparable(d)
    && var d1 := After(d, platform, UPDATE_MAIN);
      && Preparable(d1)
      && var d2 := After(d1, platform, UPDATE_BACKUP);
        && Preparable(d2) && After(d2, platform, UPDATE_FINALIZE) == base
  }

  lemma PhaseRecovers(d: Disk, base: Disk, s: Phase, platform: Platform)
    requires InSync(base) && Is(d, base, s) && Safe(base, platform.Ufs?, s)
    requires platform != Ufs(SwitchFailed) && BackupPresent(base, platform.Ufs?)
    ensures Recovered(d, platform, base)
  {
    var ufs := platform.Ufs?;
    ThreeStages(base, s, ufs);
    CallTaken(d, base, s, platform, UPDATE_MAIN);
    var d1, s1 := After(d, platform, UPDATE_MAIN), Taken(base, s, ufs, UPDATE_MAIN);
    CallTaken(d1, base, s1, platform, UPDATE_BACKUP);
    var d2, s2 := After(d1, platform, UPDATE_BACKUP), Taken(base, s1, ufs, UPDATE_BACKUP);
    CallTaken(d2, base, s2, platform, UPDATE_FINALIZE);
    StartIs(base);
    PhaseDetermines(base, After(d2, platform, UPDATE_FINALIZE), base, Start(base));
  }

  lemma IdleRecovers(base: Disk, platform: Platform)
    requires InSync(base) && !BackupPresent(base, platform.Ufs?)
    ensures Recovered(base, platform, base)
  {
    NothingToCut(base, Call(UPDATE_MAIN, platform));
    NothingToCut(base, Call(UPDATE_BACKUP, platform));
    NothingToCut(base, Call(UPDATE_FINALIZE, platform));
    hide PreparePlan, InSync, BackupPresent, Preparable;
  }

  /** From every disk of every run the three stages, run to the end, give back every byte of the original disk. */
  lemma StagesRecover(base: Disk, calls: seq<Call>, trace: seq<Disk>, ufs: bool, i: nat, platform: Platform)
    requires InSync(base) && Run(calls, trace, ufs) && trace[0] == base && i < |trace|
    requires platform.Ufs? == ufs && platform != Ufs(SwitchFailed)
    ensures Recovered(trace[i], platform, base)
  {
    RunHolds(base, calls, trace, ufs, i);
    if BackupPresent(base, ufs) {
      var s :| Is(trace[i], base, s) && Safe(base, ufs, s);
      hide Is, Safe, Recovered, Partitioned, InSync, Run, BackupPresent;
      PhaseRecovers(trace[i], base, s, platform);
    } else {
      RunIdle(base, calls, trace, ufs, i);
      IdleRecovers(base, platform);
    }
  }

  // ----- repeating an interrupted stage

  /** How a cut of UPDATE_BACKUP, a cut of UPDATE_FINALIZE and one of UPDATE_MAIN can leave the phase. */
  predicate Left(base: Disk, s: Phase, stage: int, t: Phase)
    requires Partitioned(base)
  {
    if stage == UPDATE_MAIN then t.second
    else if stage == UPDATE_BACKUP then
      t == s || t == s.(prim := true) || t == s.(prim := true, second := false)
    else t == Start(base) || (t.prim && !t.second)
  }

  lemma BackupLeft(d: Disk, base: Disk, s: Phase, platform: Platform, e: Disk) returns (t: Phase)
    requires InSync(base) && Is(d, base, s) && Safe(base, platform.Ufs?, s)
    requires Cut(d, BackupPlan(d, platform).writes, e)
    ensures Partitioned(d) && Partitioned(base)
    ensures Is(e, base, t) && Safe(base, platform.Ufs?, t) && Left(base, s, UPDATE_BACKUP, t)
    ensures t == s || t == s.(prim := true, second := false) || e == Apply(d, StateWrite(d, Primary, true))
  {
    hide Partitioned, InSync, Is, Safe, Cut, StateWrite, BackupPlan, Start;
    PhaseIsPartitioned(d, base, s);
    BackupLands(d, base, s, platform, e);
    SafeWithPrimary(base, platform.Ufs?, s);
    t := if e == d then s
         else if e == Apply(d, StateWrite(d, Primary, true)) && Is(e, base, s.(prim := true)) then s.(prim := true)
         else s.(prim := true, second := false);
  }

  /** The phase in which a cut of a stage's own call leaves the disk. */
  lemma CutLeaves(d: Disk, base: Disk, s: Phase, call: Call, e: Disk) returns (t: Phase)
    requires InSync(base) && Is(d, base, s) && Safe(base, call.platform.Ufs?, s) && StageOf(s) == Some(call.stage)
    requires Preparable(d) && DiskStage(d) == StageOf(s)
    requires Cut(d, PreparePlan(d, call.platform, call.stage).writes, e)
    ensures Partitioned(d) && Partitioned(base)
    ensures Is(e, base, t) && Safe(base, call.platform.Ufs?, t) && Left(base, s, call.stage, t)
    ensures call.stage == UPDATE_BACKUP ==>
      t == s || t == s.(prim := true, second := false) || e == Apply(d, StateWrite(d, Primary, true))
  {
    hide Partitioned, InSync, Is, Safe, Cut, MainPlan, BackupPlan, FinalizePlan, PreparePlan, DiskStage, StateWrite;
    PhaseIsPartitioned(d, base, s);
    PlanOfStage(d, call.platform, call.stage);
    if call.stage == UPDATE_MAIN {
      t := MainCut(d, base, s, call.platform, e);
    } else if call.stage == UPDATE_BACKUP {
      t := BackupLeft(d, base, s, call.platform, e);
    } else {
      t := FinalizeCut(d, base, s, call.platform, e);
    }
  }

  /** Back at UPDATE_MAIN while another stage was being taken. */
  predicate SetBack(t: Phase, stage: int) {
    stage != UPDATE_MAIN && StageOf(t) == Some(UPDATE_MAIN)
  }

  /** Unless it was set back, taking a stage from what a cut of it left leads where taking it at first would have. */
  lemma TakenAgain(base: Disk, s: Phase, t: Phase, ufs: bool, stage: int)
    requires Partitioned(base) && Safe(base, ufs, s) && Safe(base, ufs, t) && StageOf(s) == Some(stage)
    requires Left(base, s, stage, t) && !SetBack(t, stage) && (stage == UPDATE_MAIN ==> BackupPresent(base, ufs))
    ensures Taken(base, t, ufs, stage) == Taken(base, s, ufs, stage)
  {
    hide BackupPresent, Partitioned, Swapped;
  }

  /** And the call then succeeds; set back, it is refused. */
  lemma SucceedsAgain(base: Disk, s: Phase, t: Phase, call: Call)
    requires Partitioned(base) && call.platform != Ufs(SwitchFailed) && StageOf(s) == Some(call.stage)
    requires StageOf(t).Some? && Left(base, s, call.stage, t)
    ensures Succeeds(StageOf(t), base, call) <==> !SetBack(t, call.stage)
  {
    hide BackupPresent, Partitioned;
  }

  lemma RetryReturns(e: Disk, base: Disk, s: Phase, t: Phase, call: Call)
    requires InSync(base) && Is(e, base, t) && StageOf(s) == Some(call.stage) && call.platform != Ufs(SwitchFailed)
    requires Partitioned(base) && StageOf(t).Some? && Left(base, s, call.stage, t)
    ensures Preparable(e) && DiskStage(e) == StageOf(t)
    ensures PreparePlan(e, call.platform, call.stage).ret == 0 <==> !SetBack(t, call.stage)
  {
    hide Partitioned, InSync, Is, PreparePlan, DiskStage, Left, SetBack, Succeeds, Writes;
    PhaseStage(e, base, t);
    PhaseDispatch(e, base, t, call);
    SucceedsAgain(base, s, t, call);
  }

  lemma RetryCompletes(d: Disk, e: Disk, base: Disk, s: Phase, t: Phase, platform: Platform, stage: int)
    requires InSync(base) && Is(d, base, s) && Is(e, base, t) && platform != Ufs(SwitchFailed)
    requires Partitioned(base) && Taken(base, t, platform.Ufs?, stage) == Taken(base, s, platform.Ufs?, stage)
    ensures Preparable(d) && Preparable(e) && After(e, platform, stage) == After(d, platform, stage)
  {
    hide Partitioned, InSync, Is, After, Preparable, DiskStage, Taken;
    CallTaken(d, base, s, platform, stage);
    CallTaken(e, base, t, platform, stage);
    PhaseDetermines(base, After(e, platform, stage), After(d, platform, stage), Taken(base, s, platform.Ufs?, stage));
  }

  lemma NothingInMain(d: Disk, base: Disk, s: Phase, platform: Platform, e: Disk)
    requires InSync(base) && Is(d, base, s) && StageOf(s) == Some(UPDATE_MAIN) && !BackupPresent(base, platform.Ufs?)
    requires Preparable(d) && Cut(d, PreparePlan(d, platform, UPDATE_MAIN).writes, e)
    ensures e == d
  {
    hide BackupPresent, InSync, Is, Partitioned, PreparePlan, DiskStage;
    PhaseStage(d, base, s);
    PhaseDispatch(d, base, s, Call(UPDATE_MAIN, platform));
    CutOfNone(d, e);
  }

  /** The signatures of a phase can be read off the disk. */
  lemma SamePhase(e: Disk, base: Disk, t: Phase, u: Phase)
    requires InSync(base) && Is(e, base, t) && Is(e, base, u)
    ensures StageOf(t) == StageOf(u)
  {
    hide InSync, Is;
    PhaseStage(e, base, t);
    PhaseStage(e, base, u);
  }

  lemma BackBetween(d: Disk, base: Disk, s: Phase, e: Disk, t: Phase)
    requires InSync(base) && Is(d, base, s) && Is(e, base, t) && StageOf(s) == Some(UPDATE_BACKUP)
    requires Partitioned(d) && Partitioned(base) && Left(base, s, UPDATE_BACKUP, t)
    requires t == s || t == s.(prim := true, second := false) || e == Apply(d, StateWrite(d, Primary, true))
    ensures StageOf(t) == Some(UPDATE_MAIN) <==> e == Apply(d, StateWrite(d, Primary, true))
  {
    hide InSync, Is, Partitioned, StateWrite, Start;
    PrimaryStateMoves(d, base, s, true);
    if e == Apply(d, StateWrite(d, Primary, true)) {
      SamePhase(e, base, t, s.(prim := true));
    }
  }

  lemma BackWhenDone(base: Disk, s: Phase, e: Disk, t: Phase)
    requires InSync(base) && Is(e, base, t) && Partitioned(base) && Left(base, s, UPDATE_FINALIZE, t)
    ensures StageOf(t) == Some(UPDATE_MAIN) <==> e == base
  {
    hide InSync, Is, Partitioned;
    StartIs(base);
    if t == Start(base) {
      PhaseDetermines(base, e, base, Start(base));
    } else if e == base {
      SamePhase(e, base, t, Start(base));
    }
  }

  lemma PhaseRetry(d: Disk, base: Disk, s: Phase, call: Call, e: Disk)
    requires InSync(base) && Is(d, base, s) && Safe(base, call.platform.Ufs?, s)
    requires call.platform != Ufs(SwitchFailed) && Preparable(d) && DiskStage(d) == StageOf(s) == Some(call.stage)
    requires Cut(d, PreparePlan(d, call.platform, call.stage).writes, e)
    ensures Preparable(e) && Partitioned(d)
    ensures var again := call.stage == UPDATE_MAIN || DiskStage(e) != Some(UPDATE_MAIN);
      && (PreparePlan(e, call.platform, call.stage).ret == 0 <==> again)
      && (again ==> After(e, call.platform, call.stage) == After(d, call.platform, call.stage))
    ensures call.stage == UPDATE_BACKUP ==>
      (DiskStage(e) == Some(UPDATE_MAIN) <==> e == Apply(d, StateWrite(d, Primary, true)))
    ensures call.stage == UPDATE_FINALIZE ==> (DiskStage(e) == Some(UPDATE_MAIN) <==> e == base)
  {
    hide Partitioned, InSync, Is, Safe, Cut, PreparePlan, DiskStage, StateWrite, Left, Taken, After, Preparable;
    hide BackupPresent;
    var ufs, stage := call.platform.Ufs?, call.stage;
    var t := CutLeaves(d, base, s, call, e);
    SafeHasStage(base, ufs, t);
    RetryReturns(e, base, s, t, call);
    if stage == UPDATE_MAIN && !BackupPresent(base, ufs) {
      NothingInMain(d, base, s, call.platform, e);
    } else if !SetBack(t, stage) {
      TakenAgain(base, s, t, ufs, stage);
      RetryCompletes(d, e, base, s, t, call.platform, stage);
    }
    if stage == UPDATE_BACKUP {
      BackBetween(d, base, s, e, t);
    } else if stage == UPDATE_FINALIZE {
      BackWhenDone(base, s, e, t);
    }
  }

  /** When its own stage was cut, at any write of any run, the same call can be repeated with success exactly when the
      stage is UPDATE_MAIN or the disk is not back at it; the repetition then completes the stage. A disk is back at
      UPDATE_MAIN after UPDATE_BACKUP exactly when the cut fell between its two writes, and after UPDATE_FINALIZE only
      when all was done. */
  lemma RetryExactly(base: Disk, calls: seq<Call>, trace: seq<Disk>, ufs: bool, i: nat, call: Call, e: Disk)
    requires InSync(base) && Run(calls, trace, ufs) && trace[0] == base && i < |trace|
    requires call.platform.Ufs? == ufs && call.platform != Ufs(SwitchFailed)
    requires Preparable(trace[i]) && DiskStage(trace[i]) == Some(call.stage)
    requires Cut(trace[i], PreparePlan(trace[i], call.platform, call.stage).writes, e)
    ensures Preparable(e)
    ensures var again := call.stage == UPDATE_MAIN || DiskStage(e) != Some(UPDATE_MAIN);
      && (PreparePlan(e, call.platform, call.stage).ret == 0 <==> again)
      && (again ==> After(e, call.platform, call.stage) == After(trace[i], call.platform, call.stage))
    ensures call.stage == UPDATE_BACKUP ==>
      (DiskStage(e) == Some(UPDATE_MAIN) <==> e == Apply(trace[i], StateWrite(trace[i], Primary, true)))
    ensures call.stage == UPDATE_FINALIZE ==> (DiskStage(e) == Some(UPDATE_MAIN) <==> e == base)
  {
    RunHolds(base, calls, trace, ufs, i);
    var d := trace[i];
    var s :| Is(d, base, s) && Safe(base, ufs, s);
    PhaseStage(d, base, s);
    assert ufs == call.platform.Ufs?;
    hide *;
    PhaseRetry(d, base, s, call, e);
  }

  // ----- an update that has to start over

  lemma RefusedAtMain(e: Disk, base: Disk, t: Phase, stage: int)
    requires InSync(base) && Is(e, base, t) && StageOf(t) == Some(UPDATE_MAIN)
    ensures Preparable(e) && DiskStage(e) == Some(UPDATE_MAIN)
    ensures stage == UPDATE_BACKUP || stage == UPDATE_FINALIZE ==> PreparePlan(e, Emmc, stage) == Plan(-1, [])
  {
    hide Partitioned, Is, InSync;
    PhaseStage(e, base, t);
  }

  lemma CutInBackup(d: Disk)
    requires Partitioned(d)
    ensures Cut(d, BackupPlan(d, Emmc).writes, Apply(d, StateWrite(d, Primary, true)))
  {
    hide Partitioned, SetState, HeaderOf;
    var ws := BackupPlan(d, Emmc).writes;
    PrefixIsCut(d, ws, 1);
    assert ws[..1] == [StateWrite(d, Primary, true)];
    ApplyOne(d, StateWrite(d, Primary, true));
  }

  lemma AllIsCut(d: Disk, ws: seq<Write>)
    ensures Cut(d, ws, ApplyAll(d, ws))
  {
    PrefixIsCut(d, ws, |ws|);
    assert ws[..|ws|] == ws;
  }

  lemma BackupCutBetween(d: Disk, base: Disk, s: Phase)
    requires InSync(base) && Is(d, base, s) && StageOf(s) == Some(UPDATE_BACKUP)
    ensures Partitioned(d)
    ensures var e := Apply(d, StateWrite(d, Primary, true));
      Possible(d, Call(UPDATE_BACKUP, Emmc), false, e) && Is(e, base, s.(prim := true))
  {
    hide InSync, Is, Partitioned, PreparePlan, BackupPlan, StateWrite, DiskStage;
    PhaseStage(d, base, s);
    PhaseIsPartitioned(d, base, s);
    CutInBackup(d);
    PlanOfStage(d, Emmc, UPDATE_BACKUP);
    PrimaryStateMoves(d, base, s, true);
  }

  lemma MainRuns(base: Disk)
    requires InSync(base) && BackupPresent(base, false)
    ensures Preparable(base) && Partitioned(base)
    ensures var d := After(base, Emmc, UPDATE_MAIN);
      Possible(base, Call(UPDATE_MAIN, Emmc), false, d) && Is(d, base, MainPhase(base, false))
  {
    hide BackupPresent, InSync, Is, Partitioned, PreparePlan;
    SyncIsPartitioned(base);
    MainTaken(base);
    AllIsCut(base, PreparePlan(base, Emmc, UPDATE_MAIN).writes);
  }

  lemma RunOfTwo(c: Call, k: Call, d: Disk, e: Disk, f: Disk)
    requires Possible(d, c, false, e) && Possible(e, k, false, f)
    ensures Run([c, k], [d, e, f], false)
  {
    hide Possible;
  }

  /** Power fails between the two writes of UPDATE_BACKUP: the update is back at its first stage, and repeating
      UPDATE_BACKUP or going on to UPDATE_FINALIZE is refused. */
  lemma BackupInterrupted(base: Disk) returns (trace: seq<Disk>)
    requires InSync(base) && BackupPresent(base, false)
    ensures Run([Call(UPDATE_MAIN, Emmc), Call(UPDATE_BACKUP, Emmc)], trace, false) && trace[0] == base
    ensures Preparable(trace[2]) && DiskStage(trace[2]) == Some(UPDATE_MAIN)
    ensures PreparePlan(trace[2], Emmc, UPDATE_BACKUP) == Plan(-1, [])
    ensures PreparePlan(trace[2], Emmc, UPDATE_FINALIZE) == Plan(-1, [])
  {
    hide BackupPresent, InSync, Is, Partitioned, PreparePlan, StateWrite, Possible, After, Apply, Preparable, DiskStage;
    MainRuns(base);
    var s, d := MainPhase(base, false), After(base, Emmc, UPDATE_MAIN);
    BackupCutBetween(d, base, s);
    var e := Apply(d, StateWrite(d, Primary, true));
    RefusedAtMain(e, base, s.(prim := true), UPDATE_BACKUP);
    RefusedAtMain(e, base, s.(prim := true), UPDATE_FINALIZE);
    RunOfTwo(Call(UPDATE_MAIN, Emmc), Call(UPDATE_BACKUP, Emmc), base, d, e);
    trace := [base, d, e];
  }
}
