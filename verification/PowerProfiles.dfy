/** Power profiles: at most one profile lock is in the hint list, and exactly when a profile is in force. */
module PowerProfiles {
  import opened PerfLocks

  const PROFILE_POWER_SAVE: int := 0
  const PROFILE_BALANCED: int := 1
  const PROFILE_HIGH_PERFORMANCE: int := 2
  const PROFILE_BIAS_POWER: int := 3
  const PROFILE_BIAS_PERFORMANCE: int := 4

  const DEFAULT_PROFILE_HINT_ID: int := 0xFF00

  datatype State = State(locks: Locks, current: int)

  /** The profiles that are put in force by taking a lock. */
  predicate TakesLock(profile: int) {
    || profile == PROFILE_POWER_SAVE || profile == PROFILE_HIGH_PERFORMANCE
    || profile == PROFILE_BIAS_POWER || profile == PROFILE_BIAS_PERFORMANCE
  }

  /** The lock state once the old profile's lock is gone. */
  function Cleared(s: State, lib: Library): Locks {
    if s.current != PROFILE_BALANCED then Undone(s.locks, lib, DEFAULT_PROFILE_HINT_ID) else s.locks
  }

  /** set_power_profile: the old profile's lock goes first; an unknown profile or a failed lock leaves it balanced. */
  function SetProfile(s: State, lib: Library, profile: int, acq: Acquisition): State {
    if profile == s.current then s
    else
      if TakesLock(profile)
      then State(Performed(Cleared(s, lib), lib, DEFAULT_PROFILE_HINT_ID, acq),
                 if PerformedResult(lib, acq) == 0 then profile else PROFILE_BALANCED)
      else State(Cleared(s, lib), PROFILE_BALANCED)
  }

  class Profiles {
    const hal: PowerHal
    var current: int

    constructor (hal: PowerHal)
      ensures this.hal == hal && current == PROFILE_BALANCED
    {
      this.hal, current := hal, PROFILE_BALANCED;
    }

    ghost function View(): State
      requires hal.list.spine != []
      reads this, hal.list, hal.lib
    {
      State(hal.View(), current)
    }

    /** set_power_profile. The acquisition is the one made for the new profile, if one was made. */
    method SetPowerProfile(profile: int, hintMemory: bool, nodeMemory: bool) returns (ghost acq: Acquisition)
      requires hal.Valid()
      modifies this, hal.list, hal.list.spine, hal.lib
      ensures hal.Valid()
      ensures Allowed(old(hal.View()), Perform(DEFAULT_PROFILE_HINT_ID, acq))
      ensures View() == SetProfile(old(View()), hal.Found(), profile, acq)
    {
      UndoKeepsAcquired(hal.View(), hal.Found(), DEFAULT_PROFILE_HINT_ID);
      hide Step, StepWithoutRelease, Performed, Undone;
      acq := Refused;
      if profile == current {
        return;
      }
      var ret := -EINVAL;
      if current != PROFILE_BALANCED {
        hal.UndoHintAction(DEFAULT_PROFILE_HINT_ID);
        current := PROFILE_BALANCED;
      }
      if TakesLock(profile) {
        ret, acq := hal.PerformHintAction(DEFAULT_PROFILE_HINT_ID, hintMemory, nodeMemory);
      } else if profile == PROFILE_BALANCED {
        ret := 0;
      }
      if ret == 0 {
        current := profile;
      }
    }
  }

  // ----- all runs

  /** A call of set_power_profile, or a hint call of anyone else, who uses other hint ids. */
  datatype Call = Set(profile: int, acq: Acquisition) | Elsewhere(e: Event)

  predicate Possible(s: State, c: Call) {
    match c
    case Set(_, acq) => Allowed(s.locks, Perform(DEFAULT_PROFILE_HINT_ID, acq))
    case Elsewhere(e) => e.id != DEFAULT_PROFILE_HINT_ID && Allowed(s.locks, e)
  }

  /** The library is present. */
  function Next(s: State, c: Call): State {
    match c
    case Set(profile, acq) => SetProfile(s, PRESENT, profile, acq)
    case Elsewhere(e) => s.(locks := Step(s.locks, e))
  }

  function RunCalls(s: State, cs: seq<Call>): State
    decreases |cs|
  {
    if cs == [] then s else RunCalls(Next(s, cs[0]), cs[1..])
  }

  predicate AllPossible(s: State, cs: seq<Call>)
    decreases |cs|
  {
    cs == [] || (Possible(s, cs[0]) && AllPossible(Next(s, cs[0]), cs[1..]))
  }

  /** One profile lock when a profile other than balanced is in force, none when not; no lock is lost. */
  ghost predicate Sound(s: State) {
    && (TakesLock(s.current) || s.current == PROFILE_BALANCED)
    && |Stack(s.locks.list, DEFAULT_PROFILE_HINT_ID)| == (if s.current == PROFILE_BALANCED then 0 else 1)
    && Conserved(s.locks)
  }

  lemma StepConserves(s: Locks, e: Event)
    requires Conserved(s) && Allowed(s, e)
    ensures Conserved(Step(s, e))
  {
    assert Run(s, [e]) == Run(Step(s, e), []);
    assert AllAllowed(Step(s, e), []);
    RunConserves(s, [e]);
  }

  lemma ClearedIsEmpty(s: State)
    requires Sound(s)
    ensures Stack(Cleared(s, PRESENT).list, DEFAULT_PROFILE_HINT_ID) == [] && Conserved(Cleared(s, PRESENT))
    ensures Cleared(s, PRESENT).acquired == s.locks.acquired
  {
    StackOfStep(s.locks, Undo(DEFAULT_PROFILE_HINT_ID), DEFAULT_PROFILE_HINT_ID);
    StepConserves(s.locks, Undo(DEFAULT_PROFILE_HINT_ID));
  }

  lemma SetSound(s: State, profile: int, acq: Acquisition)
    requires Sound(s) && Allowed(s.locks, Perform(DEFAULT_PROFILE_HINT_ID, acq)) && profile != s.current
    ensures Sound(SetProfile(s, PRESENT, profile, acq))
  {
    hide Conserved, Step, Stack;
    ClearedIsEmpty(s);
    StackOfStep(Cleared(s, PRESENT), Perform(DEFAULT_PROFILE_HINT_ID, acq), DEFAULT_PROFILE_HINT_ID);
    StepConserves(Cleared(s, PRESENT), Perform(DEFAULT_PROFILE_HINT_ID, acq));
  }

  lemma NextSound(s: State, c: Call)
    requires Sound(s) && Possible(s, c)
    ensures Sound(Next(s, c))
  {
    var id := DEFAULT_PROFILE_HINT_ID;
    match c
    case Elsewhere(e) =>
      StackOfStep(s.locks, e, id);
      StepConserves(s.locks, e);
    case Set(profile, acq) =>
      if profile != s.current {
        SetSound(s, profile, acq);
      }
  }

  lemma SoundAtTheStart()
    ensures Sound(State(Locks([], {}, [], []), PROFILE_BALANCED))
  {
  }

  /** Profile switching never leaks: over any run, with refused locks, failed allocations, unknown profiles and other
      hints in between. */
  lemma {:induction false} ProfilesNeverLeak(s: State, cs: seq<Call>)
    requires Sound(s) && AllPossible(s, cs)
    ensures Sound(RunCalls(s, cs))
    decreases |cs|
  {
    if cs == [] {
    } else {
      NextSound(s, cs[0]);
      ProfilesNeverLeak(Next(s, cs[0]), cs[1..]);
    }
  }

  // ----- what was asked for

  /** The profile in force as users see it, with the lock it has. */
  datatype InForce = InForce(profile: int, lock: seq<int>)

  /** A request for the profile in force changes nothing; one for another is met if it is for a profile with a lock
      that is granted and recorded, and every other one makes it balanced, which is number 1. */
  function AfterCall(f: InForce, c: Call): InForce {
    match c
    case Elsewhere(_) => f
    case Set(profile, acq) =>
      if profile == f.profile then f
      else if profile in {0, 2, 3, 4} && acq.Granted? && acq.recorded then InForce(profile, [acq.handle])
      else InForce(1, [])
  }

  function AfterCalls(f: InForce, cs: seq<Call>): InForce
    decreases |cs|
  {
    if cs == [] then f else AfterCalls(AfterCall(f, cs[0]), cs[1..])
  }

  /** The recorded profile and the profile locks in the hint list. */
  function Shown(s: State): InForce {
    InForce(s.current, Stack(s.locks.list, 0xFF00))
  }

  lemma SetAsAsked(s: State, profile: int, acq: Acquisition)
    requires Sound(s) && Allowed(s.locks, Perform(DEFAULT_PROFILE_HINT_ID, acq))
    ensures Shown(SetProfile(s, PRESENT, profile, acq)) == AfterCall(Shown(s), Set(profile, acq))
  {
    hide Conserved, Step, Stack, Allowed;
    if profile != s.current {
      ClearedIsEmpty(s);
      StackOfStep(Cleared(s, PRESENT), Perform(DEFAULT_PROFILE_HINT_ID, acq), DEFAULT_PROFILE_HINT_ID);
    }
  }

  lemma CallAsAsked(s: State, c: Call)
    requires Sound(s) && Possible(s, c)
    ensures Shown(Next(s, c)) == AfterCall(Shown(s), c)
  {
    hide Conserved, Step, Stack, SetProfile;
    match c
    case Elsewhere(e) => StackOfStep(s.locks, e, DEFAULT_PROFILE_HINT_ID);
    case Set(profile, acq) => SetAsAsked(s, profile, acq);
  }

  /** Over every run the profile in force, and the lock it has, are those of the latest request that was met. */
  lemma {:induction false} ProfileAsAsked(s: State, cs: seq<Call>)
    requires Sound(s) && AllPossible(s, cs)
    ensures Shown(RunCalls(s, cs)) == AfterCalls(Shown(s), cs)
    decreases |cs|
  {
    hide Sound, Possible, Next, Shown;
    if cs == [] {
    } else {
      NextSound(s, cs[0]);
      CallAsAsked(s, cs[0]);
      ProfileAsAsked(Next(s, cs[0]), cs[1..]);
    }
  }
}
