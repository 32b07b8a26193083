/** The display-state lock: taken when the display goes off, released when it comes on. */
module DisplayState {
  import opened PerfLocks

  const DISPLAY_STATE_HINT_ID: int := 0x0C00

  /** What reading the scaling governor gives. */
  datatype Governor = Unreadable | Interactive | Different

  datatype Display = Display(locks: Locks, offSent: bool)

  /** set_interactive_override: only the interactive governor has a lock to take or to release. */
  function Overridden(s: Locks, lib: Library, on: bool, governor: Governor, acq: Acquisition): Locks {
    if governor != Interactive then s
    else if on then Undone(s, lib, DISPLAY_STATE_HINT_ID)
    else Performed(s, lib, DISPLAY_STATE_HINT_ID, acq)
  }

  /** set_interactive with set_interactive_override: a repeated display-off is ignored; otherwise the lock is taken
      or released when the governor is the interactive one. */
  function SetInteractive(s: Display, lib: Library, on: bool, governor: Governor, acq: Acquisition): Display {
    if s.offSent && !on then s else Display(Overridden(s.locks, lib, on, governor, acq), !on)
  }

  class DisplayHints {
    const hal: PowerHal
    /** The account of perf_hint, whose handles for display changes are dropped. */
    const hints: PerfLib
    var displayHintSent: bool

    constructor (hal: PowerHal, hints: PerfLib)
      ensures this.hal == hal && this.hints == hints && !displayHintSent
    {
      this.hal, this.hints, displayHintSent := hal, hints, false;
    }

    ghost function View(): Display
      requires hal.list.spine != []
      reads this, hal.list, hal.lib
    {
      Display(hal.View(), displayHintSent)
    }

    /** set_interactive_override: 0 when handled, -1 when the governor cannot be read. */
    method SetInteractiveOverride(on: bool, governor: Governor, hintMemory: bool, nodeMemory: bool)
      returns (r: int, ghost acq: Acquisition)
      requires hal.Valid()
      modifies hal.list, hal.list.spine, hal.lib
      ensures hal.Valid() && r == if governor == Unreadable then -1 else 0
      ensures Allowed(old(hal.View()), Perform(DISPLAY_STATE_HINT_ID, acq))
      ensures hal.View() == Overridden(old(hal.View()), hal.Found(), on, governor, acq)
    {
      acq := Refused;
      if governor == Unreadable {
        return -1, acq;
      }
      if !on {
        if governor == Interactive {
          var _, acq' := hal.PerformHintAction(DISPLAY_STATE_HINT_ID, hintMemory, nodeMemory);
          acq := acq';
        }
      } else {
        if governor == Interactive {
          hal.UndoHintAction(DISPLAY_STATE_HINT_ID);
        }
      }
      return 0, acq;
    }

    /** set_interactive. */
    method SetInteractiveHint(on: bool, governor: Governor, hintMemory: bool, nodeMemory: bool)
      returns (ghost acq: Acquisition)
      requires hal.Valid() && hints.Valid() && hints != hal.lib
      modifies this, hints, hal.list, hal.list.spine, hal.lib
      ensures hal.Valid() && hints.Valid()
      ensures Allowed(old(hal.View()), Perform(DISPLAY_STATE_HINT_ID, acq))
      ensures View() == SetInteractive(old(View()), hal.Found(), on, governor, acq)
    {
      acq := Refused;
      var _ := hints.Acquire();
      if displayHintSent && !on {
        return;
      }
      displayHintSent := !on;
      var _, acq' := SetInteractiveOverride(on, governor, hintMemory, nodeMemory);
      acq := acq';
    }
  }

  // ----- all runs

  datatype Call = Turn(on: bool, governor: Governor, acq: Acquisition) | Elsewhere(e: Event)

  predicate Possible(s: Display, c: Call) {
    match c
    case Turn(_, _, acq) => Allowed(s.locks, Perform(DISPLAY_STATE_HINT_ID, acq))
    case Elsewhere(e) => e.id != DISPLAY_STATE_HINT_ID && Allowed(s.locks, e)
  }

  /** The library is present. */
  function Next(s: Display, c: Call): Display {
    match c
    case Turn(on, governor, acq) => SetInteractive(s, PRESENT, on, governor, acq)
    case Elsewhere(e) => s.(locks := Step(s.locks, e))
  }

  function RunCalls(s: Display, cs: seq<Call>): Display
    decreases |cs|
  {
    if cs == [] then s else RunCalls(Next(s, cs[0]), cs[1..])
  }

  predicate AllPossible(s: Display, cs: seq<Call>)
    decreases |cs|
  {
    cs == [] || (Possible(s, cs[0]) && AllPossible(Next(s, cs[0]), cs[1..]))
  }

  function Nodes(s: Display): seq<int> {
    Stack(s.locks.list, DISPLAY_STATE_HINT_ID)
  }

  /** At most one display lock, and only while the display is off. */
  ghost predicate Sound(s: Display) {
    |Nodes(s)| <= 1 && (!s.offSent ==> Nodes(s) == [])
  }

  lemma SoundAtTheStart()
    ensures Sound(Display(Locks([], {}, [], []), false))
  {
  }

  /** One call keeps the display lock sound exactly unless it turns the display on, with the lock taken, while the
      governor is not the interactive one. */
  lemma TurnIsSound(s: Display, on: bool, governor: Governor, acq: Acquisition)
    requires Sound(s)
    ensures Sound(SetInteractive(s, PRESENT, on, governor, acq)) <==> !(on && Nodes(s) != [] && governor != Interactive)
    ensures on && governor == Interactive ==> Nodes(SetInteractive(s, PRESENT, on, governor, acq)) == []
  {
    StackOfStep(s.locks, Undo(DISPLAY_STATE_HINT_ID), DISPLAY_STATE_HINT_ID);
    StackOfStep(s.locks, Perform(DISPLAY_STATE_HINT_ID, acq), DISPLAY_STATE_HINT_ID);
  }

  predicate ReadsAlways(cs: seq<Call>, governor: Governor) {
    forall i :: 0 <= i < |cs| ==> cs[i].Turn? ==> cs[i].governor == governor
  }

  /** With a governor that reads the same every time, whatever it is, the display lock is sound over every run. */
  lemma {:induction false} DisplayLockSound(s: Display, cs: seq<Call>, governor: Governor)
    requires Sound(s) && (governor != Interactive ==> Nodes(s) == [])
    requires AllPossible(s, cs) && ReadsAlways(cs, governor)
    ensures Sound(RunCalls(s, cs))
    ensures governor != Interactive ==> Nodes(RunCalls(s, cs)) == []
    decreases |cs|
  {
    if cs == [] {
    } else {
      match cs[0] {
        case Turn(on, g, acq) => TurnIsSound(s, on, g, acq);
        case Elsewhere(e) => StackOfStep(s.locks, e, DISPLAY_STATE_HINT_ID);
      }
      DisplayLockSound(Next(s, cs[0]), cs[1..], governor);
    }
  }

  /** After the latest call turned the display on, no display lock is left. */
  lemma NoneWhenOn(s: Display, cs: seq<Call>, governor: Governor, acq: Acquisition)
    requires Sound(s) && (governor != Interactive ==> Nodes(s) == [])
    requires AllPossible(s, cs) && ReadsAlways(cs, governor)
    ensures Nodes(SetInteractive(RunCalls(s, cs), PRESENT, true, governor, acq)) == []
  {
    DisplayLockSound(s, cs, governor);
    TurnIsSound(RunCalls(s, cs), true, governor, acq);
  }

  /** A governor that changes between the calls leaks: off, on and off again leave two display locks. */
  lemma ChangingGovernorLeaks(start: Display, g: int, h: int)
    requires start == Display(Locks([], {}, [], []), false) && 0 < g < h
    ensures
      var cs := [Turn(false, Interactive, Granted(g, true)), Turn(true, Different, Refused),
                 Turn(false, Interactive, Granted(h, true))];
      AllPossible(start, cs) && |Nodes(RunCalls(start, cs))| == 2
  {
    var c1, c2, c3 := Turn(false, Interactive, Granted(g, true)), Turn(true, Different, Refused),
                      Turn(false, Interactive, Granted(h, true));
    var cs := [c1, c2, c3];
    var s1 := Next(start, c1);
    var s2 := Next(s1, c2);
    var s3 := Next(s2, c3);
    assert cs[1..] == [c2, c3] && [c2, c3][1..] == [c3] && [c3][1..] == [];
    assert AllPossible(s3, []) && AllPossible(s2, [c3]) && AllPossible(s1, [c2, c3]);
    assert RunCalls(s2, [c3]) == RunCalls(s3, []) && RunCalls(s1, [c2, c3]) == RunCalls(s2, [c3]);
    StackOfStep(start.locks, Perform(DISPLAY_STATE_HINT_ID, c1.acq), DISPLAY_STATE_HINT_ID);
    StackOfStep(s2.locks, Perform(DISPLAY_STATE_HINT_ID, c3.acq), DISPLAY_STATE_HINT_ID);
  }

  // ----- what the display did

  /** The display as it was turned, with the lock obtained when it went off. */
  datatype Panel = On | Off(lock: seq<int>)

  /** Under the interactive governor: turning it off from on takes a lock, if one is granted and recorded; turning it
      off again changes nothing. */
  function AfterCall(p: Panel, c: Call): Panel {
    match c
    case Elsewhere(_) => p
    case Turn(on, _, acq) =>
      if on then On
      else if p.Off? then p
      else Off(if acq.Granted? && acq.recorded then [acq.handle] else [])
  }

  function AfterCalls(p: Panel, cs: seq<Call>): Panel
    decreases |cs|
  {
    if cs == [] then p else AfterCalls(AfterCall(p, cs[0]), cs[1..])
  }

  /** The model's state shows that panel: the locks recorded for the display are the panel's. */
  predicate Shows(s: Display, p: Panel) {
    s.offSent == p.Off? && Stack(s.locks.list, 0x0C00) == if p.On? then [] else p.lock
  }

  lemma CallShows(s: Display, c: Call, p: Panel)
    requires Shows(s, p) && (c.Turn? ==> c.governor == Interactive) && Possible(s, c)
    requires p.Off? ==> |p.lock| <= 1
    ensures Shows(Next(s, c), AfterCall(p, c))
    ensures AfterCall(p, c).Off? ==> |AfterCall(p, c).lock| <= 1
  {
    hide Stack, Step;
    match c
    case Elsewhere(e) => StackOfStep(s.locks, e, DISPLAY_STATE_HINT_ID);
    case Turn(on, _, acq) =>
      StackOfStep(s.locks, Undo(DISPLAY_STATE_HINT_ID), DISPLAY_STATE_HINT_ID);
      StackOfStep(s.locks, Perform(DISPLAY_STATE_HINT_ID, acq), DISPLAY_STATE_HINT_ID);
  }

  /** Over every run under the interactive governor, with refused locks and failed allocations, the display lock is the
      one obtained when the display last went off, while it is off, and there is none while it is on. */
  lemma {:induction false} LockWhileOff(s: Display, cs: seq<Call>, p: Panel)
    requires Shows(s, p) && (p.Off? ==> |p.lock| <= 1)
    requires AllPossible(s, cs) && ReadsAlways(cs, Interactive)
    ensures Shows(RunCalls(s, cs), AfterCalls(p, cs))
    decreases |cs|
  {
    hide Shows, Next, Possible;
    if cs == [] {
    } else {
      CallShows(s, cs[0], p);
      LockWhileOff(Next(s, cs[0]), cs[1..], AfterCall(p, cs[0]));
    }
  }
}
