/** The sustained-performance and VR modes: one vendor lock for the combination of modes in force. */
module PerfModes {
  import opened PerfLocks

  const NORMAL_MODE: int := 0
  const SUSTAINED_MODE: int := 1
  const VR_MODE: int := 2
  const VR_SUSTAINED_MODE: int := 3

  /** AOSP's numbers for the two hints come from hardware/power.h, which is not part of this model's source. */
  const SUSTAINED_PERF_HINT: int := 0x1200 + 6
  const VR_MODE_HINT: int := 0x1200 + 7
  const VR_MODE_SUSTAINED_PERF_HINT: int := 0x1301

  const HINT_HANDLED: int := 0
  const HINT_NONE: int := -1

  const PERF_MODES: seq<(int, int)> := [
    (SUSTAINED_MODE, SUSTAINED_PERF_HINT), (VR_MODE, VR_MODE_HINT), (VR_SUSTAINED_MODE, VR_MODE_SUSTAINED_PERF_HINT)]

  /** The vendor hint of a mode bitmask; none for the normal mode. */
  function HintIdOf(mode: int): int {
    if mode == SUSTAINED_MODE then SUSTAINED_PERF_HINT
    else if mode == VR_MODE then VR_MODE_HINT
    else if mode == VR_SUSTAINED_MODE then VR_MODE_SUSTAINED_PERF_HINT
    else 0
  }

  // ----- mode bits

  predicate IsMode(mode: int) {
    NORMAL_MODE <= mode <= VR_SUSTAINED_MODE
  }

  predicate IsBit(bit: int) {
    bit == SUSTAINED_MODE || bit == VR_MODE
  }

  /** mode & bit */
  predicate Has(mode: int, bit: int)
    requires IsBit(bit)
  {
    mode / bit % 2 == 1
  }

  /** mode | bit */
  function With(mode: int, bit: int): int
    requires IsBit(bit)
  {
    if Has(mode, bit) then mode else mode + bit
  }

  /** mode & ~bit */
  function Minus(mode: int, bit: int): int
    requires IsBit(bit)
  {
    if Has(mode, bit) then mode - bit else mode
  }

  // ----- the machine

  /** The recorded mode and handle, whether the latest switch failed, and the library's account. */
  datatype Modes = Modes(
    mode: int, handle: int, missed: bool, held: set<int>, acquired: seq<int>, released: seq<int>, hints: map<int, int>)

  /** The lock in force is given back. */
  function Dropped(s: Modes): Modes {
    if s.handle > 0
    then s.(handle := -1, held := s.held - {s.handle}, released := s.released + [s.handle])
    else s
  }

  /** switch_mode, where `got` is what the library answers if it is asked: at most zero for a refusal. */
  function Switch(s: Modes, mode: int, got: int): Modes {
    var d := Dropped(s);
    if HintIdOf(mode) == 0 then d.(missed := false)
    else if got > 0
    then d.(handle := got, missed := false, held := d.held + {got}, acquired := d.acquired + [got],
            hints := d.hints[got := HintIdOf(mode)])
    else d.(handle := got, missed := true)
  }

  /** process_perf_hint. */
  function Process(s: Modes, enable: bool, bit: int, got: int): Modes
    requires IsBit(bit)
  {
    if Has(s.mode, bit) == enable then s
    else
      var target := if enable then With(s.mode, bit) else Minus(s.mode, bit);
      var t := Switch(s, target, got);
      if t.missed then t else t.(mode := target)
  }

  function ProcessResult(s: Modes, enable: bool, bit: int, got: int): int
    requires IsBit(bit)
  {
    if Has(s.mode, bit) != enable && Process(s, enable, bit, got).missed then HINT_NONE else HINT_HANDLED
  }

  class PerfModeHints {
    const lib: PerfLib
    const present: bool
    var currentMode: int
    var perfdModeHandle: int
    ghost var missed: bool

    constructor (lib: PerfLib, present: bool)
      ensures this.lib == lib && this.present == present
      ensures currentMode == NORMAL_MODE && perfdModeHandle == -1 && !missed
    {
      this.lib, this.present := lib, present;
      currentMode, perfdModeHandle, missed := NORMAL_MODE, -1, false;
    }

    ghost function View(): Modes
      reads this, lib
    {
      Modes(currentMode, perfdModeHandle, missed, lib.held, lib.acquired, lib.released, lib.hints)
    }

    /** The mode lock is the only one outstanding, and there never were two. */
    ghost predicate Alone()
      reads this, lib
    {
      lib.held == (if perfdModeHandle > 0 then {perfdModeHandle} else {}) && lib.most <= 1
    }

    /** get_perfd_hint_id: looks the mode up in the table. */
    method GetPerfdHintId(mode: int) returns (id: int)
      ensures id == HintIdOf(mode)
    {
      for i := 0 to |PERF_MODES|
        invariant forall j :: 0 <= j < i ==> PERF_MODES[j].0 != mode
      {
        if PERF_MODES[i].0 == mode {
          return PERF_MODES[i].1;
        }
      }
      assert PERF_MODES[0].0 != mode && PERF_MODES[1].0 != mode && PERF_MODES[2].0 != mode;
      return 0;
    }

    /** perf_hint_enable with no duration: zero when the library is absent. */
    method PerfHintEnable(id: int) returns (h: int)
      requires lib.Valid()
      modifies lib
      ensures lib.Valid() && lib.released == old(lib.released)
      ensures h > 0 ==> h !in old(lib.acquired) && lib.held == old(lib.held) + {h}
                        && lib.acquired == old(lib.acquired) + [h] && lib.hints == old(lib.hints)[h := id]
      ensures h <= 0 ==> lib.held == old(lib.held) && lib.acquired == old(lib.acquired) && lib.hints == old(lib.hints)
      ensures lib.most == if h <= 0 || |lib.held| <= old(lib.most) then old(lib.most) else |lib.held|
    {
      h := 0;
      if present {
        h := lib.AcquireHint(id);
      }
    }

    /** switch_mode: gives back the lock in force, then takes the one of the new mode; there are never two. */
    method SwitchMode(mode: int) returns (r: int, ghost got: int)
      requires lib.Valid() && (perfdModeHandle > 0 ==> perfdModeHandle in lib.acquired)
      modifies this`perfdModeHandle, this`missed, lib
      ensures lib.Valid() && (got > 0 ==> got !in old(lib.acquired))
      ensures View() == Switch(old(View()), mode, got)
      ensures old(Alone()) ==> Alone()
      ensures r == if missed then -1 else 0
    {
      got := 0;
      missed := false;
      if perfdModeHandle > 0 {
        var _ := lib.Release(perfdModeHandle);
        perfdModeHandle := -1;
      }
      var hintId := GetPerfdHintId(mode);
      if hintId != 0 {
        perfdModeHandle := PerfHintEnable(hintId);
        got := perfdModeHandle;
        if perfdModeHandle <= 0 {
          missed := true;
          return -1, got;
        }
      }
      return 0, got;
    }

    /** process_perf_hint: a mode is recorded only when its lock was obtained. */
    method ProcessPerfHint(enable: bool, bit: int) returns (r: int, ghost got: int)
      requires IsBit(bit) && lib.Valid() && (perfdModeHandle > 0 ==> perfdModeHandle in lib.acquired)
      modifies this, lib
      ensures lib.Valid() && (got > 0 ==> got !in old(lib.acquired))
      ensures View() == Process(old(View()), enable, bit, got)
      ensures r == ProcessResult(old(View()), enable, bit, got)
      ensures old(Alone()) ==> Alone()
    {
      got := 0;
      if enable {
        if Has(currentMode, bit) {
          return HINT_HANDLED, 0;
        }
        r, got := SwitchMode(With(currentMode, bit));
        if r != 0 {
          return HINT_NONE, got;
        }
        currentMode := With(currentMode, bit);
      } else {
        if !Has(currentMode, bit) {
          return HINT_HANDLED, 0;
        }
        r, got := SwitchMode(Minus(currentMode, bit));
        if r != 0 {
          return HINT_NONE, got;
        }
        currentMode := Minus(currentMode, bit);
      }
      return HINT_HANDLED, got;
    }
  }

  // ----- all runs

  datatype Call = Call(enable: bool, bit: int, got: int)

  predicate Possible(s: Modes, c: Call) {
    IsBit(c.bit) && (c.got > 0 ==> c.got !in s.acquired)
  }

  function RunCalls(s: Modes, cs: seq<Call>): Modes
    requires forall i :: 0 <= i < |cs| ==> IsBit(cs[i].bit)
    decreases |cs|
  {
    if cs == [] then s else RunCalls(Process(s, cs[0].enable, cs[0].bit, cs[0].got), cs[1..])
  }

  predicate AllPossible(s: Modes, cs: seq<Call>)
    decreases |cs|
  {
    cs == [] || (Possible(s, cs[0]) && AllPossible(Process(s, cs[0].enable, cs[0].bit, cs[0].got), cs[1..]))
  }

  lemma {:induction false} PossibleBits(s: Modes, cs: seq<Call>)
    requires AllPossible(s, cs)
    ensures forall i :: 0 <= i < |cs| ==> IsBit(cs[i].bit)
    decreases |cs|
  {
    if cs == [] {
    } else {
      PossibleBits(Process(s, cs[0].enable, cs[0].bit, cs[0].got), cs[1..]);
    }
  }

  /** The lock in force, if any, is the recorded one and the only one outstanding, and was taken for the recorded
      modes; and one is in force exactly when some mode is and the latest switch did not fail. */
  ghost predicate Sound(s: Modes) {
    && IsMode(s.mode)
    && s.held == (if s.handle > 0 then {s.handle} else {})
    && (s.handle > 0 <==> s.mode != NORMAL_MODE && !s.missed)
    && (s.handle > 0 ==> s.handle in s.hints && s.hints[s.handle] == HintIdOf(s.mode))
    && Distinct(s.acquired)
    && multiset(s.acquired) == multiset(s.released) + (if s.handle > 0 then multiset{s.handle} else multiset{})
  }

  lemma DroppedConserves(s: Modes)
    requires Sound(s)
    ensures var d := Dropped(s);
      d.held == {} && d.handle <= 0 && d.acquired == s.acquired && multiset(d.acquired) == multiset(d.released)
  {
  }

  /** What a switch to another set of modes leaves; a failed one leaves the modes recorded before. */
  lemma SwitchSound(s: Modes, mode: int, got: int)
    requires Sound(s) && IsMode(mode) && (got > 0 ==> got !in s.acquired)
    ensures var t := Switch(s, mode, got); Sound(if t.missed then t else t.(mode := mode))
  {
    DroppedConserves(s);
    if got > 0 {
      DistinctExtends(s.acquired, got);
    }
  }

  lemma Bits(mode: int, bit: int)
    requires IsMode(mode) && IsBit(bit)
    ensures IsMode(With(mode, bit)) && IsMode(Minus(mode, bit))
    ensures Has(With(mode, bit), bit) && !Has(Minus(mode, bit), bit)
    ensures forall b :: IsBit(b) && b != bit ==> Has(With(mode, bit), b) == Has(mode, b) == Has(Minus(mode, bit), b)
  {
  }

  lemma ProcessSound(s: Modes, c: Call)
    requires Sound(s) && Possible(s, c)
    ensures Sound(Process(s, c.enable, c.bit, c.got))
  {
    assert IsMode(s.mode);
    hide Sound, Switch, With, Minus;
    Bits(s.mode, c.bit);
    SwitchSound(s, if c.enable then With(s.mode, c.bit) else Minus(s.mode, c.bit), c.got);
  }

  lemma SoundAtTheStart()
    ensures Sound(Modes(NORMAL_MODE, -1, false, {}, [], [], map[]))
  {
  }

  /** The mode lock over every run, failing acquisitions included. */
  lemma {:induction false} ModeLockSound(s: Modes, cs: seq<Call>)
    requires Sound(s) && AllPossible(s, cs)
    ensures forall i :: 0 <= i < |cs| ==> IsBit(cs[i].bit)
    ensures Sound(RunCalls(s, cs))
    decreases |cs|
  {
    PossibleBits(s, cs);
    if cs == [] {
    } else {
      ProcessSound(s, cs[0]);
      ModeLockSound(Process(s, cs[0].enable, cs[0].bit, cs[0].got), cs[1..]);
    }
  }

  /** When no acquisition fails, a lock is held exactly when the mode is not normal. */
  lemma {:induction false} HeldWhenNotNormal(s: Modes, cs: seq<Call>)
    requires Sound(s) && !s.missed && AllPossible(s, cs)
    requires forall i :: 0 <= i < |cs| ==> cs[i].got > 0
    ensures forall i :: 0 <= i < |cs| ==> IsBit(cs[i].bit)
    ensures var t := RunCalls(s, cs); !t.missed && (t.handle > 0 <==> t.mode != NORMAL_MODE)
    decreases |cs|
  {
    PossibleBits(s, cs);
    if cs == [] {
    } else {
      ProcessSound(s, cs[0]);
      HeldWhenNotNormal(Process(s, cs[0].enable, cs[0].bit, cs[0].got), cs[1..]);
    }
  }

  // ----- what was asked for

  /** The two modes as users see them, kept apart from masks, handles and the library. */
  datatype Wishes = Wishes(sustained: bool, vr: bool)

  /** The request granted. */
  function Wanted(w: Wishes, c: Call): Wishes {
    if c.bit == 1 then w.(sustained := c.enable) else w.(vr := c.enable)
  }

  /** A request that would change something is refused when a mode would be on and the library gives no lock for it. */
  predicate RefusedTo(w: Wishes, c: Call) {
    Wanted(w, c) != w && (Wanted(w, c).sustained || Wanted(w, c).vr) && c.got <= 0
  }

  /** A refused request leaves both modes as they were. */
  function AfterCall(w: Wishes, c: Call): Wishes {
    if RefusedTo(w, c) then w else Wanted(w, c)
  }

  function AfterCalls(w: Wishes, cs: seq<Call>): Wishes
    decreases |cs|
  {
    if cs == [] then w else AfterCalls(AfterCall(w, cs[0]), cs[1..])
  }

  function Mask(w: Wishes): int {
    (if w.sustained then 1 else 0) + (if w.vr then 2 else 0)
  }

  /** The vendor's hint for the modes that are on. */
  function VendorHint(w: Wishes): int
    requires w.sustained || w.vr
  {
    if w.sustained && w.vr then 0x1301 else if w.vr then 0x1207 else 0x1206
  }

  /** One request: the mode afterwards, and what the call returns. */
  lemma CallGivesMode(s: Modes, c: Call, w: Wishes)
    requires IsBit(c.bit) && s.mode == Mask(w)
    ensures Process(s, c.enable, c.bit, c.got).mode == Mask(AfterCall(w, c))
    ensures ProcessResult(s, c.enable, c.bit, c.got) == if RefusedTo(w, c) then -1 else 0
  {
  }

  /** Over every run, refused requests included, the mode in force is the one asked for, and a lock that is held was
      taken for the vendor's hint of exactly those modes. */
  lemma {:induction false} ModeAsAsked(s: Modes, cs: seq<Call>, w: Wishes)
    requires Sound(s) && AllPossible(s, cs) && s.mode == Mask(w)
    ensures forall i :: 0 <= i < |cs| ==> IsBit(cs[i].bit)
    ensures var t, v := RunCalls(s, cs), AfterCalls(w, cs);
      && t.mode == Mask(v)
      && (t.handle > 0 ==>
           (v.sustained || v.vr) && t.handle in t.hints && t.hints[t.handle] == VendorHint(v) && t.held == {t.handle})
    decreases |cs|
  {
    PossibleBits(s, cs);
    if cs == [] {
    } else {
      ProcessSound(s, cs[0]);
      CallGivesMode(s, cs[0], w);
      ModeAsAsked(Process(s, cs[0].enable, cs[0].bit, cs[0].got), cs[1..], AfterCall(w, cs[0]));
    }
  }

  /** What the latest request for the bit asked for. */
  function LatestFor(bit: int, cs: seq<Call>, before: bool): bool
    decreases |cs|
  {
    if cs == [] then before
    else LatestFor(bit, cs[1..], if cs[0].bit == bit then cs[0].enable else before)
  }

  lemma {:induction false} LatestDecides(cs: seq<Call>, w: Wishes)
    requires forall i :: 0 <= i < |cs| ==> IsBit(cs[i].bit) && cs[i].got > 0
    ensures AfterCalls(w, cs).sustained == LatestFor(1, cs, w.sustained)
    ensures AfterCalls(w, cs).vr == LatestFor(2, cs, w.vr)
    decreases |cs|
  {
    if cs == [] {
    } else {
      LatestDecides(cs[1..], AfterCall(w, cs[0]));
    }
  }

  /** When no acquisition fails, a bit is in the mode exactly if the latest request for it was an enable, and a lock is
      held exactly if some mode is on. */
  lemma LatestRequestDecides(s: Modes, cs: seq<Call>, w: Wishes)
    requires Sound(s) && !s.missed && AllPossible(s, cs) && s.mode == Mask(w)
    requires forall i :: 0 <= i < |cs| ==> cs[i].got > 0
    ensures forall i :: 0 <= i < |cs| ==> IsBit(cs[i].bit)
    ensures var t, sustained, vr := RunCalls(s, cs), LatestFor(1, cs, w.sustained), LatestFor(2, cs, w.vr);
      && t.mode == (if sustained then 1 else 0) + (if vr then 2 else 0)
      && (t.handle > 0 <==> sustained || vr)
  {
    ModeAsAsked(s, cs, w);
    LatestDecides(cs, w);
    HeldWhenNotNormal(s, cs);
  }
}
