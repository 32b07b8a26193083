/** Reference-counted hints: one lock per hint, shared by nested enables. */
module HintRefs {
  import opened PerfLocks

  /** AOSP's hint numbers come from hardware/power.h, which is not part of this model's source. */
  const POWER_HINT_VIDEO_ENCODE: int := 3
  const POWER_HINT_SUSTAINED_PERFORMANCE: int := 6
  const POWER_HINT_DISABLE_TOUCH: int := 9
  const NUM_HINTS: int := POWER_HINT_DISABLE_TOUCH + 1
  const AOSP_DELTA: int := 0x1200

  datatype HintHandle = HintHandle(handle: int, refCount: int)

  /** The slots of the counted hints, with the library's account. */
  datatype Refs = Refs(
    slots: seq<HintHandle>, held: set<int>, acquired: seq<int>, released: seq<int>, hints: map<int, int>)

  /** The hints that are counted: VR mode is not. */
  predicate Counted(hint: int) {
    hint == POWER_HINT_SUSTAINED_PERFORMANCE || hint == POWER_HINT_VIDEO_ENCODE
  }

  /** Enabling: the first user takes the lock, and every user is counted while there is one. */
  function Enable(s: Refs, hint: nat, got: int): Refs
    requires hint < |s.slots|
  {
    var slot := s.slots[hint];
    if slot.refCount == 0 then
      if got > 0
      then Refs(s.slots[hint := HintHandle(got, 1)], s.held + {got}, s.acquired + [got], s.released,
                s.hints[got := AOSP_DELTA + hint])
      else s.(slots := s.slots[hint := HintHandle(got, 0)])
    else if slot.handle > 0 then s.(slots := s.slots[hint := HintHandle(slot.handle, slot.refCount + 1)])
    else s
  }

  /** Disabling: the last user gives the lock back. */
  function Disable(s: Refs, hint: nat): Refs
    requires hint < |s.slots|
  {
    var slot := s.slots[hint];
    if slot.handle <= 0 then s
    else if slot.refCount == 1
    then s.(slots := s.slots[hint := HintHandle(0, 0)], held := s.held - {slot.handle},
            released := s.released + [slot.handle])
    else s.(slots := s.slots[hint := HintHandle(slot.handle, slot.refCount - 1)])
  }

  /** power_hint, for a hint that no override has handled. */
  function Hint(s: Refs, hint: int, enable: bool, got: int): Refs
    requires Counted(hint) ==> hint < |s.slots|
  {
    if !Counted(hint) then s else if enable then Enable(s, hint, got) else Disable(s, hint)
  }

  class HintCounts {
    const lib: PerfLib
    const present: bool
    const handles: array<HintHandle>

    constructor (lib: PerfLib, present: bool)
      ensures this.lib == lib && this.present == present && fresh(handles)
      ensures handles[..] == seq(NUM_HINTS, _ => HintHandle(0, 0))
    {
      this.lib, this.present := lib, present;
      handles := new HintHandle[NUM_HINTS](_ => HintHandle(0, 0));
    }

    /** There is a slot for every hint number. */
    ghost predicate Valid()
      reads lib
    {
      lib.Valid() && handles.Length == NUM_HINTS
    }

    ghost function View(): Refs
      reads lib, handles
    {
      Refs(handles[..], lib.held, lib.acquired, lib.released, lib.hints)
    }

    /** power_hint after the override declined, for any hint number; `got` is what the library answered, if it was
        asked. */
    method PowerHint(hint: int, enable: bool) returns (ghost got: int)
      requires Valid()
      modifies handles, lib
      ensures Valid() && (got > 0 ==> got !in old(lib.acquired))
      ensures View() == Hint(old(View()), hint, enable, got)
    {
      got := 0;
      if !Counted(hint) {
        return;
      }
      if enable {
        if handles[hint].refCount == 0 {
          var h := 0;
          if present {
            h := lib.AcquireHint(AOSP_DELTA + hint);
          }
          got := h;
          handles[hint] := handles[hint].(handle := h);
        }
        if handles[hint].handle > 0 {
          handles[hint] := handles[hint].(refCount := handles[hint].refCount + 1);
        }
      } else {
        if handles[hint].handle > 0 {
          handles[hint] := handles[hint].(refCount := handles[hint].refCount - 1);
          if handles[hint].refCount == 0 {
            var _ := lib.Release(handles[hint].handle);
            handles[hint] := handles[hint].(handle := 0);
          }
        }
      }
    }
  }

  // ----- all runs

  datatype Call = Call(hint: int, enable: bool, got: int)

  predicate Possible(s: Refs, c: Call) {
    |s.slots| == NUM_HINTS && (c.got > 0 ==> c.got !in s.acquired)
  }

  function Next(s: Refs, c: Call): Refs {
    if |s.slots| == NUM_HINTS then Hint(s, c.hint, c.enable, c.got) else s
  }

  function RunCalls(s: Refs, cs: seq<Call>): Refs
    decreases |cs|
  {
    if cs == [] then s else RunCalls(Next(s, cs[0]), cs[1..])
  }

  predicate AllPossible(s: Refs, cs: seq<Call>)
    decreases |cs|
  {
    cs == [] || (Possible(s, cs[0]) && AllPossible(Next(s, cs[0]), cs[1..]))
  }

  /** The lock of one slot. */
  ghost function One(slot: HintHandle): multiset<int> {
    if slot.handle > 0 then multiset{slot.handle} else multiset{}
  }

  /** The locks in the slots. */
  ghost function InUse(slots: seq<HintHandle>): multiset<int> {
    if slots == [] then multiset{} else One(slots[0]) + InUse(slots[1..])
  }

  /** A slot has a lock exactly while it has users. */
  predicate LockedWhileUsed(slots: seq<HintHandle>) {
    forall i :: 0 <= i < |slots| ==> slots[i].refCount >= 0 && (slots[i].handle > 0 <==> slots[i].refCount > 0)
  }

  /** The locks in use are those outstanding, each once, and what was acquired is what was released and what is in
      use. */
  ghost predicate Accounted(s: Refs) {
    && (forall h :: h in s.held <==> InUse(s.slots)[h] > 0)
    && Distinct(s.acquired)
    && multiset(s.acquired) == multiset(s.released) + InUse(s.slots)
  }

  ghost predicate Sound(s: Refs) {
    LockedWhileUsed(s.slots) && Accounted(s)
  }

  /** Changing one slot exchanges its handle among those in use. */
  lemma {:induction false} InUseUpdate(slots: seq<HintHandle>, i: nat, slot: HintHandle)
    requires i < |slots|
    ensures InUse(slots[i := slot]) + One(slots[i]) == InUse(slots) + One(slot)
  {
    hide One;
    var t := slots[i := slot];
    assert InUse(slots) == One(slots[0]) + InUse(slots[1..]);
    assert InUse(t) == One(t[0]) + InUse(t[1..]);
    if i == 0 {
      assert t[1..] == slots[1..];
    } else {
      InUseUpdate(slots[1..], i - 1, slot);
      assert t[1..] == slots[1..][i - 1 := slot];
      var u, v, w := InUse(t[1..]), InUse(slots[1..]), One(slots[0]);
      assert (w + u) + One(slots[i]) == w + (u + One(slots[i])) == w + (v + One(slot)) == (w + v) + One(slot);
    }
  }

  /** Distinct acquisitions are in use at most once. */
  lemma InUseOnce(s: Refs, h: int)
    requires Accounted(s)
    ensures InUse(s.slots)[h] <= 1
    ensures h !in s.acquired ==> InUse(s.slots)[h] == 0
  {
    AtMostOnce(s.acquired, h);
    assert multiset(s.acquired)[h] == multiset(s.released)[h] + InUse(s.slots)[h];
    assert h in multiset(s.acquired) <==> h in s.acquired;
  }

  /** The account after a slot without a lock got one. */
  lemma LockTaken(s: Refs, hint: nat, got: int)
    requires Accounted(s) && hint < |s.slots| && s.slots[hint].handle <= 0 && got > 0 && got !in s.acquired
    ensures Accounted(Refs(s.slots[hint := HintHandle(got, 1)], s.held + {got}, s.acquired + [got], s.released,
                           s.hints[got := AOSP_DELTA + hint]))
  {
    hide InUse;
    var slots := s.slots[hint := HintHandle(got, 1)];
    InUseUpdate(s.slots, hint, HintHandle(got, 1));
    assert InUse(slots) == InUse(s.slots) + multiset{got};
    DistinctExtends(s.acquired, got);
  }

  /** The account after a slot gave its lock back. */
  lemma LockReturned(s: Refs, hint: nat)
    requires Accounted(s) && hint < |s.slots| && s.slots[hint].handle > 0
    ensures var h := s.slots[hint].handle;
      Accounted(Refs(s.slots[hint := HintHandle(0, 0)], s.held - {h}, s.acquired, s.released + [h], s.hints))
  {
    hide InUse;
    var slots, h := s.slots[hint := HintHandle(0, 0)], s.slots[hint].handle;
    InUseUpdate(s.slots, hint, HintHandle(0, 0));
    assert InUse(slots) + multiset{h} == InUse(s.slots);
    InUseOnce(s, s.slots[hint].handle);
  }

  /** The account does not depend on the counts. */
  lemma LockKept(s: Refs, hint: nat, slot: HintHandle)
    requires Accounted(s) && hint < |s.slots| && One(slot) == One(s.slots[hint])
    ensures Accounted(s.(slots := s.slots[hint := slot]))
  {
    hide InUse;
    hide One;
    InUseUpdate(s.slots, hint, slot);
    var used := InUse(s.slots[hint := slot]);
    assert (used + One(slot)) - One(slot) == used;
    assert (InUse(s.slots) + One(slot)) - One(slot) == InUse(s.slots);
  }

  lemma NextSound(s: Refs, c: Call)
    requires Sound(s) && Possible(s, c)
    ensures Sound(Next(s, c)) && |Next(s, c).slots| == |s.slots|
  {
    hide Accounted;
    if !Counted(c.hint) {
    } else if c.enable {
      if s.slots[c.hint].refCount == 0 && c.got > 0 {
        LockTaken(s, c.hint, c.got);
      } else {
        LockKept(s, c.hint, Next(s, c).slots[c.hint]);
        assert Next(s, c) == s.(slots := s.slots[c.hint := Next(s, c).slots[c.hint]]);
      }
    } else if s.slots[c.hint].refCount == 1 {
      LockReturned(s, c.hint);
    } else {
      LockKept(s, c.hint, Next(s, c).slots[c.hint]);
      assert Next(s, c) == s.(slots := s.slots[c.hint := Next(s, c).slots[c.hint]]);
    }
  }

  /** Over every run the counted hints hold exactly the locks their users need, and every lock acquired is released
      or in use, once. */
  lemma {:induction false} CountsSound(s: Refs, cs: seq<Call>)
    requires Sound(s) && AllPossible(s, cs)
    ensures Sound(RunCalls(s, cs)) && |RunCalls(s, cs).slots| == |s.slots|
    decreases |cs|
  {
    hide Sound;
    hide Next;
    hide Possible;
    if cs == [] {
    } else {
      NextSound(s, cs[0]);
      CountsSound(Next(s, cs[0]), cs[1..]);
    }
  }

  // ----- the count is the number of users

  /** Video encoding and sustained performance, numbers 3 and 6, are the hints that have users. */
  function UsersAfter(n: nat, c: Call, hint: int): nat {
    if c.hint != hint || hint !in {3, 6} then n
    else if c.enable then (if n == 0 && c.got <= 0 then 0 else n + 1)
    else if n == 0 then 0 else n - 1
  }

  /** The users of one hint, counted apart from any lock: a refused first enable is no user, and a disable with no
      user does nothing. */
  function Users(n: nat, cs: seq<Call>, hint: int): nat
    decreases |cs|
  {
    if cs == [] then n else Users(UsersAfter(n, cs[0], hint), cs[1..], hint)
  }

  lemma NextUsers(s: Refs, c: Call, hint: nat)
    requires LockedWhileUsed(s.slots) && Possible(s, c) && hint < |s.slots|
    ensures |Next(s, c).slots| == |s.slots|
    ensures s.slots[hint].refCount >= 0
    ensures Next(s, c).slots[hint].refCount == UsersAfter(s.slots[hint].refCount, c, hint)
  {
  }

  /** The reference count of every hint is its number of users, over every run. */
  lemma {:induction false} CountIsUsers(s: Refs, cs: seq<Call>, hint: nat)
    requires Sound(s) && AllPossible(s, cs) && hint < |s.slots|
    ensures |RunCalls(s, cs).slots| == |s.slots|
    ensures RunCalls(s, cs).slots[hint].refCount == Users(s.slots[hint].refCount, cs, hint)
    decreases |cs|
  {
    hide Accounted;
    hide Next;
    hide UsersAfter;
    if cs == [] {
    } else {
      NextSound(s, cs[0]);
      NextUsers(s, cs[0], hint);
      CountIsUsers(Next(s, cs[0]), cs[1..], hint);
    }
  }

  /** Over every run a handle that was acquired is either in one slot, not yet released, or in no slot and released
      once; one that was not acquired is in neither. */
  lemma HandleLifecycle(s: Refs, cs: seq<Call>, h: int)
    requires Sound(s) && AllPossible(s, cs)
    ensures var t := RunCalls(s, cs);
      multiset(t.released)[h] + InUse(t.slots)[h] == if h in t.acquired then 1 else 0
  {
    hide RunCalls;
    hide AllPossible;
    CountsSound(s, cs);
    var t := RunCalls(s, cs);
    AtMostOnce(t.acquired, h);
    assert multiset(t.acquired)[h] == multiset(t.released)[h] + InUse(t.slots)[h];
    assert h in multiset(t.acquired) <==> h in t.acquired;
  }

  lemma {:induction false} NoneInUse(slots: seq<HintHandle>)
    requires forall i :: 0 <= i < |slots| ==> slots[i].handle <= 0
    ensures InUse(slots) == multiset{}
  {
    if slots == [] {
    } else {
      NoneInUse(slots[1..]);
    }
  }

  lemma SoundAtTheStart()
    ensures Sound(Refs(seq(NUM_HINTS, _ => HintHandle(0, 0)), {}, [], [], map[]))
  {
    NoneInUse(seq(NUM_HINTS, _ => HintHandle(0, 0)));
  }

  /** When the last users are gone every lock ever acquired has been released exactly once, and none is held. */
  lemma AllReturned(s: Refs, cs: seq<Call>)
    requires Sound(s) && AllPossible(s, cs)
    requires forall i: nat :: i < |s.slots| ==> Users(s.slots[i].refCount, cs, i) == 0
    ensures var t := RunCalls(s, cs);
      multiset(t.released) == multiset(t.acquired) && t.held == {}
  {
    hide RunCalls;
    hide AllPossible;
    hide Users;
    CountsSound(s, cs);
    var t := RunCalls(s, cs);
    forall i: nat | i < |t.slots| ensures t.slots[i].handle <= 0 {
      CountIsUsers(s, cs, i);
    }
    NoneInUse(t.slots);
    forall h ensures h !in t.held {
      assert h in t.held <==> InUse(t.slots)[h] > 0;
    }
  }

  // ----- which vendor hint a lock is for

  /** Every lock in a slot was taken for the vendor's number of that slot's hint. */
  predicate TakenForHint(s: Refs) {
    forall i: nat :: i < |s.slots| && s.slots[i].handle > 0 ==>
      s.slots[i].handle in s.acquired && s.slots[i].handle in s.hints && s.hints[s.slots[i].handle] == 0x1200 + i
  }

  lemma NextTakenForHint(s: Refs, c: Call)
    requires TakenForHint(s) && Possible(s, c)
    ensures TakenForHint(Next(s, c))
  {
  }

  /** Over every run the lock of a hint that has users was taken for the vendor's number of that hint. */
  lemma {:induction false} LocksForTheirHints(s: Refs, cs: seq<Call>)
    requires TakenForHint(s) && AllPossible(s, cs)
    ensures TakenForHint(RunCalls(s, cs))
    decreases |cs|
  {
    hide TakenForHint, Next, Possible;
    if cs == [] {
    } else {
      NextTakenForHint(s, cs[0]);
      LocksForTheirHints(Next(s, cs[0]), cs[1..]);
    }
  }

  lemma {:induction false} InUseSlot(slots: seq<HintHandle>, i: nat)
    requires i < |slots|
    ensures slots[i].handle > 0 ==> InUse(slots)[slots[i].handle] > 0
  {
    if i == 0 {
    } else {
      InUseSlot(slots[1..], i - 1);
    }
  }

  /** In every run from the start a hint has users exactly while its slot holds an outstanding lock for that hint. */
  lemma LockForUsers(cs: seq<Call>, hint: nat)
    requires AllPossible(Refs(seq(NUM_HINTS, _ => HintHandle(0, 0)), {}, [], [], map[]), cs) && hint < NUM_HINTS
    ensures var t := RunCalls(Refs(seq(NUM_HINTS, _ => HintHandle(0, 0)), {}, [], [], map[]), cs);
      && |t.slots| == NUM_HINTS
      && var h := t.slots[hint].handle;
         && (Users(0, cs, hint) > 0 <==> h > 0)
         && (h > 0 ==> h in t.held && h in t.hints && t.hints[h] == 0x1200 + hint)
  {
    hide RunCalls, AllPossible, Users;
    var s := Refs(seq(NUM_HINTS, _ => HintHandle(0, 0)), {}, [], [], map[]);
    SoundAtTheStart();
    CountsSound(s, cs);
    CountIsUsers(s, cs, hint);
    LocksForTheirHints(s, cs);
    InUseSlot(RunCalls(s, cs).slots, hint);
  }
}
