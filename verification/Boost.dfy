/** Interaction boosts: throttled by a clock read in whole microseconds. */
module Boost {
  import opened PerfLocks
  import opened Wrappers

  // ----- time spans

  datatype Timespec = Timespec(sec: int, nsec: int)

  const USINSEC: int := 1_000_000
  const NSINUS: int := 1_000

  /** The time in nanoseconds. */
  function Exact(t: Timespec): int {
    t.sec * 1_000_000_000 + t.nsec
  }

  /** C's division: toward zero, where Dafny's rounds down. */
  function Quotient(a: int, b: int): int
    requires b > 0
  {
    if a >= 0 then a / b else -(-a / b)
  }

  /** calc_timespan_us. */
  function CalcTimespanUs(start: Timespec, end: Timespec): int {
    (end.sec - start.sec) * USINSEC + Quotient(end.nsec - start.nsec, NSINUS)
  }

  /** The span is within one microsecond of the exact difference, either way. */
  lemma SpanIsClose(start: Timespec, end: Timespec)
    ensures -1000 < 1000 * CalcTimespanUs(start, end) - (Exact(end) - Exact(start)) < 1000
  {
    var d := end.nsec - start.nsec;
    assert -1000 < 1000 * Quotient(d, NSINUS) - d < 1000;
    assert 1000 * CalcTimespanUs(start, end) == 1_000_000_000 * (end.sec - start.sec) + 1000 * Quotient(d, NSINUS);
  }

  /** Spans between successive times, added up. */
  function Chained(times: seq<Timespec>): int
    requires times != []
  {
    if |times| == 1 then 0 else CalcTimespanUs(times[0], times[1]) + Chained(times[1..])
  }

  /** A chain of `n` spans drifts by less than `n` microseconds from the exact difference of its ends. */
  lemma {:induction false} ChainDrift(times: seq<Timespec>)
    requires |times| > 1
    ensures var n, exact := |times| - 1, Exact(times[|times| - 1]) - Exact(times[0]);
      -1000 * n < 1000 * Chained(times) - exact < 1000 * n
    decreases |times|
  {
    SpanIsClose(times[0], times[1]);
    if |times| > 2 {
      ChainDrift(times[1..]);
    } else {
      assert Chained(times[1..]) == 0;
    }
  }

  // ----- the throttle

  const MIN_INTERACTIVE_DURATION: int := 500
  const MAX_INTERACTIVE_DURATION: int := 5000

  /** An accepted boost: when and for how long. */
  datatype Accepted = Accepted(at: Timespec, duration: int)

  datatype Boosts = Boosts(
    previous: Timespec, previousDuration: int, handle: int, log: seq<Accepted>,
    held: set<int>, acquired: seq<int>, released: seq<int>)

  function Duration(data: Option<int>): (d: int)
    ensures MIN_INTERACTIVE_DURATION <= d <= MAX_INTERACTIVE_DURATION
    ensures data.Some? && MIN_INTERACTIVE_DURATION <= data.value <= MAX_INTERACTIVE_DURATION ==> d == data.value
    ensures data.Some? && data.value > MAX_INTERACTIVE_DURATION ==> d == MAX_INTERACTIVE_DURATION
    ensures data.None? || data.value < MIN_INTERACTIVE_DURATION ==> d == MIN_INTERACTIVE_DURATION
  {
    match data
    case None => MIN_INTERACTIVE_DURATION
    case Some(n) =>
      if n > MIN_INTERACTIVE_DURATION
      then if n > MAX_INTERACTIVE_DURATION then MAX_INTERACTIVE_DURATION else n
      else MIN_INTERACTIVE_DURATION
  }

  /** A request is turned down in any special mode, and when it is short and comes too early. */
  predicate Accepts(s: Boosts, normal: bool, data: Option<int>, now: Timespec) {
    normal && !(CalcTimespanUs(s.previous, now) < 250_000 && Duration(data) <= 750)
  }

  /** process_interaction_hint: an accepted request replaces the boost in force. */
  function Interact(s: Boosts, normal: bool, data: Option<int>, now: Timespec, got: int): Boosts {
    if !Accepts(s, normal, data, now) then s
    else
      var kept := if s.handle > 0 then s.held - {s.handle} else s.held;
      var given := if s.handle > 0 then s.released + [s.handle] else s.released;
      Boosts(now, Duration(data), got, s.log + [Accepted(now, Duration(data))],
             if got > 0 then kept + {got} else kept, if got > 0 then s.acquired + [got] else s.acquired, given)
  }

  /** A short request in the normal mode is accepted exactly from 250 ms on when the nanosecond parts did not go down,
      and from just over 249.999 ms on when they did: there the truncated quotient is negative and rounds up. */
  lemma ThrottleExact(s: Boosts, data: Option<int>, now: Timespec)
    requires Duration(data) <= 750
    ensures var ns := Exact(now) - Exact(s.previous);
      Accepts(s, true, data, now) <==> if now.nsec >= s.previous.nsec then ns >= 250_000_000 else ns > 249_999_000
  {
    var d, k := now.nsec - s.previous.nsec, now.sec - s.previous.sec;
    var q := Quotient(d, NSINUS);
    assert CalcTimespanUs(s.previous, now) == 1_000_000 * k + q;
    if d >= 0 {
      assert 1000 * q <= d < 1000 * q + 1000;
    } else {
      assert 1000 * q - 1000 < d <= 1000 * q;
    }
  }

  /** So a boost can come less than 250 ms after the one before it. */
  lemma EarlyBoost(s: Boosts)
    requires s.previous == Timespec(1, 750_000_900)
    ensures var now := Timespec(2, 0);
      Exact(now) - Exact(s.previous) < 250_000_000 && Accepts(s, true, None, now)
  {
    ThrottleExact(s, None, Timespec(2, 0));
  }

  class InteractionBoost {
    const lib: PerfLib
    const present: bool
    var previousBoostTimespec: Timespec
    var previousDuration: int
    var interactionHandle: int
    ghost var log: seq<Accepted>

    constructor (lib: PerfLib, present: bool)
      ensures this.lib == lib && this.present == present
      ensures previousBoostTimespec == Timespec(0, 0) && previousDuration == 0 && interactionHandle == -1 && log == []
    {
      this.lib, this.present := lib, present;
      previousBoostTimespec, previousDuration, interactionHandle, log := Timespec(0, 0), 0, -1, [];
    }

    ghost function View(): Boosts
      reads this, lib
    {
      Boosts(previousBoostTimespec, previousDuration, interactionHandle, log, lib.held, lib.acquired, lib.released)
    }

    /** The boost in force is the only lock outstanding, and there never were two. */
    ghost predicate Alone()
      reads this, lib
    {
      lib.held == (if interactionHandle > 0 then {interactionHandle} else {}) && lib.most <= 1
    }

    /** The end of an accepted request: the boost in force is given back, then a new one asked for. */
    method Replace() returns (got: int)
      requires lib.Valid() && (interactionHandle > 0 ==> present)
      modifies this`interactionHandle, lib
      ensures lib.Valid() && (interactionHandle > 0 ==> present)
      ensures interactionHandle == got && (got > 0 ==> got !in old(lib.acquired))
      ensures var h := old(interactionHandle);
        var kept := if h > 0 then old(lib.held) - {h} else old(lib.held);
        && lib.held == (if got > 0 then kept + {got} else kept)
        && lib.acquired == (if got > 0 then old(lib.acquired) + [got] else old(lib.acquired))
        && lib.released == if h > 0 then old(lib.released) + [h] else old(lib.released)
      ensures old(Alone()) ==> Alone()
    {
      if interactionHandle > 0 && present {
        var _ := lib.Release(interactionHandle);
      }
      var h := 0;
      if present {
        h := lib.Acquire();
      }
      interactionHandle := h;
      return h;
    }

    /** process_interaction_hint at the time `now`; `got` is what the library answered, if it was asked. */
    method ProcessInteractionHint(normal: bool, data: Option<int>, now: Timespec) returns (ghost got: int)
      requires lib.Valid() && (interactionHandle > 0 ==> present)
      modifies this, lib
      ensures lib.Valid() && (interactionHandle > 0 ==> present)
      ensures got > 0 ==> got !in old(lib.acquired)
      ensures View() == Interact(old(View()), normal, data, now, got)
      ensures old(Alone()) ==> Alone()
    {
      got := 0;
      var duration := MIN_INTERACTIVE_DURATION;
      if !normal {
        return;
      }
      if data.Some? {
        if data.value > duration {
          duration := if data.value > MAX_INTERACTIVE_DURATION then MAX_INTERACTIVE_DURATION else data.value;
        }
      }
      var elapsedTime := CalcTimespanUs(previousBoostTimespec, now);
      if elapsedTime < 250_000 && duration <= 750 {
        return;
      }
      previousBoostTimespec := now;
      previousDuration := duration;
      log := log + [Accepted(now, duration)];
      got := Replace();
    }
  }

  // ----- all runs

  datatype Call = Call(normal: bool, data: Option<int>, now: Timespec, got: int)

  function RunCalls(s: Boosts, cs: seq<Call>): Boosts
    decreases |cs|
  {
    if cs == [] then s
    else RunCalls(Interact(s, cs[0].normal, cs[0].data, cs[0].now, cs[0].got), cs[1..])
  }

  predicate AllPossible(s: Boosts, cs: seq<Call>)
    decreases |cs|
  {
    cs == [] || ((cs[0].got > 0 ==> cs[0].got !in s.acquired)
                 && AllPossible(Interact(s, cs[0].normal, cs[0].data, cs[0].now, cs[0].got), cs[1..]))
  }

  /** The time of the accepted boost before number `i`: the clock's zero before the first. */
  function Before(log: seq<Accepted>, i: nat): int
    requires i <= |log|
  {
    if i == 0 then 0 else Exact(log[i - 1].at)
  }

  /** Every short accepted boost comes more than 249999 microseconds after the accepted one before it. */
  ghost predicate Spaced(log: seq<Accepted>) {
    forall i {:trigger Before(log, i)} :: 0 <= i < |log| && log[i].duration <= 750 ==>
      Exact(log[i].at) - Before(log, i) > 249_999_000
  }

  /** The throttle remembers the time of the boost accepted last. */
  predicate Remembers(s: Boosts) {
    Exact(s.previous) == Before(s.log, |s.log|)
  }

  lemma InteractSpaced(s: Boosts, c: Call)
    requires Remembers(s) && Spaced(s.log)
    ensures var t := Interact(s, c.normal, c.data, c.now, c.got); Remembers(t) && Spaced(t.log)
  {
    SpanIsClose(s.previous, c.now);
    var t := Interact(s, c.normal, c.data, c.now, c.got);
    forall i | 0 <= i < |t.log| && t.log[i].duration <= 750
      ensures Exact(t.log[i].at) - Before(t.log, i) > 249_999_000
    {
      if i < |s.log| {
        assert t.log[i] == s.log[i] && Before(t.log, i) == Before(s.log, i);
      } else {
        assert Before(t.log, i) == Before(s.log, |s.log|);
      }
    }
  }

  /** Over every run, whatever the clock does, short boosts are spaced. */
  lemma {:induction false} BoostsSpaced(s: Boosts, cs: seq<Call>)
    requires Remembers(s) && Spaced(s.log)
    ensures Remembers(RunCalls(s, cs)) && Spaced(RunCalls(s, cs).log)
    decreases |cs|
  {
    if cs == [] {
    } else {
      InteractSpaced(s, cs[0]);
      BoostsSpaced(Interact(s, cs[0].normal, cs[0].data, cs[0].now, cs[0].got), cs[1..]);
    }
  }

  /** The short boosts among the accepted ones from `i` up to `j`. */
  function Short(log: seq<Accepted>, i: nat, j: nat): nat
    requires i <= j <= |log|
    decreases j
  {
    if i == j then 0 else Short(log, i, j - 1) + if log[j - 1].duration <= 750 then 1 else 0
  }

  predicate Monotone(log: seq<Accepted>) {
    forall i, j :: 0 <= i < j < |log| ==> Exact(log[i].at) <= Exact(log[j].at)
  }

  /** With a clock that does not run backwards, `k` short boosts take more than `k` times 249999 microseconds, with
      any number of long ones between them. */
  lemma {:induction false} ShortBoostsTakeTime(log: seq<Accepted>, i: nat, j: nat)
    requires Spaced(log) && Monotone(log) && i < j <= |log|
    ensures var k := Short(log, i + 1, j);
      Exact(log[j - 1].at) - Exact(log[i].at) >= 249_999_000 * k
      && (k > 0 ==> Exact(log[j - 1].at) - Exact(log[i].at) > 249_999_000 * k)
    decreases j
  {
    if i + 1 == j {
    } else {
      ShortBoostsTakeTime(log, i, j - 1);
      assert Before(log, j - 1) == Exact(log[j - 2].at);
    }
  }

  /** The calls read a clock that stands at `start` before the first and never runs backwards. */
  predicate ClockRuns(start: int, cs: seq<Call>)
    decreases |cs|
  {
    cs == [] || (start <= Exact(cs[0].now) && ClockRuns(Exact(cs[0].now), cs[1..]))
  }

  lemma {:induction false} MonotoneRun(s: Boosts, cs: seq<Call>, start: int)
    requires Remembers(s) && Monotone(s.log) && Exact(s.previous) <= start && ClockRuns(start, cs)
    ensures Monotone(RunCalls(s, cs).log)
    decreases |cs|
  {
    if cs == [] {
    } else {
      MonotoneRun(Interact(s, cs[0].normal, cs[0].data, cs[0].now, cs[0].got), cs[1..], Exact(cs[0].now));
    }
  }

  lemma ZeroTime()
    ensures Exact(Timespec(0, 0)) == 0
  {
  }

  lemma AtTheStart(s: Boosts)
    requires s.log == [] && s.previous == Timespec(0, 0)
    ensures Remembers(s) && Spaced(s.log) && Monotone(s.log) && Exact(s.previous) == 0
  {
    hide Exact;
    ZeroTime();
  }

  /** In every run from the start, on a clock that does not run backwards, the accepted boosts from number `i` to
      number `j` take more than 249999 microseconds for each short one among those after `i`. */
  lemma ThrottleHolds(s: Boosts, cs: seq<Call>, i: nat, j: nat)
    requires s.log == [] && s.previous == Timespec(0, 0) && ClockRuns(0, cs)
    requires i < j < |RunCalls(s, cs).log|
    ensures var log := RunCalls(s, cs).log; var k := Short(log, i + 1, j + 1);
      k > 0 ==> Exact(log[j].at) - Exact(log[i].at) > 249_999_000 * k
  {
    hide *;
    AtTheStart(s);
    BoostsSpaced(s, cs);
    MonotoneRun(s, cs, 0);
    ShortBoostsTakeTime(RunCalls(s, cs).log, i, j + 1);
  }

  /** At most one boost is outstanding, the recorded one. */
  ghost predicate Sound(s: Boosts) {
    && s.held == (if s.handle > 0 then {s.handle} else {})
    && Distinct(s.acquired)
    && multiset(s.acquired) == multiset(s.released) + (if s.handle > 0 then multiset{s.handle} else multiset{})
  }

  lemma SoundAtTheStart()
    ensures Sound(Boosts(Timespec(0, 0), 0, -1, [], {}, [], []))
  {
  }

  lemma InteractSound(s: Boosts, c: Call)
    requires Sound(s) && (c.got > 0 ==> c.got !in s.acquired)
    ensures Sound(Interact(s, c.normal, c.data, c.now, c.got))
  {
    hide Accepts;
    if c.got > 0 {
      DistinctExtends(s.acquired, c.got);
    }
  }

  lemma {:induction false} OneBoostAtMost(s: Boosts, cs: seq<Call>)
    requires Sound(s) && AllPossible(s, cs)
    ensures Sound(RunCalls(s, cs))
    decreases |cs|
  {
    if cs == [] {
    } else {
      InteractSound(s, cs[0]);
      OneBoostAtMost(Interact(s, cs[0].normal, cs[0].data, cs[0].now, cs[0].got), cs[1..]);
    }
  }

  // ----- what was asked for

  /** The request asks for more than 750 ms. */
  predicate Long(data: Option<int>) {
    data.Some? && data.value > 750
  }

  /** In nanoseconds, not in truncated microseconds: enough time has passed for a short boost. */
  predicate LateEnough(previous: Timespec, now: Timespec) {
    var ns := Exact(now) - Exact(previous);
    if now.nsec >= previous.nsec then ns >= 250_000_000 else ns > 249_999_000
  }

  /** A request is accepted exactly in the normal mode, when it is long or comes late enough. */
  lemma AcceptsExactly(s: Boosts, normal: bool, data: Option<int>, now: Timespec)
    ensures Accepts(s, normal, data, now) <==> normal && (Long(data) || LateEnough(s.previous, now))
  {
    if Duration(data) <= 750 {
      ThrottleExact(s, data, now);
    }
  }

  /** The boost in force as users see it: when the latest accepted request came, how long it was to be, and the lock
      that was granted for it, if any; and all accepted requests. */
  datatype InForce = InForce(since: Timespec, duration: int, lock: Option<int>, log: seq<Accepted>)

  /** A short request lasts from 500 to 750 ms. */
  function Shortened(data: Option<int>): int {
    if data.Some? && data.value > 500 then data.value else 500
  }

  /** Accepted requests replace the boost in force, whether or not a lock is granted; others change nothing. */
  function AfterCall(f: InForce, c: Call): InForce {
    if c.normal && (Long(c.data) || LateEnough(f.since, c.now)) then
      var duration := if Long(c.data) then if c.data.value > 5000 then 5000 else c.data.value else Shortened(c.data);
      InForce(c.now, duration, if c.got > 0 then Some(c.got) else None, f.log + [Accepted(c.now, duration)])
    else f
  }

  function AfterCalls(f: InForce, cs: seq<Call>): InForce
    decreases |cs|
  {
    if cs == [] then f else AfterCalls(AfterCall(f, cs[0]), cs[1..])
  }

  /** The model's state shows that boost: its lock is the one outstanding. */
  predicate Shows(s: Boosts, f: InForce) {
    && s.previous == f.since && s.previousDuration == f.duration && s.log == f.log
    && s.held == if f.lock.Some? then {f.lock.value} else {}
  }

  lemma CallShows(s: Boosts, c: Call, f: InForce)
    requires Sound(s) && Shows(s, f)
    ensures Shows(Interact(s, c.normal, c.data, c.now, c.got), AfterCall(f, c))
  {
    hide Accepts, LateEnough;
    AcceptsExactly(s, c.normal, c.data, c.now);
  }

  /** Over every run, on any clock, the lock that is held is the one granted for the latest accepted request. */
  lemma {:induction false} BoostAsAsked(s: Boosts, cs: seq<Call>, f: InForce)
    requires Sound(s) && AllPossible(s, cs) && Shows(s, f)
    ensures Shows(RunCalls(s, cs), AfterCalls(f, cs))
    decreases |cs|
  {
    hide Sound, Shows, Interact;
    if cs == [] {
    } else {
      InteractSound(s, cs[0]);
      CallShows(s, cs[0], f);
      BoostAsAsked(Interact(s, cs[0].normal, cs[0].data, cs[0].now, cs[0].got), cs[1..], AfterCall(f, cs[0]));
    }
  }
}
