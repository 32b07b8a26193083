/** The lock bookkeeping of the power HAL: every lock taken for a hint is a node of the hint list. */
module PerfLocks {
  import opened HintList

  /** How an acquisition goes: refused by the library, or granted a handle that is then recorded in the list, or
      not, when there is no memory for it. */
  datatype Acquisition = Refused | Granted(handle: int, recorded: bool)

  /** The hint list with the library's account of its locks: those outstanding, and all ever acquired and released. */
  datatype Locks = Locks(list: seq<HintData>, held: set<int>, acquired: seq<int>, released: seq<int>)

  datatype Event = Perform(id: int, acq: Acquisition) | Undo(id: int)

  const EINVAL: int := 22
  const ENOMEM: int := 12

  function PerformResult(acq: Acquisition): int {
    match acq
    case Refused => -EINVAL
    case Granted(_, recorded) => if recorded then 0 else -ENOMEM
  }

  /** perform_hint_action and undo_hint_action, with the library present. */
  function Step(s: Locks, e: Event): Locks {
    match e
    case Perform(id, Refused) => s
    case Perform(id, Granted(h, true)) =>
      s.(list := [HintData(id, h)] + s.list, held := s.held + {h}, acquired := s.acquired + [h])
    case Perform(id, Granted(h, false)) =>
      s.(acquired := s.acquired + [h], released := s.released + [h])
    case Undo(id) =>
      var k := IndexOf(s.list, id);
      if k == |s.list| then s
      else s.(list := Without(s.list, k),
              held := s.held - {s.list[k].handle}, released := s.released + [s.list[k].handle])
  }

  /** perform_hint_action when locks cannot be released: one that cannot be recorded stays outstanding. */
  function StepWithoutRelease(s: Locks, id: int, acq: Acquisition): Locks {
    if acq.Granted? && !acq.recorded
    then s.(held := s.held + {acq.handle}, acquired := s.acquired + [acq.handle])
    else Step(s, Perform(id, acq))
  }

  /** Which calls of the library were found. */
  datatype Library = Library(acquires: bool, releases: bool)

  const PRESENT: Library := Library(true, true)

  /** perform_hint_action with any part of the library missing. */
  function Performed(s: Locks, lib: Library, id: int, acq: Acquisition): Locks {
    if !lib.acquires then s
    else if lib.releases then Step(s, Perform(id, acq))
    else StepWithoutRelease(s, id, acq)
  }

  /** What it returns: without a call to acquire locks there is nothing to fail. */
  function PerformedResult(lib: Library, acq: Acquisition): int {
    if lib.acquires then PerformResult(acq) else 0
  }

  /** undo_hint_action with any part of the library missing. */
  function Undone(s: Locks, lib: Library, id: int): Locks {
    if lib.releases then Step(s, Undo(id)) else s
  }

  lemma UndoKeepsAcquired(s: Locks, lib: Library, id: int)
    ensures Undone(s, lib, id).acquired == s.acquired
  {
  }

  /** The library grants only positive handles it never granted before. */
  predicate Allowed(s: Locks, e: Event) {
    e.Perform? && e.acq.Granted? ==> e.acq.handle > 0 && e.acq.handle !in s.acquired
  }

  function Run(s: Locks, es: seq<Event>): Locks
    decreases |es|
  {
    if es == [] then s else Run(Step(s, es[0]), es[1..])
  }

  predicate AllAllowed(s: Locks, es: seq<Event>)
    decreases |es|
  {
    es == [] || (Allowed(s, es[0]) && AllAllowed(Step(s, es[0]), es[1..]))
  }

  // ----- conservation

  function Handles(list: seq<HintData>): (r: seq<int>)
    ensures |r| == |list| && forall i :: 0 <= i < |r| ==> r[i] == list[i].handle
  {
    seq(|list|, i requires 0 <= i < |list| => list[i].handle)
  }

  predicate Distinct(s: seq<int>) {
    forall i, j :: 0 <= i < j < |s| ==> s[i] != s[j]
  }

  /** Outstanding locks are exactly the recorded ones, one node each, and what was acquired is what was released
      and what is recorded. */
  ghost predicate Conserved(s: Locks) {
    && (forall h :: h in s.held <==> h in Handles(s.list))
    && Distinct(Handles(s.list)) && Distinct(s.acquired)
    && multiset(s.acquired) == multiset(s.released) + multiset(Handles(s.list))
  }

  lemma DistinctExtends(s: seq<int>, h: int)
    requires Distinct(s) && h !in s
    ensures Distinct(s + [h]) && Distinct([h] + s)
  {
  }

  lemma RemovedAt(s: seq<int>, k: nat)
    requires k < |s|
    ensures multiset(s) == multiset(s[..k] + s[k + 1..]) + multiset{s[k]}
  {
    assert s == s[..k] + [s[k]] + s[k + 1..];
  }

  lemma HandlesWithout(list: seq<HintData>, k: nat)
    requires k < |list|
    ensures Handles(Without(list, k)) == Handles(list)[..k] + Handles(list)[k + 1..]
  {
  }

  lemma PerformConserves(s: Locks, id: int, h: int)
    requires Conserved(s) && h > 0 && h !in s.acquired
    ensures Conserved(Step(s, Perform(id, Granted(h, true))))
  {
    assert multiset(s.acquired)[h] == 0;
    assert h !in multiset(Handles(s.list));
    assert Handles([HintData(id, h)] + s.list) == [h] + Handles(s.list);
    DistinctExtends(Handles(s.list), h);
    DistinctExtends(s.acquired, h);
  }

  lemma RemovalKeepsDistinct(s: seq<int>, k: nat)
    requires k < |s| && Distinct(s)
    ensures var t := s[..k] + s[k + 1..];
      Distinct(t) && (forall h :: h in t <==> h in s && h != s[k])
  {
    var t := s[..k] + s[k + 1..];
    assert forall i :: 0 <= i < |t| ==> t[i] == s[if i < k then i else i + 1];
    forall h | h in s && h != s[k] ensures h in t {
      var i :| 0 <= i < |s| && s[i] == h;
      assert t[if i < k then i else i - 1] == h;
    }
  }

  lemma UndoConserves(s: Locks, id: int)
    requires Conserved(s)
    ensures Conserved(Step(s, Undo(id)))
  {
    var k := IndexOf(s.list, id);
    if k < |s.list| {
      HandlesWithout(s.list, k);
      RemovedAt(Handles(s.list), k);
      RemovalKeepsDistinct(Handles(s.list), k);
    }
  }

  /** Conservation over all runs of perform and undo calls. */
  lemma {:induction false} RunConserves(s: Locks, es: seq<Event>)
    requires Conserved(s) && AllAllowed(s, es)
    ensures Conserved(Run(s, es))
    decreases |es|
  {
    if es == [] {
    } else {
      if es[0].Undo? {
        UndoConserves(s, es[0].id);
      } else if es[0].acq.Granted? {
        if es[0].acq.recorded {
          PerformConserves(s, es[0].id, es[0].acq.handle);
        } else {
          DistinctExtends(s.acquired, es[0].acq.handle);
        }
      }
      RunConserves(Step(s, es[0]), es[1..]);
    }
  }

  /** Without a way to release locks a failed allocation is all that loses one. */
  lemma LostWithoutRelease(s: Locks, id: int, acq: Acquisition)
    requires Conserved(s) && Allowed(s, Perform(id, acq))
    ensures Conserved(StepWithoutRelease(s, id, acq)) <==> !(acq.Granted? && !acq.recorded)
  {
    if acq.Granted? {
      assert acq.handle !in multiset(s.acquired);
      if acq.recorded {
        PerformConserves(s, id, acq.handle);
      } else {
        assert acq.handle !in multiset(Handles(s.list));
      }
    }
  }

  lemma {:induction false} AtMostOnce(s: seq<int>, h: int)
    requires Distinct(s)
    ensures multiset(s)[h] <= 1
    decreases |s|
  {
    if s == [] {
    } else {
      var n := |s| - 1;
      AtMostOnce(s[..n], h);
      assert s == s[..n] + [s[n]];
      if s[n] == h {
        assert h !in s[..n];
        assert h !in multiset(s[..n]);
      }
    }
  }

  /** No handle is released twice, and none while it is still recorded. */
  lemma ReleasedOnce(s: Locks, h: int)
    requires Conserved(s)
    ensures multiset(s.released)[h] <= 1
    ensures h in s.released ==> h !in s.held && h in s.acquired
    ensures h in s.acquired ==> h in s.released || h in s.held
  {
    AtMostOnce(s.acquired, h);
    assert multiset(s.acquired)[h] == multiset(s.released)[h] + multiset(Handles(s.list))[h];
    assert h in multiset(s.released) <==> h in s.released;
    assert h in multiset(Handles(s.list)) <==> h in Handles(s.list);
    assert h in multiset(s.acquired) <==> h in s.acquired;
  }

  /** What perform_hint_action returns tells what became of the lock: zero for one that was recorded, first in the list,
      or for a library that takes none; -22 for one that was refused; -12 for one that could not be recorded, which was
      given back if it could be. */
  lemma ResultTells(s: Locks, lib: Library, id: int, acq: Acquisition)
    requires Conserved(s) && Allowed(s, Perform(id, acq))
    ensures var t, r := Performed(s, lib, id, acq), PerformedResult(lib, acq);
      && (r == 0 || r == -22 || r == -12)
      && (r == 0 <==> t.list != s.list || !lib.acquires)
      && (t.list != s.list ==> t.list == [HintData(id, acq.handle)] + s.list && acq.handle in t.held)
      && (r == -22 <==> lib.acquires && t == s)
      && (r == -12 ==> t.acquired == s.acquired + [acq.handle]
                       && (acq.handle in t.held <==> !lib.releases) && (acq.handle in t.released <==> lib.releases))
    ensures !lib.acquires ==> Performed(s, lib, id, acq) == s
    ensures !lib.releases ==> Undone(s, lib, id) == s
  {
    assert acq.Granted? ==> acq.handle !in multiset(s.acquired);
    assert acq.Granted? ==> acq.handle !in multiset(Handles(s.list));
    assert acq.Granted? ==> acq.handle !in multiset(s.released);
  }

  // ----- one stack per hint

  /** The handles recorded for one hint, newest first. */
  function Stack(list: seq<HintData>, id: int): seq<int> {
    if list == [] then []
    else if list[0].hintId == id then [list[0].handle] + Stack(list[1..], id)
    else Stack(list[1..], id)
  }

  lemma {:induction false} StackWithout(list: seq<HintData>, id: int, other: int)
    requires IndexOf(list, id) < |list|
    ensures Stack(list, id) != [] && Stack(list, id)[0] == list[IndexOf(list, id)].handle
    ensures Stack(Without(list, IndexOf(list, id)), other)
         == if other == id then Stack(list, id)[1..] else Stack(list, other)
  {
    var k := IndexOf(list, id);
    if k == 0 {
      assert Without(list, 0) == list[1..];
    } else {
      StackWithout(list[1..], id, other);
      assert Without(list, k)[0] == list[0] && Without(list, k)[1..] == Without(list[1..], k - 1);
    }
  }

  lemma {:induction false} StackEmpty(list: seq<HintData>, id: int)
    ensures Stack(list, id) == [] <==> IndexOf(list, id) == |list|
  {
    if list == [] {
    } else {
      StackEmpty(list[1..], id);
    }
  }

  /** What the calls for one hint alone do to a stack of handles. */
  function StackStep(stack: seq<int>, e: Event, id: int): seq<int> {
    if e.id != id then stack
    else match e
      case Perform(_, acq) => if acq.Granted? && acq.recorded then [acq.handle] + stack else stack
      case Undo(_) => if stack == [] then [] else stack[1..]
  }

  function StackRun(stack: seq<int>, es: seq<Event>, id: int): seq<int>
    decreases |es|
  {
    if es == [] then stack else StackRun(StackStep(stack, es[0], id), es[1..], id)
  }

  lemma StackOfStep(s: Locks, e: Event, id: int)
    ensures Stack(Step(s, e).list, id) == StackStep(Stack(s.list, id), e, id)
  {
    match e
    case Perform(i, acq) =>
      if acq.Granted? && acq.recorded {
        assert ([HintData(i, acq.handle)] + s.list)[1..] == s.list;
      }
    case Undo(i) =>
      StackEmpty(s.list, i);
      if IndexOf(s.list, i) < |s.list| {
        StackWithout(s.list, i, id);
      }
  }

  /** The one list behaves, over any run, as a stack per hint id: undo releases the newest lock of its id, and other
      ids are not disturbed. */
  lemma {:induction false} ListIsStacks(s: Locks, es: seq<Event>, id: int)
    ensures Stack(Run(s, es).list, id) == StackRun(Stack(s.list, id), es, id)
    decreases |es|
  {
    if es == [] {
    } else {
      StackOfStep(s, es[0], id);
      ListIsStacks(Step(s, es[0]), es[1..], id);
    }
  }

  // ----- the library and the hint calls

  /** The vendor library behind perf_lock_acq, perf_hint and perf_lock_rel, with an account of its handles. */
  class PerfLib {
    ghost var held: set<int>
    ghost var acquired: seq<int>
    ghost var released: seq<int>
    /** The hint a handle was taken for, where it was taken for one. */
    ghost var hints: map<int, int>
    /** The largest number of locks that were outstanding at one time. */
    ghost var most: nat
    var last: int

    ghost predicate Valid()
      reads this
    {
      0 <= last && (forall h :: h in acquired ==> 0 < h <= last) && (forall h :: h in held ==> h in acquired)
    }

    constructor ()
      ensures Valid() && held == {} && acquired == [] && released == [] && most == 0
    {
      held, acquired, released, hints, most, last := {}, [], [], map[], 0, 0;
    }

    /** Grants a positive handle never granted before, or refuses with -1. */
    method Acquire() returns (h: int)
      requires Valid()
      modifies this
      ensures Valid() && released == old(released) && hints == old(hints)
      ensures h == -1 || (h > 0 && h !in old(acquired))
      ensures h == -1 ==> held == old(held) && acquired == old(acquired)
      ensures h != -1 ==> held == old(held) + {h} && acquired == old(acquired) + [h]
      ensures most == if h == -1 || |held| <= old(most) then old(most) else |held|
    {
      if * {
        return -1;
      }
      last := last + 1;
      h := last;
      held, acquired := held + {h}, acquired + [h];
      most := if |held| <= most then most else |held|;
    }

    /** perf_hint: an acquisition on behalf of a vendor hint. */
    method AcquireHint(id: int) returns (h: int)
      requires Valid()
      modifies this
      ensures Valid() && released == old(released)
      ensures h == -1 || (h > 0 && h !in old(acquired))
      ensures h == -1 ==> held == old(held) && acquired == old(acquired) && hints == old(hints)
      ensures h != -1 ==> held == old(held) + {h} && acquired == old(acquired) + [h] && hints == old(hints)[h := id]
      ensures most == if h == -1 || |held| <= old(most) then old(most) else |held|
    {
      h := Acquire();
      if h != -1 {
        hints := hints[h := id];
      }
    }

    method Release(h: int) returns (r: int)
      requires Valid()
      modifies this
      ensures Valid() && acquired == old(acquired) && hints == old(hints) && most == old(most)
      ensures held == old(held) - {h} && released == old(released) + [h]
    {
      held, released := held - {h}, released + [h];
      r := 0;
    }
  }

  /** The static state of the HAL: the hint list, and which parts of the library were found. */
  class PowerHal {
    const list: NodeList
    const lib: PerfLib
    const loaded: bool
    const hasAcquire: bool
    const hasRelease: bool

    constructor (loaded: bool, hasAcquire: bool, hasRelease: bool)
      ensures Valid() && View() == Locks([], {}, [], [])
      ensures fresh(list) && fresh(list.spine) && fresh(lib)
      ensures this.loaded == loaded && this.hasAcquire == hasAcquire && this.hasRelease == hasRelease
    {
      list := new NodeList();
      lib := new PerfLib();
      this.loaded, this.hasAcquire, this.hasRelease := loaded, hasAcquire, hasRelease;
    }

    ghost predicate Valid()
      reads list, list.spine, lib
    {
      list.Valid() && lib.Valid()
    }

    ghost function View(): Locks
      requires list.spine != []
      reads list, lib
    {
      Locks(list.Contents(), lib.held, lib.acquired, lib.released)
    }

    function Found(): Library {
      Library(loaded && hasAcquire, loaded && hasRelease)
    }

    /** perform_hint_action. The flags say whether there is memory for the hint and for its node. */
    method PerformHintAction(id: int, hintMemory: bool, nodeMemory: bool) returns (r: int, ghost acq: Acquisition)
      requires Valid()
      modifies list, list.spine, lib
      ensures Valid() && fresh(set n | n in list.spine && n !in old(list.spine))
      ensures Allowed(old(View()), Perform(id, acq)) && (acq.Granted? ==> acq.recorded == (hintMemory && nodeMemory))
      ensures View() == Performed(old(View()), Found(), id, acq) && r == PerformedResult(Found(), acq)
    {
      acq := Refused;
      if loaded && hasAcquire {
        var lockHandle := lib.Acquire();
        if lockHandle == -1 {
          return -EINVAL, Refused;
        }
        if !hintMemory {
          if hasRelease {
            var _ := lib.Release(lockHandle);
          }
          return -ENOMEM, Granted(lockHandle, false);
        }
        var node := list.AddListNode(HintData(id, lockHandle), nodeMemory);
        if node == null {
          if hasRelease {
            var _ := lib.Release(lockHandle);
          }
          return -ENOMEM, Granted(lockHandle, false);
        }
        return 0, Granted(lockHandle, true);
      }
      return 0, Refused;
    }

    /** undo_hint_action: releases the newest lock of the hint and unlinks its node. */
    method UndoHintAction(id: int)
      requires Valid()
      modifies list, list.spine, lib
      ensures Valid() && fresh(set n | n in list.spine && n !in old(list.spine))
      ensures View() == Undone(old(View()), Found(), id)
    {
      if loaded {
        if hasRelease {
          ghost var k := IndexOf(list.Contents(), id);
          var node := list.FindNode(id);
          if node != null {
            var _ := lib.Release(node.data.handle);
            var _ := list.RemoveListNode(node, k);
          }
        }
      }
    }
  }
}
