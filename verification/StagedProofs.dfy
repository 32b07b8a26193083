/** Every run of the staged update, cut anywhere: the phases the disk can be in, and what holds in all of them. */
module StagedProofs {
  import opened Bytes
  import opened Crc32
  import opened Header
  import opened HeaderProofs
  import opened Entries
  import opened Disk
  import opened StagedPlan
  import opened Wrappers

  /** The array that boots the backup partitions. */
  function Swapped(base: Disk, ufs: bool): seq<byte>
    requires Partitioned(base)
  {
    ChainArray(base, BackupBoot, ufs)
  }

  // ----- phases

  /** All that the update ever changes: the two signatures, and the secondary's array CRC and array. */
  datatype Phase = Phase(prim: bool, second: bool, crc: word, arr: seq<byte>)

  /** `i` is a byte of one of the three regions the update writes. */
  predicate Rewritten(base: Disk, i: int)
    requires Sized(base)
  {
    || base.blk <= i < 2 * base.blk
    || |base.bytes| - base.blk <= i
    || ArrayOffset(base, Secondary) <= i < ArrayOffset(base, Secondary) + ArrayLength(base, Secondary)
  }

  ghost predicate Untouched(base: Disk, d: Disk)
    requires Sized(base)
  {
    && d.blk == base.blk && |d.bytes| == |base.bytes|
    && forall i :: 0 <= i < |base.bytes| && !Rewritten(base, i) ==> d.bytes[i] == base.bytes[i]
  }

  /** The disk `d` is `base` in phase `s`. */
  ghost predicate Is(d: Disk, base: Disk, s: Phase)
    requires Partitioned(base)
  {
    && Partitioned(d) && Untouched(base, d)
    && ArrayOffset(d, Secondary) == ArrayOffset(base, Secondary)
    && HeaderOf(d, Primary) == Form(HeaderOf(base, Primary), s.prim, ArrayCrc(HeaderOf(base, Primary)))
    && HeaderOf(d, Secondary) == Form(HeaderOf(base, Secondary), s.second, s.crc)
    && ArrayOf(d, Primary) == ArrayOf(base, Primary)
    && ArrayOf(d, Secondary) == s.arr
  }

  /** A phase that still boots: once the primary's signature is cleared, the secondary is complete and swapped. */
  ghost predicate Safe(base: Disk, ufs: bool, s: Phase)
    requires Partitioned(base)
  {
    !s.prim ==>
      && s.second && BackupPresent(base, ufs)
      && s.arr == Swapped(base, ufs) && s.crc == Crc(Swapped(base, ufs))
  }

  function Start(base: Disk): Phase
    requires Partitioned(base)
  {
    Phase(true, true, ArrayCrc(HeaderOf(base, Secondary)), ArrayOf(base, Secondary))
  }

  lemma StartIs(base: Disk)
    requires InSync(base)
    ensures Is(base, base, Start(base))
  {
    FormOfGood(HeaderOf(base, Primary));
    FormOfGood(HeaderOf(base, Secondary));
  }

  lemma HeaderRegions(base: Disk, d: Disk)
    requires Sized(base) && Sized(d) && d.blk == base.blk && |d.bytes| == |base.bytes|
    ensures Read(d.bytes, base.blk, base.blk) == HeaderOf(d, Primary)
    ensures Read(d.bytes, |base.bytes| - base.blk, base.blk) == HeaderOf(d, Secondary)
  {
  }

  lemma PhaseRegions(base: Disk, d: Disk, s: Phase)
    requires Partitioned(base) && Is(d, base, s)
    ensures ArrayLength(d, Secondary) == ArrayLength(base, Secondary)
    ensures Read(d.bytes, ArrayOffset(base, Secondary), ArrayLength(base, Secondary)) == s.arr
  {
    FormShape(HeaderOf(base, Secondary), s.second, s.crc);
    GeometryFields(HeaderOf(base, Secondary), HeaderOf(d, Secondary), base.blk);
  }

  lemma SameBytes(s: seq<byte>, t: seq<byte>, p: nat, n: nat)
    requires p + n <= |s| && p + n <= |t| && Read(s, p, n) == Read(t, p, n)
    ensures forall i :: p <= i < p + n ==> s[i] == t[i]
  {
    ReadIsSlice(s, p, n);
    ReadIsSlice(t, p, n);
    forall i | p <= i < p + n ensures s[i] == t[i] {
      assert s[p..p + n][i - p] == t[p..p + n][i - p];
    }
  }

  lemma SameRegions(base: Disk, d: Disk, e: Disk)
    requires Partitioned(base) && Untouched(base, d) && Untouched(base, e)
    requires Read(d.bytes, base.blk, base.blk) == Read(e.bytes, base.blk, base.blk)
    requires Read(d.bytes, |base.bytes| - base.blk, base.blk) == Read(e.bytes, |base.bytes| - base.blk, base.blk)
    requires Read(d.bytes, ArrayOffset(base, Secondary), ArrayLength(base, Secondary))
          == Read(e.bytes, ArrayOffset(base, Secondary), ArrayLength(base, Secondary))
    ensures d == e
  {
    SameBytes(d.bytes, e.bytes, base.blk, base.blk);
    SameBytes(d.bytes, e.bytes, |base.bytes| - base.blk, base.blk);
    SameBytes(d.bytes, e.bytes, ArrayOffset(base, Secondary), ArrayLength(base, Secondary));
    assert forall i :: 0 <= i < |base.bytes| ==> d.bytes[i] == e.bytes[i];
  }

  /** A disk is determined by its phase. */
  lemma PhaseDetermines(base: Disk, d: Disk, e: Disk, s: Phase)
    requires Partitioned(base) && Is(d, base, s) && Is(e, base, s)
    ensures d == e
  {
    HeaderRegions(base, d);
    HeaderRegions(base, e);
    PhaseRegions(base, d, s);
    PhaseRegions(base, e, s);
    SameRegions(base, d, e);
  }

  // ----- what a phase looks like to the update and to a reader

  lemma PhaseIsPartitioned(d: Disk, base: Disk, s: Phase)
    requires InSync(base) && Is(d, base, s)
    ensures Partitioned(d) && Partitioned(base) && Sized(d) && ArrayFits(d, Primary)
  {
  }

  lemma PhaseHeaders(d: Disk, base: Disk, s: Phase)
    requires InSync(base) && Is(d, base, s)
    ensures State(HeaderOf(d, Primary)) == if s.prim then Ok else BadSignature
    ensures State(HeaderOf(d, Secondary)) == if s.second then Ok else BadSignature
    ensures SameGeometry(HeaderOf(base, Primary), HeaderOf(d, Primary))
    ensures SameGeometry(HeaderOf(base, Secondary), HeaderOf(d, Secondary))
    ensures ArrayCrc(HeaderOf(d, Primary)) == ArrayCrc(HeaderOf(base, Primary))
    ensures ArrayCrc(HeaderOf(d, Secondary)) == s.crc
  {
    FormShape(HeaderOf(base, Primary), s.prim, ArrayCrc(HeaderOf(base, Primary)));
    FormShape(HeaderOf(base, Secondary), s.second, s.crc);
  }

  lemma PhaseFields(d: Disk, base: Disk, s: Phase)
    requires InSync(base) && Is(d, base, s)
    ensures EntrySize(HeaderOf(d, Primary)) == EntrySize(HeaderOf(base, Primary))
    ensures OwnLba(HeaderOf(d, Primary)) == OwnLba(HeaderOf(base, Primary))
    ensures OwnLba(HeaderOf(d, Secondary)) == OwnLba(HeaderOf(base, Secondary))
    ensures ArrayLength(d, Secondary) == ArrayLength(base, Secondary)
  {
    PhaseHeaders(d, base, s);
    GeometryFields(HeaderOf(base, Primary), HeaderOf(d, Primary), base.blk);
    GeometryFields(HeaderOf(base, Secondary), HeaderOf(d, Secondary), base.blk);
  }

  /** What gpt2_set_boot_chain computes is the same in every phase: it starts from the primary array. */
  lemma PhaseChain(d: Disk, base: Disk, s: Phase, ufs: bool)
    requires InSync(base) && Is(d, base, s)
    ensures ArrayCrc(HeaderOf(d, Primary)) == Crc(ArrayOf(d, Primary))
    ensures ChainArray(d, BackupBoot, ufs) == Swapped(base, ufs)
    ensures ChainArray(d, NormalBoot, ufs) == ArrayOf(base, Primary)
    ensures BackupPresent(d, ufs) == BackupPresent(base, ufs)
  {
    hide Crc, Form, State, SwapAll, HasBackup;
    PhaseHeaders(d, base, s);
    PhaseFields(d, base, s);
  }

  /** A reader finds the original partitions while the primary signature stands, and the backup ones when not. */
  lemma PhaseBoots(d: Disk, base: Disk, s: Phase, ufs: bool)
    requires InSync(base) && Is(d, base, s) && Safe(base, ufs, s)
    ensures Valid(d, Primary) <==> s.prim
    ensures !s.prim ==> Valid(d, Secondary) && BackupPresent(base, ufs)
    ensures Boot(d) == Some(if s.prim then ArrayOf(base, Primary) else Swapped(base, ufs))
  {
    PhaseHeaders(d, base, s);
    PhaseFields(d, base, s);
  }

  /** The stage a phase is at. */
  function StageOf(s: Phase): Option<int> {
    if s.prim && s.second then Some(UPDATE_MAIN)
    else if s.second then Some(UPDATE_BACKUP)
    else if s.prim then Some(UPDATE_FINALIZE)
    else None
  }

  lemma SafeHasStage(base: Disk, ufs: bool, t: Phase)
    requires Partitioned(base) && Safe(base, ufs, t)
    ensures StageOf(t).Some?
  {
  }

  lemma PhaseStage(d: Disk, base: Disk, s: Phase)
    requires InSync(base) && Is(d, base, s)
    ensures Preparable(d) && DiskStage(d) == StageOf(s)
  {
    hide Form;
    hide State;
    hide Valid;
    PhaseHeaders(d, base, s);
  }

  // ----- how writes move between phases

  lemma HeaderWriteStaysInside(base: Disk, d: Disk, gpt: Instance, h: seq<byte>)
    requires Sized(base) && Untouched(base, d) && |h| == d.blk
    ensures Untouched(base, Apply(d, HeaderWrite(d, gpt, h)))
  {
  }

  lemma ArrayWriteStaysInside(base: Disk, d: Disk, e: Disk)
    requires Sized(base) && Untouched(base, d) && SameOutside(d, Secondary, e)
    requires ArrayOffset(d, Secondary) == ArrayOffset(base, Secondary)
    requires ArrayLength(d, Secondary) == ArrayLength(base, Secondary)
    ensures Untouched(base, e)
  {
  }

  lemma PrimaryForm(base: Disk, was: bool, good: bool)
    requires InSync(base)
    ensures WellFormed(Form(HeaderOf(base, Primary), was, ArrayCrc(HeaderOf(base, Primary))))
    ensures SetState(Form(HeaderOf(base, Primary), was, ArrayCrc(HeaderOf(base, Primary))), good)
         == Form(HeaderOf(base, Primary), good, ArrayCrc(HeaderOf(base, Primary)))
  {
    FormSetState(HeaderOf(base, Primary), was, good, ArrayCrc(HeaderOf(base, Primary)));
  }

  /** gpt_set_state flips one signature of the phase. */
  lemma PrimaryStateMoves(d: Disk, base: Disk, s: Phase, good: bool)
    requires InSync(base) && Is(d, base, s)
    ensures Is(Apply(d, StateWrite(d, Primary, good)), base, s.(prim := good))
  {
    var h := SetState(HeaderOf(d, Primary), good);
    SetThenGet(HeaderOf(d, Primary), good);
    HeaderWritten(d, Primary, h);
    HeaderWriteStaysInside(base, d, Primary, h);
    PrimaryForm(base, s.prim, good);
  }

  lemma SecondaryStateMoves(d: Disk, base: Disk, s: Phase, good: bool)
    requires InSync(base) && Is(d, base, s)
    ensures Is(Apply(d, StateWrite(d, Secondary, good)), base, s.(second := good))
  {
    var h := SetState(HeaderOf(d, Secondary), good);
    SetThenGet(HeaderOf(d, Secondary), good);
    HeaderWritten(d, Secondary, h);
    HeaderWriteStaysInside(base, d, Secondary, h);
    FormSetState(HeaderOf(base, Secondary), s.second, good, s.crc);
  }

  /** The header write of gpt2_set_boot_chain changes the array CRC of the phase. */
  lemma ChainHeaderMoves(d: Disk, base: Disk, s: Phase, chain: BootChain, ufs: bool)
    requires InSync(base) && Is(d, base, s)
    ensures Is(Apply(d, HeaderWrite(d, Secondary, ChainHeader(d, chain, ufs))), base,
               s.(crc := Crc(ChainArray(d, chain, ufs))))
  {
    var h := ChainHeader(d, chain, ufs);
    HeaderWritten(d, Secondary, h);
    HeaderWriteStaysInside(base, d, Secondary, h);
    FormSetArrayCrc(HeaderOf(base, Secondary), s.second, s.crc, Crc(ChainArray(d, chain, ufs)));
  }

  /** Whatever happens inside the secondary array only changes the array of the phase. */
  lemma ArrayMoves(d: Disk, base: Disk, s: Phase, e: Disk)
    requires InSync(base) && Is(d, base, s) && SameOutside(d, Secondary, e)
    ensures Partitioned(e) && Is(e, base, s.(arr := ArrayOf(e, Secondary)))
  {
    ArrayTouched(d, Secondary, e);
    PhaseFields(d, base, s);
    ArrayWriteStaysInside(base, d, e);
  }

  /** A torn array write stays inside the array. */
  lemma TornStaysInside(d: Disk, a: seq<byte>, e: Disk)
    requires Partitioned(d) && |a| == ArrayLength(d, Secondary) && Torn(d, ArrayWrite(d, Secondary, a), e)
    ensures SameOutside(d, Secondary, e)
  {
  }

  // ----- one stage, cut anywhere

  /** The disk is a safe phase of `base`. */
  ghost predicate Held(d: Disk, base: Disk, ufs: bool)
    requires Partitioned(base)
  {
    exists s :: Is(d, base, s) && Safe(base, ufs, s)
  }

  lemma CutOfNone(d: Disk, e: Disk)
    ensures Cut(d, [], e) ==> e == d
  {
  }

  lemma CutOfOne(d: Disk, x: Write, r: Disk)
    requires x.whole && Cut(d, [x], r)
    ensures r == d || r == Apply(d, x)
  {
    assert [x][1..] == [];
  }

  /** Where a cut of a header write, an array write and a header write can fall. */
  lemma CutOfThree(d: Disk, w: Write, u: Write, x: Write, r: Disk)
    requires w.whole && x.whole && Cut(d, [w, u] + [x], r)
    ensures var e := Apply(d, w);
      r == d || r == e || Torn(e, u, r) || r == Apply(e, u) || r == Apply(Apply(e, u), x)
  {
    var e := Apply(d, w);
    assert ([w, u] + [x])[1..] == [u, x] && [u, x][1..] == [x] && [x][1..] == [];
    if r != d {
      assert Cut(e, [u, x], r);
      if r != e && !Torn(e, u, r) {
        assert Cut(Apply(e, u), [x], r);
        CutOfOne(Apply(e, u), x, r);
      }
    }
  }

  lemma CutOfTwo(d: Disk, w: Write, x: Write, r: Disk)
    requires w.whole && x.whole && Cut(d, [w, x], r)
    ensures r == d || r == Apply(d, w) || r == Apply(Apply(d, w), x)
  {
    assert [w, x][1..] == [x];
    if r != d {
      CutOfOne(Apply(d, w), x, r);
    }
  }

  /** The disk between the two writes of gpt2_set_boot_chain. */
  function MidChain(d: Disk, chain: BootChain, ufs: bool): Disk
    requires Partitioned(d)
  {
    Apply(d, HeaderWrite(d, Secondary, ChainHeader(d, chain, ufs)))
  }

  function ChainArrayWrite(d: Disk, chain: BootChain, ufs: bool): Write
    requires Partitioned(d)
  {
    ArrayWrite(d, Secondary, ChainArray(d, chain, ufs))
  }

  lemma SameWrite(d: Disk, m: Disk, a: seq<byte>)
    requires Sized(d) && Sized(m) && ArrayOffset(d, Secondary) == ArrayOffset(m, Secondary)
    ensures ArrayWrite(d, Secondary, a) == ArrayWrite(m, Secondary, a)
  {
  }

  /** The array write of gpt2_set_boot_chain, torn or complete, from the phase the header write left. */
  lemma ChainArrayMoves(d: Disk, base: Disk, s: Phase, chain: BootChain, ufs: bool, e: Disk)
    requires InSync(base) && Is(d, base, s)
    requires var m := MidChain(d, chain, ufs); var u := ChainArrayWrite(d, chain, ufs);
      Torn(m, u, e) || e == Apply(m, u)
    ensures Readable(e) && Is(e, base, s.(crc := Crc(ChainArray(d, chain, ufs)), arr := ArrayOf(e, Secondary)))
    ensures e == Apply(MidChain(d, chain, ufs), ChainArrayWrite(d, chain, ufs))
      ==> ArrayOf(e, Secondary) == ChainArray(d, chain, ufs)
  {
    hide Crc, Form, State, Valid, ChainArray, ChainHeader;
    var m, a := MidChain(d, chain, ufs), ChainArray(d, chain, ufs);
    var t := s.(crc := Crc(a));
    ChainHeaderMoves(d, base, s, chain, ufs);
    PhaseFields(d, base, s);
    PhaseFields(m, base, t);
    ArrayIsGrid(d);
    SameWrite(d, m, a);
    ArrayWritten(m, Secondary, a);
    if Torn(m, ArrayWrite(m, Secondary, a), e) {
      TornStaysInside(m, a, e);
    }
    ArrayMoves(m, base, t, e);
  }

  lemma ChainEnds(d: Disk, chain: BootChain, ufs: bool)
    requires Partitioned(d) && ChainPlan(d, chain, ufs).ret == 0
    ensures AfterChain(d, chain, ufs) == Apply(MidChain(d, chain, ufs), ChainArrayWrite(d, chain, ufs))
  {
    hide Partitioned, ChainArray, ChainHeader, Apply, ApplyAll, Crc, BackupPresent, ArrayOf, HeaderOf, ArrayOffset;
    hide Sized;
    PartitionedIsSized(d);
    ApplyTwo(d, HeaderWrite(d, Secondary, ChainHeader(d, chain, ufs)), ChainArrayWrite(d, chain, ufs));
  }

  /** gpt2_set_boot_chain brings any phase to the one with its array and array CRC. */
  lemma ChainDone(d: Disk, base: Disk, s: Phase, chain: BootChain, ufs: bool)
    requires InSync(base) && Is(d, base, s)
    requires ChainPlan(d, chain, ufs).ret == 0
    ensures var a := ChainArray(d, chain, ufs);
      Is(AfterChain(d, chain, ufs), base, s.(crc := Crc(a), arr := a))
    ensures AfterChain(d, chain, ufs) == Apply(MidChain(d, chain, ufs), ChainArrayWrite(d, chain, ufs))
  {
    hide Crc, Form, State, Valid, Partitioned, Is, InSync, Sized, ArrayFits, ArrayOf, HeaderOf;
    hide ChainArray, ChainHeader, AfterChain, MidChain, ChainArrayWrite;
    PhaseIsPartitioned(d, base, s);
    var m, u := MidChain(d, chain, ufs), ChainArrayWrite(d, chain, ufs);
    ChainEnds(d, chain, ufs);
    ChainArrayMoves(d, base, s, chain, ufs, Apply(m, u));
  }

  /** gpt2_set_boot_chain and the header write after it, cut anywhere: either all is written, or the primary copy
      is as it was, and so is the secondary's signature. */
  lemma ChainCut(d: Disk, base: Disk, s: Phase, chain: BootChain, ufs: bool, x: Write, r: Disk) returns (t: Phase)
    requires InSync(base) && Is(d, base, s) && x.whole && ChainPlan(d, chain, ufs).ret == 0
    requires Cut(d, ChainWrites(d, chain, ufs) + [x], r)
    ensures r == Apply(AfterChain(d, chain, ufs), x) || (Is(r, base, t) && t.prim == s.prim && t.second == s.second)
  {
    hide Crc, Form, State, Valid, ChainArray, ChainHeader, Partitioned, Is, InSync, AfterChain, Sized, ArrayFits;
    hide ArrayOf, HeaderOf, Cut, Torn, Apply, ArrayOffset;
    PhaseIsPartitioned(d, base, s);
    var w, u := HeaderWrite(d, Secondary, ChainHeader(d, chain, ufs)), ChainArrayWrite(d, chain, ufs);
    var m := MidChain(d, chain, ufs);
    CutOfThree(d, w, u, x, r);
    ChainDone(d, base, s, chain, ufs);
    t := s;
    if r == m {
      ChainHeaderMoves(d, base, s, chain, ufs);
      t := s.(crc := Crc(ChainArray(d, chain, ufs)));
    } else if Torn(m, u, r) || r == Apply(m, u) {
      ChainArrayMoves(d, base, s, chain, ufs, r);
      t := s.(crc := Crc(ChainArray(d, chain, ufs)), arr := ArrayOf(r, Secondary));
    }
  }

  // ----- the three stages

  /** The phase after UPDATE_MAIN: the primary's signature cleared, the secondary booting the backup partitions. */
  function MainPhase(base: Disk, ufs: bool): Phase
    requires Partitioned(base)
  {
    Phase(false, true, Crc(Swapped(base, ufs)), Swapped(base, ufs))
  }

  /** The phase after UPDATE_BACKUP: the primary back in use, the secondary's signature cleared. */
  function BackupPhase(base: Disk, ufs: bool): Phase
    requires Partitioned(base)
  {
    MainPhase(base, ufs).(prim := true, second := false)
  }

  /** UPDATE_MAIN writes exactly when there is a backup to boot and the boot unit, if any, was switched. */
  predicate MainWrites(base: Disk, platform: Platform)
    requires Partitioned(base)
  {
    platform != Ufs(SwitchFailed) && BackupPresent(base, platform.Ufs?)
  }

  /** The disk a chain switch and a header write leave. */
  lemma ChainThen(d: Disk, chain: BootChain, ufs: bool, x: Write)
    requires Partitioned(d) && ChainPlan(d, chain, ufs).ret == 0
    ensures ApplyAll(d, ChainWrites(d, chain, ufs) + [x]) == Apply(AfterChain(d, chain, ufs), x)
  {
    hide Partitioned, ChainWrites, BackupPresent, Crc, ArrayOf, HeaderOf, Apply, ApplyAll, Sized, ArrayFits;
    PartitionedIsSized(d);
    ApplyAllAppend(d, ChainWrites(d, chain, ufs), [x]);
    ApplyOne(AfterChain(d, chain, ufs), x);
  }

  /** The plan of UPDATE_MAIN on a disk with a right primary array CRC. */
  lemma MainShape(d: Disk, platform: Platform)
    requires Partitioned(d) && ArrayCrc(HeaderOf(d, Primary)) == Crc(ArrayOf(d, Primary))
    ensures !MainWrites(d, platform)
      ==> MainPlan(d, platform) == Plan(if platform == Ufs(SwitchFailed) then -1 else 0, [])
    ensures MainWrites(d, platform)
      ==> && ChainPlan(d, BackupBoot, platform.Ufs?) == Plan(0, ChainWrites(d, BackupBoot, platform.Ufs?))
          && MainPlan(d, platform)
             == Plan(0, ChainWrites(d, BackupBoot, platform.Ufs?)
                        + [StateWrite(AfterChain(d, BackupBoot, platform.Ufs?), Primary, false)])
  {
    hide Partitioned, ChainWrites, StateWrite, AfterChain, BackupPresent, Crc, ArrayOf, HeaderOf;
  }

  /** The last two steps of UPDATE_MAIN bring a phase with both signatures to the one of the backup chain. */
  lemma MainMoves(d: Disk, base: Disk, s: Phase, platform: Platform)
    requires InSync(base) && Is(d, base, s) && s.prim && s.second
    ensures Partitioned(d) && Partitioned(base) && ArrayCrc(HeaderOf(d, Primary)) == Crc(ArrayOf(d, Primary))
    ensures MainWrites(d, platform) <==> MainWrites(base, platform)
    ensures MainWrites(base, platform) ==>
      var e := AfterChain(d, BackupBoot, platform.Ufs?);
      && ChainPlan(d, BackupBoot, platform.Ufs?).ret == 0
      && Is(Apply(e, StateWrite(e, Primary, false)), base, MainPhase(base, platform.Ufs?))
  {
    hide Partitioned, InSync, Is, ChainArray, ChainWrites, AfterChain, StateWrite, Crc, BackupPresent, Swapped, Apply;
    hide ArrayOf, HeaderOf, Sized, ArrayFits, MidChain, ChainArrayWrite;
    var ufs := platform.Ufs?;
    PhaseIsPartitioned(d, base, s);
    PhaseChain(d, base, s, ufs);
    if MainWrites(base, platform) {
      ChainDone(d, base, s, BackupBoot, ufs);
      PrimaryStateMoves(AfterChain(d, BackupBoot, ufs), base,
                        s.(crc := Crc(Swapped(base, ufs)), arr := Swapped(base, ufs)), false);
    }
  }

  lemma MainDone(d: Disk, base: Disk, s: Phase, platform: Platform)
    requires InSync(base) && Is(d, base, s) && s.prim && s.second
    ensures MainPlan(d, platform).writes != [] <==> MainWrites(base, platform)
    ensures MainPlan(d, platform).ret == if platform == Ufs(SwitchFailed) then -1 else 0
    ensures MainWrites(base, platform)
      ==> Is(ApplyAll(d, MainPlan(d, platform).writes), base, MainPhase(base, platform.Ufs?))
  {
    hide InSync, Is, Partitioned, MainPlan, BackupPresent, ChainPlan, ChainWrites, AfterChain, StateWrite, Crc, Apply;
    hide ArrayOf, HeaderOf, ApplyAll, MainPhase;
    MainMoves(d, base, s, platform);
    MainShape(d, platform);
    if MainWrites(base, platform) {
      var ufs := platform.Ufs?;
      ChainThen(d, BackupBoot, ufs, StateWrite(AfterChain(d, BackupBoot, ufs), Primary, false));
    }
  }

  lemma MainPhaseSafe(base: Disk, platform: Platform, s: Phase)
    requires Partitioned(base)
    ensures MainWrites(base, platform) ==> Safe(base, platform.Ufs?, MainPhase(base, platform.Ufs?))
    ensures MainPhase(base, platform.Ufs?).second
    ensures s.prim ==> Safe(base, platform.Ufs?, s)
  {
  }

  lemma MainCut(d: Disk, base: Disk, s: Phase, platform: Platform, r: Disk) returns (t: Phase)
    requires InSync(base) && Is(d, base, s) && s.prim && s.second
    requires Cut(d, MainPlan(d, platform).writes, r)
    ensures Is(r, base, t) && Safe(base, platform.Ufs?, t) && t.second
  {
    hide InSync, Is, Partitioned, MainPlan, BackupPresent, ChainPlan, ChainWrites, AfterChain, SetState, Crc, Apply;
    hide ArrayOf, HeaderOf, MainPhase, Safe, Cut;
    MainMoves(d, base, s, platform);
    MainShape(d, platform);
    t := s;
    if MainWrites(base, platform) {
      var e := AfterChain(d, BackupBoot, platform.Ufs?);
      t := ChainCut(d, base, s, BackupBoot, platform.Ufs?, StateWrite(e, Primary, false), r);
      if r == Apply(e, StateWrite(e, Primary, false)) {
        t := MainPhase(base, platform.Ufs?);
      }
    } else {
      CutOfNone(d, r);
    }
    MainPhaseSafe(base, platform, t);
  }

  lemma BackupMoves(d: Disk, base: Disk, s: Phase)
    requires InSync(base) && Is(d, base, s)
    ensures var e := Apply(d, StateWrite(d, Primary, true));
      && Is(e, base, s.(prim := true))
      && Is(Apply(e, StateWrite(e, Secondary, false)), base, s.(prim := true, second := false))
  {
    PrimaryStateMoves(d, base, s, true);
    SecondaryStateMoves(Apply(d, StateWrite(d, Primary, true)), base, s.(prim := true), false);
  }

  lemma BackupDone(d: Disk, base: Disk, s: Phase, platform: Platform)
    requires InSync(base) && Is(d, base, s)
    ensures BackupPlan(d, platform).writes != [] <==> platform != Ufs(SwitchFailed)
    ensures BackupPlan(d, platform).ret == if platform == Ufs(SwitchFailed) then -1 else 0
    ensures platform != Ufs(SwitchFailed)
      ==> Is(ApplyAll(d, BackupPlan(d, platform).writes), base, s.(prim := true, second := false))
  {
    if platform != Ufs(SwitchFailed) {
      var w := StateWrite(d, Primary, true);
      BackupMoves(d, base, s);
      ApplyTwo(d, w, StateWrite(Apply(d, w), Secondary, false));
    }
  }

  lemma CutOfBackup(d: Disk, platform: Platform, r: Disk)
    requires Partitioned(d) && platform != Ufs(SwitchFailed) && Cut(d, BackupPlan(d, platform).writes, r)
    ensures var e := Apply(d, StateWrite(d, Primary, true));
      Partitioned(e) && (r == d || r == e || r == Apply(e, StateWrite(e, Secondary, false)))
  {
    hide SetState, HeaderOf, Apply;
    StateWriteKeeps(d, Primary, true);
    var w := StateWrite(d, Primary, true);
    CutOfTwo(d, w, StateWrite(Apply(d, w), Secondary, false), r);
  }

  /** A phase with the primary's signature in place is safe. */
  lemma SafeWithPrimary(base: Disk, ufs: bool, s: Phase)
    requires Partitioned(base)
    ensures Safe(base, ufs, s.(prim := true)) && Safe(base, ufs, s.(prim := true, second := false))
  {
  }

  /** Where UPDATE_BACKUP can be cut: before, between and after its two writes. */
  lemma BackupLands(d: Disk, base: Disk, s: Phase, platform: Platform, r: Disk)
    requires InSync(base) && Is(d, base, s)
    requires Cut(d, BackupPlan(d, platform).writes, r)
    ensures
      || r == d
      || (r == Apply(d, StateWrite(d, Primary, true)) && Is(r, base, s.(prim := true)))
      || Is(r, base, s.(prim := true, second := false))
  {
    if platform != Ufs(SwitchFailed) {
      BackupMoves(d, base, s);
      CutOfBackup(d, platform, r);
    }
  }

  lemma BackupCut(d: Disk, base: Disk, s: Phase, platform: Platform, r: Disk) returns (t: Phase)
    requires InSync(base) && Is(d, base, s) && Safe(base, platform.Ufs?, s)
    requires Cut(d, BackupPlan(d, platform).writes, r)
    ensures Is(r, base, t) && Safe(base, platform.Ufs?, t)
  {
    hide Partitioned, InSync, Is, Safe, Cut, StateWrite, BackupPlan;
    SyncIsPartitioned(base);
    BackupLands(d, base, s, platform, r);
    SafeWithPrimary(base, platform.Ufs?, s);
    t := if r == d then s
         else if Is(r, base, s.(prim := true)) then s.(prim := true)
         else s.(prim := true, second := false);
  }

  /** The phase once the secondary describes the primary's array again. */
  function Realigned(base: Disk, s: Phase): Phase
    requires Partitioned(base)
  {
    s.(crc := Crc(ArrayOf(base, Primary)), arr := ArrayOf(base, Primary))
  }

  lemma RealignedIsStart(base: Disk, s: Phase)
    requires InSync(base) && s.prim
    ensures Realigned(base, s).(second := true) == Start(base)
  {
  }

  /** The plan of UPDATE_FINALIZE on a disk with a right primary array CRC. */
  lemma FinalizeShape(d: Disk, platform: Platform)
    requires Partitioned(d) && ArrayCrc(HeaderOf(d, Primary)) == Crc(ArrayOf(d, Primary))
    ensures ChainPlan(d, NormalBoot, platform.Ufs?) == Plan(0, ChainWrites(d, NormalBoot, platform.Ufs?))
    ensures FinalizePlan(d, platform)
         == Plan(0, ChainWrites(d, NormalBoot, platform.Ufs?)
                    + [StateWrite(AfterChain(d, NormalBoot, platform.Ufs?), Secondary, true)])
  {
    hide Partitioned, ChainWrites, StateWrite, AfterChain, BackupPresent, Crc, ArrayOf, HeaderOf, Sized, ArrayFits;
    PartitionedIsSized(d);
  }

  /** The last two steps of UPDATE_FINALIZE bring any phase with the primary's signature back to the start. */
  lemma FinalizeMoves(d: Disk, base: Disk, s: Phase, ufs: bool)
    requires InSync(base) && Is(d, base, s) && s.prim
    ensures Partitioned(d) && ArrayCrc(HeaderOf(d, Primary)) == Crc(ArrayOf(d, Primary))
    ensures ChainPlan(d, NormalBoot, ufs).ret == 0
    ensures var e := AfterChain(d, NormalBoot, ufs);
      Is(Apply(e, StateWrite(e, Secondary, true)), base, Start(base))
  {
    hide Partitioned, InSync, Is, ChainArray, ChainWrites, AfterChain, StateWrite, Crc, BackupPresent, Start, Apply;
    hide ArrayOf, HeaderOf, Sized, ArrayFits, MidChain, ChainArrayWrite;
    PhaseIsPartitioned(d, base, s);
    PhaseChain(d, base, s, ufs);
    ChainDone(d, base, s, NormalBoot, ufs);
    SecondaryStateMoves(AfterChain(d, NormalBoot, ufs), base, Realigned(base, s), true);
    RealignedIsStart(base, s);
  }

  lemma FinalizeDone(d: Disk, base: Disk, s: Phase, platform: Platform)
    requires InSync(base) && Is(d, base, s) && s.prim
    ensures FinalizePlan(d, platform).writes != [] && FinalizePlan(d, platform).ret == 0
    ensures Is(ApplyAll(d, FinalizePlan(d, platform).writes), base, Start(base))
  {
    hide InSync, Is, Partitioned, FinalizePlan, ChainPlan, ChainWrites, AfterChain, StateWrite, Crc, Start, Apply;
    hide ArrayOf, HeaderOf, ApplyAll;
    var ufs := platform.Ufs?;
    FinalizeMoves(d, base, s, ufs);
    FinalizeShape(d, platform);
    var x := StateWrite(AfterChain(d, NormalBoot, ufs), Secondary, true);
    ChainThen(d, NormalBoot, ufs, x);
  }

  lemma FinalizeCut(d: Disk, base: Disk, s: Phase, platform: Platform, r: Disk) returns (t: Phase)
    requires InSync(base) && Is(d, base, s) && s.prim
    requires Cut(d, FinalizePlan(d, platform).writes, r)
    ensures Is(r, base, t) && Safe(base, platform.Ufs?, t)
    ensures t == Start(base) || (t.prim && t.second == s.second)
  {
    SyncIsPartitioned(base);
    hide InSync, Is, Partitioned, FinalizePlan, ChainPlan, ChainWrites, AfterChain, StateWrite, Crc, Cut, Apply;
    hide ArrayOf, HeaderOf;
    var ufs := platform.Ufs?;
    FinalizeMoves(d, base, s, ufs);
    FinalizeShape(d, platform);
    var x := StateWrite(AfterChain(d, NormalBoot, ufs), Secondary, true);
    t := ChainCut(d, base, s, NormalBoot, ufs, x, r);
    if r == Apply(AfterChain(d, NormalBoot, ufs), x) {
      t := Start(base);
    }
  }
}
