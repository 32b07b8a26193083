/** What the order of the writes is for: the disk when only some of the writes of UPDATE_MAIN have persisted. */
module StagedOrder {
  import opened Bytes
  import opened Crc32
  import opened Disk
  import opened Header
  import opened HeaderProofs
  import opened StagedPlan
  import opened StagedProofs
  import opened Wrappers

  /** The disk on which of the three writes of UPDATE_MAIN the secondary header has persisted if `header`, the
      primary's cleared signature if `signature`, and of the secondary array what is in `a`: the old array, the
      swapped one, or a torn mixture of them. */
  function Persisted(base: Disk, ufs: bool, header: bool, a: seq<byte>, signature: bool): Disk
    requires Partitioned(base)
  {
    var d := if header then MidChain(base, BackupBoot, ufs) else base;
    var e := Apply(d, ArrayWrite(base, Secondary, a));
    if signature then Apply(e, StateWrite(base, Primary, false)) else e
  }

  /** The phase that disk is in. */
  function PersistedPhase(base: Disk, ufs: bool, header: bool, a: seq<byte>, signature: bool): Phase
    requires Partitioned(base)
  {
    Phase(!signature, true, if header then Crc(Swapped(base, ufs)) else ArrayCrc(HeaderOf(base, Secondary)), a)
  }

  lemma HeaderPersisted(base: Disk, ufs: bool, header: bool)
    requires InSync(base)
    ensures var d := if header then MidChain(base, BackupBoot, ufs) else base;
      Is(d, base, PersistedPhase(base, ufs, header, ArrayOf(base, Secondary), false))
  {
    hide Form, State, Crc, Valid;
    StartIs(base);
    ChainHeaderMoves(base, base, Start(base), BackupBoot, ufs);
  }

  lemma ArrayPersisted(base: Disk, d: Disk, s: Phase, a: seq<byte>)
    requires InSync(base) && Is(d, base, s) && |a| == ArrayLength(base, Secondary)
    ensures Is(Apply(d, ArrayWrite(base, Secondary, a)), base, s.(arr := a))
  {
    hide Form, State, Crc, Valid;
    PhaseFields(d, base, s);
    SameWrite(base, d, a);
    ArrayWritten(d, Secondary, a);
    ArrayMoves(d, base, s, Apply(d, ArrayWrite(d, Secondary, a)));
  }

  lemma SamePrimary(base: Disk, d: Disk, s: Phase)
    requires InSync(base) && Is(d, base, s) && s.prim
    ensures Partitioned(base) && Partitioned(d) && d.blk == base.blk
    ensures HeaderOf(d, Primary) == HeaderOf(base, Primary)
  {
    hide Form;
    FormOfGood(HeaderOf(base, Primary));
  }

  lemma SignaturePersisted(base: Disk, d: Disk, s: Phase)
    requires InSync(base) && Is(d, base, s) && s.prim
    ensures Partitioned(base)
    ensures Is(Apply(d, StateWrite(base, Primary, false)), base, s.(prim := false))
  {
    hide InSync, Is, Partitioned, SetState, HeaderOf;
    SamePrimary(base, d, s);
    PrimaryStateMoves(d, base, s, false);
    assert StateWrite(d, Primary, false) == StateWrite(base, Primary, false);
  }

  lemma PersistedIs(base: Disk, ufs: bool, header: bool, a: seq<byte>, signature: bool)
    requires InSync(base) && |a| == ArrayLength(base, Secondary)
    ensures Is(Persisted(base, ufs, header, a, signature), base, PersistedPhase(base, ufs, header, a, signature))
  {
    hide InSync, Is, MidChain, StateWrite, ArrayWrite, Swapped;
    SyncIsPartitioned(base);
    HeaderPersisted(base, ufs, header);
    var d := if header then MidChain(base, BackupBoot, ufs) else base;
    var s := PersistedPhase(base, ufs, header, ArrayOf(base, Secondary), false);
    ArrayPersisted(base, d, s, a);
    if signature {
      SignaturePersisted(base, Apply(d, ArrayWrite(base, Secondary, a)), s.(arr := a));
    }
  }

  lemma PhaseValidity(d: Disk, base: Disk, s: Phase)
    requires InSync(base) && Is(d, base, s)
    ensures Valid(d, Primary) <==> s.prim
    ensures Valid(d, Secondary) <==> s.second && s.crc == Crc(s.arr)
  {
    hide Form, Crc, State;
    PhaseHeaders(d, base, s);
    PhaseFields(d, base, s);
  }

  lemma SwappedLength(base: Disk, ufs: bool)
    requires Partitioned(base)
    ensures Sized(base) && ArrayFits(base, Primary)
    ensures |ArrayOf(base, Primary)| == |ArrayOf(base, Secondary)| == ArrayLength(base, Secondary)
    ensures |Swapped(base, ufs)| == ArrayLength(base, Secondary)
  {
    ArrayIsGrid(base);
  }

  /** The disks of the list are those of UPDATE_MAIN: none of its writes, and all of them. */
  lemma PersistedEnds(base: Disk, ufs: bool)
    requires InSync(base) && BackupPresent(base, ufs)
    ensures Persisted(base, ufs, false, ArrayOf(base, Secondary), false) == base
    ensures Persisted(base, ufs, true, Swapped(base, ufs), true)
         == ApplyAll(base, MainPlan(base, if ufs then Ufs(NoXbl) else Emmc).writes)
  {
    hide BackupPresent, InSync, Is, MainPlan, MidChain, StateWrite, ArrayWrite, Persisted;
    hide Swapped, ApplyAll, Crc, ArrayOf;
    hide Partitioned, Sized, ArrayFits, HeaderOf, ArrayLength;
    SyncIsPartitioned(base);
    PartitionedIsSized(base);
    StartIs(base);
    SwappedLength(base, ufs);
    PersistedIs(base, ufs, false, ArrayOf(base, Secondary), false);
    PhaseDetermines(base, Persisted(base, ufs, false, ArrayOf(base, Secondary), false), base, Start(base));
    PersistedIs(base, ufs, true, Swapped(base, ufs), true);
    var platform := if ufs then Ufs(NoXbl) else Emmc;
    MainDone(base, base, Start(base), platform);
    PhaseDetermines(base, Persisted(base, ufs, true, Swapped(base, ufs), true),
                    ApplyAll(base, MainPlan(base, platform).writes), MainPhase(base, ufs));
  }

  lemma PhaseArrays(d: Disk, base: Disk, s: Phase)
    requires InSync(base) && Is(d, base, s)
    ensures Readable(d) && ArrayOf(d, Primary) == ArrayOf(base, Primary) && ArrayOf(d, Secondary) == s.arr
  {
  }

  /** Whichever of the writes persisted, and whatever became of the array: while the primary's signature stands a
      reader finds the original entries; once it is cleared, those of the secondary array if they have the CRC the
      persisted secondary header states, and none if they have not. */
  lemma AnyOrder(base: Disk, ufs: bool, header: bool, a: seq<byte>, signature: bool)
    requires InSync(base) && |a| == ArrayLength(base, Secondary)
    ensures Sees(Persisted(base, ufs, header, a, signature),
                 if !signature then Some(ArrayOf(base, Primary))
                 else if Crc(a) == Crc(if header then Swapped(base, ufs) else ArrayOf(base, Primary)) then Some(a)
                 else None)
  {
    hide Is, State, Crc, Swapped, Persisted;
    var d, s := Persisted(base, ufs, header, a, signature), PersistedPhase(base, ufs, header, a, signature);
    PersistedIs(base, ufs, header, a, signature);
    PhaseValidity(d, base, s);
    PhaseArrays(d, base, s);
  }

  /** The update relies on its writes persisting in order. With the signature cleared, the new array is found when its
      header persisted too, and the old array when neither did; when only one of the two did, no valid copy is left
      exactly if the two arrays differ in CRC. */
  lemma OrderMatters(base: Disk, ufs: bool)
    requires InSync(base)
    ensures var was, swapped := ArrayOf(base, Primary), Swapped(base, ufs);
      && |swapped| == |was| == ArrayLength(base, Secondary)
      && Sees(Persisted(base, ufs, true, swapped, true), Some(swapped))
      && Sees(Persisted(base, ufs, false, was, true), Some(was))
      && (Sees(Persisted(base, ufs, true, was, true), None) <==> Crc(swapped) != Crc(was))
      && (Sees(Persisted(base, ufs, false, swapped, true), None) <==> Crc(swapped) != Crc(was))
  {
    hide InSync, State, Crc, Persisted, Boot, Valid, Swapped, Readable, Partitioned;
    SyncIsPartitioned(base);
    SwappedLength(base, ufs);
    var was, swapped := ArrayOf(base, Primary), Swapped(base, ufs);
    AnyOrder(base, ufs, true, swapped, true);
    AnyOrder(base, ufs, false, was, true);
    AnyOrder(base, ufs, true, was, true);
    AnyOrder(base, ufs, false, swapped, true);
  }
}
