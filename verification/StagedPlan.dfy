/** The staged boot update as a plan: what a call of prepare_partitions returns and writes, for the disk it finds. */
module StagedPlan {
  import opened Bytes
  import opened Crc32
  import opened Header
  import opened HeaderProofs
  import opened Entries
  import opened Disk
  import opened Wrappers

  const UPDATE_MAIN: int := 1
  const UPDATE_BACKUP: int := 2
  const UPDATE_FINALIZE: int := 3

  datatype BootChain = NormalBoot | BackupBoot

  /** How switching the UFS boot unit of the xbl image goes; eMMC has none. */
  datatype XblSwitch = NoXbl | Switched | SwitchFailed
  datatype Platform = Emmc | Ufs(xbl: XblSwitch)

  /** The write of gpt_set_state. */
  function StateWrite(d: Disk, gpt: Instance, good: bool): Write
    requires Partitioned(d)
  {
    HeaderWrite(d, gpt, SetState(HeaderOf(d, gpt), good))
  }

  lemma StateWriteKeeps(d: Disk, gpt: Instance, good: bool)
    requires Partitioned(d)
    ensures Partitioned(Apply(d, StateWrite(d, gpt, good)))
  {
    SetThenGet(HeaderOf(d, gpt), good);
    HeaderWritten(d, gpt, SetState(HeaderOf(d, gpt), good));
  }

  /** The array gpt2_set_boot_chain gives the secondary copy. */
  function ChainArray(d: Disk, chain: BootChain, ufs: bool): (a: seq<byte>)
    requires Partitioned(d)
    ensures |a| == ArrayLength(d, Primary)
  {
    ArrayIsGrid(d);
    if chain == BackupBoot
    then SwapAll(ArrayOf(d, Primary), EntrySize(HeaderOf(d, Primary)), SwapList(ufs))
    else ArrayOf(d, Primary)
  }

  /** The new secondary header of gpt2_set_boot_chain. */
  function ChainHeader(d: Disk, chain: BootChain, ufs: bool): (h: seq<byte>)
    requires Partitioned(d)
    ensures SameGeometry(HeaderOf(d, Secondary), h)
  {
    ArrayCrcSet(HeaderOf(d, Secondary), Crc(ChainArray(d, chain, ufs)));
    SetArrayCrc(HeaderOf(d, Secondary), Crc(ChainArray(d, chain, ufs)))
  }

  /** The two writes of gpt2_set_boot_chain: the secondary header, then the secondary array. */
  function ChainWrites(d: Disk, chain: BootChain, ufs: bool): seq<Write>
    requires Partitioned(d)
  {
    [HeaderWrite(d, Secondary, ChainHeader(d, chain, ufs)), ArrayWrite(d, Secondary, ChainArray(d, chain, ufs))]
  }

  predicate BackupPresent(d: Disk, ufs: bool)
    requires Partitioned(d)
  {
    ArrayIsGrid(d);
    HasBackup(ArrayOf(d, Primary), EntrySize(HeaderOf(d, Primary)), SwapList(ufs))
  }

  /** gpt2_set_boot_chain: -1 on a bad primary array CRC, 1 when there is nothing to swap, else 0. */
  function ChainPlan(d: Disk, chain: BootChain, ufs: bool): Plan
    requires Partitioned(d)
  {
    if ArrayCrc(HeaderOf(d, Primary)) != Crc(ArrayOf(d, Primary)) then Plan(-1, [])
    else if chain == BackupBoot && !BackupPresent(d, ufs) then Plan(1, [])
    else Plan(0, ChainWrites(d, chain, ufs))
  }

  lemma SecondaryWritten(d: Disk, e: Disk, a: seq<byte>)
    requires Partitioned(d) && Partitioned(e) && ArrayOffset(e, Secondary) == ArrayOffset(d, Secondary)
    requires |a| == |ArrayOf(e, Secondary)|
    ensures var f := Apply(e, ArrayWrite(d, Secondary, a));
      && Partitioned(f)
      && HeaderOf(f, Primary) == HeaderOf(e, Primary) && ArrayOf(f, Primary) == ArrayOf(e, Primary)
      && HeaderOf(f, Secondary) == HeaderOf(e, Secondary) && ArrayOf(f, Secondary) == a
  {
    ArrayWritten(e, Secondary, a);
  }

  /** What the two writes of gpt2_set_boot_chain change. */
  lemma ChainWritten(d: Disk, chain: BootChain, ufs: bool)
    requires Partitioned(d)
    ensures var e := ApplyAll(d, ChainWrites(d, chain, ufs));
      && Partitioned(e)
      && HeaderOf(e, Primary) == HeaderOf(d, Primary) && ArrayOf(e, Primary) == ArrayOf(d, Primary)
      && HeaderOf(e, Secondary) == ChainHeader(d, chain, ufs) && ArrayOf(e, Secondary) == ChainArray(d, chain, ufs)
  {
    var h, a := ChainHeader(d, chain, ufs), ChainArray(d, chain, ufs);
    HeaderWritten(d, Secondary, h);
    ArrayIsGrid(d);
    var e := Apply(d, HeaderWrite(d, Secondary, h));
    SecondaryWritten(d, e, a);
    ApplyTwo(d, HeaderWrite(d, Secondary, h), ArrayWrite(d, Secondary, a));
  }

  lemma ChainKeeps(d: Disk, chain: BootChain, ufs: bool)
    requires Partitioned(d)
    ensures Partitioned(ApplyAll(d, ChainPlan(d, chain, ufs).writes))
  {
    hide Partitioned, BackupPresent, ChainWrites, ChainArray, ChainHeader, ArrayOf, HeaderOf, Crc;
    ChainWritten(d, chain, ufs);
  }

  /** The disk gpt2_set_boot_chain leaves. */
  function AfterChain(d: Disk, chain: BootChain, ufs: bool): (e: Disk)
    requires Partitioned(d)
    ensures Partitioned(e)
  {
    ChainKeeps(d, chain, ufs);
    ApplyAll(d, ChainPlan(d, chain, ufs).writes)
  }

  /** The stage the disk is at, read off the two header states; none when they make no sense together. */
  function InternalStage(prim: GptState, second: GptState): Option<int> {
    if prim == BadCrc || second == BadCrc then None
    else if prim == BadSignature && second == BadSignature then None
    else if prim == Ok && second == Ok then Some(UPDATE_MAIN)
    else if prim == BadSignature then Some(UPDATE_BACKUP)
    else Some(UPDATE_FINALIZE)
  }

  function DiskStage(d: Disk): Option<int>
    requires HeadersFit(d)
  {
    InternalStage(State(HeaderOf(d, Primary)), State(HeaderOf(d, Secondary)))
  }

  function MainPlan(d: Disk, platform: Platform): Plan
    requires Partitioned(d)
  {
    if platform == Ufs(SwitchFailed) then Plan(-1, [])
    else
      var c := ChainPlan(d, BackupBoot, platform.Ufs?);
      if c.ret < 0 then c
      else if c.ret > 0 then Plan(0, [])
      else
        Plan(0, c.writes + [StateWrite(AfterChain(d, BackupBoot, platform.Ufs?), Primary, false)])
  }

  function BackupPlan(d: Disk, platform: Platform): Plan
    requires Partitioned(d)
  {
    if platform == Ufs(SwitchFailed) then Plan(-1, [])
    else
      StateWriteKeeps(d, Primary, true);
      var w := StateWrite(d, Primary, true);
      Plan(0, [w, StateWrite(Apply(d, w), Secondary, false)])
  }

  function FinalizePlan(d: Disk, platform: Platform): Plan
    requires Partitioned(d)
  {
    var c := ChainPlan(d, NormalBoot, platform.Ufs?);
    if c.ret < 0 then c
    else
      Plan(0, c.writes + [StateWrite(AfterChain(d, NormalBoot, platform.Ufs?), Secondary, true)])
  }

  /** What prepare_partitions needs of a disk: headers it can read, and a sound layout if it gets past them. */
  predicate Preparable(d: Disk) {
    HeadersFit(d) && (DiskStage(d).Some? ==> Partitioned(d))
  }

  lemma PreparableAtStage(d: Disk)
    requires Preparable(d)
    ensures HeadersFit(d) && (DiskStage(d).Some? ==> Partitioned(d))
  {
  }

  /** prepare_partitions, when no device operation fails. */
  function PreparePlan(d: Disk, platform: Platform, stage: int): Plan
    requires Preparable(d)
  {
    match DiskStage(d)
    case None => Plan(-1, [])
    case Some(internal) =>
      if stage == internal - 1 then Plan(0, [])
      else if stage != internal then Plan(-1, [])
      else if stage == UPDATE_MAIN then MainPlan(d, platform)
      else if stage == UPDATE_BACKUP then BackupPlan(d, platform)
      else FinalizePlan(d, platform)
  }
}
