/** The staged boot update as it runs on the device, operation by operation. */
module StagedUpdate {
  import opened Bytes
  import opened Crc32
  import opened Header
  import opened HeaderBuffer
  import opened Entries
  import opened ChainSwap
  import opened Disk
  import opened Device
  import opened StagedPlan

  /** gpt_get_state: reads the header block and judges it. */
  method GptGetState(dev: BlockDevice, gpt: Instance) returns (r: int, state: GptState)
    requires HeadersFit(dev.Contents())
    modifies dev`faults
    ensures r == 0 || r == -1
    ensures r == 0 ==> state == State(HeaderOf(dev.Contents(), gpt)) && dev.faults == old(dev.faults)
    ensures r == -1 ==> dev.faults > old(dev.faults)
  {
    state := Ok;
    var header: array<byte>;
    r, header := ReadHeader(dev, gpt);
    if r != 0 {
      return -1, state;
    }
    ghost var h := header[..];
    if header[..9] != GPT_SIGNATURE {
      state := BadSignature;
    }
    var size := Number(header[..], HEADER_SIZE_OFFSET, HEADER_SIZE_OFFSET + 4);
    var crc := Get4(header[..], HEADER_CRC_OFFSET);
    PutFour(header, HEADER_CRC_OFFSET, 0);
    assert header[..size] == Put4(h, HEADER_CRC_OFFSET, 0)[..size];
    if Crc(header[..size]) != crc {
      state := BadCrc;
    }
    return 0, state;
  }

  /** The edit of gpt_set_state: the signature copied in whole, or its first byte cleared, and a new header CRC. */
  method StateBuffer(header: array<byte>, good: bool)
    requires WellFormed(header[..])
    modifies header
    ensures header[..] == SetState(old(header[..]), good)
  {
    ghost var h := header[..];
    if good {
      var signature := new byte[9](i requires 0 <= i < 9 => GPT_SIGNATURE[i]);
      assert signature[..][0..9] == GPT_SIGNATURE;
      Memcpy(header, 0, signature, 0, 9);
    } else {
      header[0] := 0;
    }
    assert header[..] == Signed(h, good);
    SameSize(h, Signed(h, good));
    SealBuffer(header);
  }

  /** gpt_set_state: rewrites the signature and the header CRC of one header block. */
  method GptSetState(dev: BlockDevice, gpt: Instance, state: GptState) returns (r: int)
    requires Partitioned(dev.Contents())
    modifies dev`faults, dev`log, dev.data
    ensures r == 0 || r == -1
    ensures r == 0 ==> state != BadCrc && dev.faults == old(dev.faults)
    ensures r == 0 ==>
      var w := StateWrite(old(dev.Contents()), gpt, state == Ok);
      dev.log == old(dev.log) + [w] && dev.Contents() == Apply(old(dev.Contents()), w)
    ensures r == -1 ==> (state == BadCrc || dev.faults > old(dev.faults))
    ensures r == -1 ==> dev.log == old(dev.log) && dev.Contents() == old(dev.Contents())
  {
    hide SetState, State, Read;
    ghost var d := dev.Contents();
    var header: array<byte>;
    r, header := ReadHeader(dev, gpt);
    if r != 0 || state == BadCrc {
      return -1;
    }
    StateBuffer(header, state == Ok);
    assert header[..] == SetState(HeaderOf(d, gpt), state == Ok);
    var offset := if gpt == Primary then dev.blk else dev.data.Length - dev.blk;
    r := dev.BlkWrite(offset, header, true);
  }

  /** The primary entry array in a new buffer, with its CRC as the header states it. */
  method ReadEntries(dev: BlockDevice) returns (r: int, entries: array<byte>, entrySize: nat, crc: word)
    requires Partitioned(dev.Contents())
    modifies dev`faults
    ensures r == 0 || r == -1
    ensures r == 0 ==> fresh(entries) && dev.faults == old(dev.faults)
    ensures r == 0 ==> entries[..] == ArrayOf(dev.Contents(), Primary)
    ensures r == 0 ==> entrySize == EntrySize(HeaderOf(dev.Contents(), Primary))
    ensures r == 0 ==> crc == ArrayCrc(HeaderOf(dev.Contents(), Primary))
    ensures r == -1 ==> dev.faults > old(dev.faults)
  {
    hide Read, Number, Product;
    ghost var d := dev.Contents();
    entries, entrySize, crc := new byte[0], 0, 0;
    var header: array<byte>;
    r, header := ReadHeader(dev, Primary);
    if r != 0 {
      return;
    }
    entries := new byte[ArraySize(header[..])];
    r := dev.BlkRead(ArrayStart(header[..], dev.blk), entries);
    if r != 0 {
      return;
    }
    entrySize, crc := EntrySize(header[..]), ArrayCrc(header[..]);
  }

  /** The header edit of gpt2_set_boot_chain. */
  method ArrayCrcBuffer(header: array<byte>, crc: word)
    requires WellFormed(header[..])
    modifies header
    ensures header[..] == SetArrayCrc(old(header[..]), crc)
  {
    SameSize(header[..], Put4(header[..], PARTITION_CRC_OFFSET, crc));
    PutFour(header, PARTITION_CRC_OFFSET, crc);
    SealBuffer(header);
  }

  /** What the first `k` of two writes are, and what they leave. */
  lemma FirstOfTwo(d: Disk, w: Write, u: Write, k: nat)
    requires k <= 2
    ensures [w, u][..k] == if k == 0 then [] else if k == 1 then [w] else [w] + [u]
    ensures ApplyAll(d, [w, u][..k]) == if k == 0 then d else if k == 1 then Apply(d, w) else Apply(Apply(d, w), u)
  {
    if k == 1 {
      assert [w, u][..1] == [w];
      ApplyOne(d, w);
    } else if k == 2 {
      assert [w, u][..2] == [w, u];
      ApplyTwo(d, w, u);
    }
  }

  /** The two writes: the header first, the array if that worked. */
  method WritePair(dev: BlockDevice, ghost d: Disk, header: array<byte>, start: nat, entries: array<byte>)
    returns (r: int, ghost done: nat)
    requires d == dev.Contents() && Sized(d)
    requires header != dev.data && entries != dev.data && header.Length == d.blk
    requires start + entries.Length <= |d.bytes|
    modifies dev`faults, dev`log, dev.data
    ensures var ws := [HeaderWrite(d, Secondary, header[..]), Write(start, entries[..], false)];
      Did(dev, d, old(dev.log), old(dev.faults), Plan(0, ws), r, done)
    ensures r == 0 || r == -1
  {
    hide ApplyAll, Apply, Splice, Fits;
    ghost var w, u := HeaderWrite(d, Secondary, header[..]), Write(start, entries[..], false);
    FirstOfTwo(d, w, u, 0);
    FirstOfTwo(d, w, u, 1);
    FirstOfTwo(d, w, u, 2);
    done := 0;
    r := dev.BlkWrite(dev.data.Length - dev.blk, header, true);
    if r == 0 {
      done := 1;
      r := dev.BlkWrite(start, entries, false);
      if r == 0 {
        done := 2;
      }
    }
  }

  /** The entries the secondary copy is to have: swapped for the backup chain, as they are for the normal one. */
  method ChainEntries(entries: array<byte>, entrySize: nat, chain: BootChain, ufs: bool, ghost d: Disk) returns (r: int)
    requires Partitioned(d)
    requires entries[..] == ArrayOf(d, Primary) && entrySize == EntrySize(HeaderOf(d, Primary))
    modifies entries
    ensures r == if chain == BackupBoot && !BackupPresent(d, ufs) then 1 else 0
    ensures r == 0 ==> entries[..] == ChainArray(d, chain, ufs)
  {
    hide Read, Number, Product, SwapAll, HasBackup;
    ArrayIsGrid(d);
    r := 0;
    if chain == BackupBoot {
      r := GptBootChainSwap(entries, entrySize, ufs);
    }
  }

  lemma ChainWritesAre(d: Disk, chain: BootChain, ufs: bool)
    requires Partitioned(d)
    ensures ArrayOffset(d, Secondary) == ArrayStart(HeaderOf(d, Secondary), d.blk)
    ensures ArrayOffset(d, Secondary) + |ChainArray(d, chain, ufs)| <= |d.bytes|
    ensures WellFormed(HeaderOf(d, Secondary))
    ensures ChainHeader(d, chain, ufs) == SetArrayCrc(HeaderOf(d, Secondary), Crc(ChainArray(d, chain, ufs)))
    ensures ChainWrites(d, chain, ufs) == [HeaderWrite(d, Secondary, ChainHeader(d, chain, ufs)),
                                           Write(ArrayOffset(d, Secondary), ChainArray(d, chain, ufs), false)]
  {
    hide Read, Number, Product, ChainArray, Crc;
    ArrayIsGrid(d);
  }

  /** gpt2_set_boot_chain: on success the secondary copy describes the chain; with no fault the plan is followed,
      and a fault stops it after some of its writes with -1. */
  method Gpt2SetBootChain(dev: BlockDevice, chain: BootChain, ufs: bool) returns (r: int, ghost done: nat)
    requires Partitioned(dev.Contents())
    modifies dev`faults, dev`log, dev.data
    ensures Did(dev, old(dev.Contents()), old(dev.log), old(dev.faults),
                ChainPlan(old(dev.Contents()), chain, ufs), r, done)
    ensures dev.faults > old(dev.faults) ==> r == -1
  {
    hide ChainArray, BackupPresent, SetArrayCrc, HeaderOf, ArrayOf, ChainWrites;
    done := 0;
    ghost var d := dev.Contents();
    var entries, entrySize, crc;
    r, entries, entrySize, crc := ReadEntries(dev);
    if r != 0 {
      return;
    }
    if crc != Crc(entries[..]) {
      return -1, 0;
    }
    var header: array<byte>;
    r, header := ReadHeader(dev, Secondary);
    if r != 0 {
      return;
    }
    var start := ArrayStart(header[..], dev.blk);
    r := ChainEntries(entries, entrySize, chain, ufs, d);
    if r != 0 {
      return;
    }
    ArrayCrcBuffer(header, Crc(entries[..]));
    ChainWritesAre(d, chain, ufs);
    r, done := WritePair(dev, d, header, start, entries);
  }

  /** One more header write after the writes of a plan that were all made. */
  method ThenSetState(dev: BlockDevice, gpt: Instance, state: GptState,
                      ghost d: Disk, ghost log: seq<Write>, ghost faults: nat, ghost ws: seq<Write>)
    returns (r: int, ghost done: nat)
    requires state != BadCrc
    requires dev.Contents() == ApplyAll(d, ws) && Partitioned(dev.Contents())
    requires dev.log == log + ws && dev.faults == faults
    modifies dev`faults, dev`log, dev.data
    ensures Did(dev, d, log, faults, Plan(0, ws + [StateWrite(old(dev.Contents()), gpt, state == Ok)]), r, done)
  {
    hide Partitioned;
    ghost var w := StateWrite(dev.Contents(), gpt, state == Ok);
    done := |ws|;
    assert (ws + [w])[..|ws|] == ws;
    r := GptSetState(dev, gpt, state);
    if r == 0 {
      done := |ws| + 1;
      assert (ws + [w])[..|ws| + 1] == ws + [w];
      ApplyAllAppend(d, ws, [w]);
      ApplyOne(ApplyAll(d, ws), w);
    }
  }

  /** UPDATE_MAIN: point the secondary copy at the backup partitions, then clear the primary's signature. */
  method StageMain(dev: BlockDevice, platform: Platform) returns (r: int, ghost done: nat)
    requires Partitioned(dev.Contents())
    modifies dev`faults, dev`log, dev.data
    ensures Did(dev, old(dev.Contents()), old(dev.log), old(dev.faults),
                MainPlan(old(dev.Contents()), platform), r, done)
  {
    hide Partitioned, ChainWrites, StateWrite, BackupPresent;
    ghost var d, log, faults := dev.Contents(), dev.log, dev.faults;
    if platform == Ufs(SwitchFailed) {
      return -1, 0;
    }
    ghost var ws := ChainPlan(d, BackupBoot, platform.Ufs?).writes;
    ChainKeeps(d, BackupBoot, platform.Ufs?);
    r, done := Gpt2SetBootChain(dev, BackupBoot, platform.Ufs?);
    assert ws[..|ws|] == ws;
    assert forall w :: (ws + [w])[..done] == ws[..done];
    if r != 0 {
      if r > 0 {
        r := 0;
      }
      return;
    }
    r, done := ThenSetState(dev, Primary, BadSignature, d, log, faults, ws);
  }

  /** UPDATE_BACKUP: fix the primary's signature, then clear the secondary's. */
  method StageBackup(dev: BlockDevice, platform: Platform) returns (r: int, ghost done: nat)
    requires Partitioned(dev.Contents())
    modifies dev`faults, dev`log, dev.data
    ensures Did(dev, old(dev.Contents()), old(dev.log), old(dev.faults),
                BackupPlan(old(dev.Contents()), platform), r, done)
  {
    hide Partitioned, StateWrite;
    ghost var d, log, faults := dev.Contents(), dev.log, dev.faults;
    done := 0;
    if platform == Ufs(SwitchFailed) {
      return -1, 0;
    }
    ghost var w := StateWrite(d, Primary, true);
    StateWriteKeeps(d, Primary, true);
    r := GptSetState(dev, Primary, Ok);
    if r != 0 {
      return;
    }
    ApplyOne(d, w);
    assert forall x :: [w] + [x] == [w, x];
    r, done := ThenSetState(dev, Secondary, BadSignature, d, log, faults, [w]);
  }

  /** UPDATE_FINALIZE: copy the primary's entries to the secondary, then fix the secondary's signature. */
  method StageFinalize(dev: BlockDevice, platform: Platform) returns (r: int, ghost done: nat)
    requires Partitioned(dev.Contents())
    modifies dev`faults, dev`log, dev.data
    ensures Did(dev, old(dev.Contents()), old(dev.log), old(dev.faults),
                FinalizePlan(old(dev.Contents()), platform), r, done)
  {
    hide Partitioned, ChainWrites, StateWrite, BackupPresent;
    ghost var d, log, faults := dev.Contents(), dev.log, dev.faults;
    ghost var ws := ChainPlan(d, NormalBoot, platform.Ufs?).writes;
    ChainKeeps(d, NormalBoot, platform.Ufs?);
    r, done := Gpt2SetBootChain(dev, NormalBoot, platform.Ufs?);
    assert ws[..|ws|] == ws;
    assert forall w :: (ws + [w])[..done] == ws[..done];
    if r < 0 {
      return;
    }
    r, done := ThenSetState(dev, Secondary, Ok, d, log, faults, ws);
  }

  /** prepare_partitions: with no fault the plan for the disk and stage is followed to the end; a fault makes the
      call fail after some of the plan's writes. */
  method PreparePartitions(dev: BlockDevice, platform: Platform, stage: int) returns (r: int, ghost done: nat)
    requires Preparable(dev.Contents())
    modifies dev`faults, dev`log, dev.data
    ensures Did(dev, old(dev.Contents()), old(dev.log), old(dev.faults),
                PreparePlan(old(dev.Contents()), platform, stage), r, done)
  {
    hide Partitioned, State, MainPlan, BackupPlan, FinalizePlan;
    done := 0;
    r := dev.Attempt();
    if r != 0 {
      return -1, 0;
    }
    var prim, second := Ok, Ok;
    r, prim := GptGetState(dev, Primary);
    if r == 0 {
      r, second := GptGetState(dev, Secondary);
    }
    if r != 0 {
      return 1, 0;
    }
    if prim == BadCrc || second == BadCrc {
      return -1, 0;
    }
    if prim == BadSignature && second == BadSignature {
      return -1, 0;
    }
    var internal := if prim == Ok && second == Ok then UPDATE_MAIN
                    else if prim == BadSignature then UPDATE_BACKUP
                    else UPDATE_FINALIZE;
    if stage == internal - 1 {
      return 0, 0;
    }
    if stage != internal {
      return -1, 0;
    }
    if stage == UPDATE_MAIN {
      r, done := StageMain(dev, platform);
    } else if stage == UPDATE_BACKUP {
      r, done := StageBackup(dev, platform);
    } else {
      r, done := StageFinalize(dev, platform);
    }
  }
}
