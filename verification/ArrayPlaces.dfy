/** Where on the device headers and arrays are read and written, in numbers taken from the bytes of the headers. */
module ArrayPlaces {
  import opened Bytes
  import opened Disk
  import opened HandlePlan
  import opened Header
  import opened HeaderFields
  import opened StagedPlan

  const TWO_TO_THE_64: nat := 0x1_0000_0000_0000_0000

  /** A header is one block: the second of the disk, or the last. */
  lemma HeaderBlocks(d: Disk)
    requires Sized(d)
    ensures HeaderOf(d, Primary) == d.bytes[d.blk..2 * d.blk]
    ensures HeaderOf(d, Secondary) == d.bytes[|d.bytes| - d.blk..]
  {
    ReadIsSlice(d.bytes, d.blk, d.blk);
    ReadIsSlice(d.bytes, |d.bytes| - d.blk, d.blk);
  }

  lemma EntryFromBytes(h: seq<byte>, lba: nat, count: nat, size: nat)
    requires Places(h, lba, count, size)
    ensures EntrySize(h) == size
  {
    FieldsFromBytes(h, size);
  }

  /** Loading takes the two header blocks, and each array from the LBA and in the size its own header's bytes state. */
  lemma LoadPlaces(d: Disk, lba: nat, count: nat, size: nat, lbaBak: nat, countBak: nat, sizeBak: nat)
    requires Loadable(d)
    requires Places(d.bytes[d.blk..2 * d.blk], lba, count, size)
    requires Places(d.bytes[|d.bytes| - d.blk..], lbaBak, countBak, sizeBak)
    ensures Load(d).hdr == d.bytes[d.blk..2 * d.blk] && Load(d).hdrBak == d.bytes[|d.bytes| - d.blk..]
    ensures var off, n := lba * d.blk % TWO_TO_THE_64, count * size % 0x1_0000_0000;
      off + n <= |d.bytes| && Load(d).arr == d.bytes[off..off + n]
    ensures var off, n := lbaBak * d.blk % TWO_TO_THE_64, countBak * sizeBak % 0x1_0000_0000;
      off + n <= |d.bytes| && Load(d).arrBak == d.bytes[off..off + n]
    ensures Load(d).arrSize == count * size % 0x1_0000_0000 && Load(d).entrySize == size
  {
    hide Places, Read, HeaderOf, ArrayStart, ArraySize, WellFormed, EntrySize, Octetwise;
    HeaderBlocks(d);
    ArrayFromBytes(HeaderOf(d, Primary), d.blk, lba, count, size);
    ArrayFromBytes(HeaderOf(d, Secondary), d.blk, lbaBak, countBak, sizeBak);
    EntryFromBytes(HeaderOf(d, Primary), lba, count, size);
    ReadIsSlice(d.bytes, ArrayOffset(d, Primary), ArrayLength(d, Primary));
    ReadIsSlice(d.bytes, ArrayOffset(d, Secondary), ArrayLength(d, Secondary));
  }

  /** A commit writes the header blocks, and each array at the LBA its own header's bytes state. */
  lemma CommitPlaces(d: Disk, h: Handle, lba: nat, count: nat, size: nat, lbaBak: nat, countBak: nat, sizeBak: nat)
    requires Sized(d) && Shaped(h) && Places(h.hdr, lba, count, size) && Places(h.hdrBak, lbaBak, countBak, sizeBak)
    ensures CommitWrites(d, h) == [
      Write(d.blk, h.hdr, true), Write(lba * h.blk % TWO_TO_THE_64, h.arr, false),
      Write(|d.bytes| - d.blk, h.hdrBak, true), Write(lbaBak * h.blk % TWO_TO_THE_64, h.arrBak, false)]
    ensures |h.arr| == count * size % 0x1_0000_0000 && |h.arrBak| == countBak * sizeBak % 0x1_0000_0000
  {
    hide Places, ArrayStart, ArraySize, HeaderSize;
    ArrayFromBytes(h.hdr, h.blk, lba, count, size);
    ArrayFromBytes(h.hdrBak, h.blk, lbaBak, countBak, sizeBak);
  }

  /** The boot-chain switch writes the last block, and an array of the primary's size at the LBA that block states. */
  lemma ChainPlaces(d: Disk, chain: BootChain, ufs: bool, lba: nat, count: nat, size: nat)
    requires Partitioned(d) && Places(d.bytes[|d.bytes| - d.blk..], lba, count, size)
    ensures ChainWrites(d, chain, ufs) == [
      Write(|d.bytes| - d.blk, ChainHeader(d, chain, ufs), true),
      Write(lba * d.blk % TWO_TO_THE_64, ChainArray(d, chain, ufs), false)]
    ensures |ChainHeader(d, chain, ufs)| == d.blk && |ChainArray(d, chain, ufs)| == count * size % 0x1_0000_0000
  {
    hide Places, Partitioned, Read, HeaderOf, ArrayStart, ArraySize, ChainArray, ChainHeader;
    PartitionedIsSized(d);
    HeaderBlocks(d);
    ArrayIsGrid(d);
    ArrayFromBytes(HeaderOf(d, Secondary), d.blk, lba, count, size);
  }
}
