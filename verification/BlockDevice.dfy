/** The block device behind the file descriptor: reads and writes that either work or report failure and do
    nothing, and a log of the writes that were made. */
module Device {
  import opened Bytes
  import opened Disk

  class BlockDevice {
    const blk: nat
    const data: array<byte>
    /** Every write made, in order. */
    ghost var log: seq<Write>
    /** How many operations have failed. */
    ghost var faults: nat

    constructor (data: array<byte>, blk: nat)
      ensures this.data == data && this.blk == blk && log == [] && faults == 0
    {
      this.data, this.blk := data, blk;
      log, faults := [], 0;
    }

    ghost function Contents(): Disk
      reads data
    {
      Disk(data[..], blk)
    }

    /** blk_rw reading: fills the buffer from the device, or fails, as it does past the end of the device. */
    method BlkRead(off: nat, buf: array<byte>) returns (r: int)
      requires buf != data
      modifies buf, this`faults
      ensures r == 0 || r == -1
      ensures r == 0 ==> off + buf.Length <= data.Length
      ensures r == 0 ==> buf[..] == Read(data[..], off, buf.Length) && faults == old(faults)
      ensures r == -1 ==> faults == old(faults) + 1
    {
      var fails := *;
      if fails || off + buf.Length > data.Length {
        faults := faults + 1;
        return -1;
      }
      Memcpy(buf, 0, data, off, buf.Length);
      ReadIsSlice(data[..], off, buf.Length);
      return 0;
    }

    /** blk_rw writing: puts the buffer on the device, or fails, as it does past the end of the device. */
    method BlkWrite(off: nat, buf: array<byte>, ghost whole: bool) returns (r: int)
      requires buf != data
      modifies data, this`log, this`faults
      ensures r == 0 || r == -1
      ensures r == 0 ==> off + buf.Length <= data.Length
      ensures r == 0 ==> faults == old(faults) && log == old(log) + [Write(off, buf[..], whole)]
      ensures r == 0 ==> Contents() == Apply(old(Contents()), Write(off, buf[..], whole))
      ensures r == -1 ==> faults == old(faults) + 1 && log == old(log) && Contents() == old(Contents())
    {
      var fails := *;
      if fails || off + buf.Length > data.Length {
        faults := faults + 1;
        return -1;
      }
      Memcpy(data, off, buf, 0, buf.Length);
      assert buf[..][0..buf.Length] == buf[..];
      log := log + [Write(off, buf[..], whole)];
      return 0;
    }

    /** An operation of the device that is not part of this model, such as opening it: it may fail. */
    method Attempt() returns (r: int)
      modifies this`faults
      ensures r == 0 || r == -1
      ensures r == 0 ==> faults == old(faults)
      ensures r == -1 ==> faults == old(faults) + 1
    {
      if * {
        faults := faults + 1;
        return -1;
      }
      return 0;
    }
  }

  /** What a call with plan `p` made of the device that held `d`, had made the writes of `log` and seen `faults`
      failures: the first `done` writes of the plan, all of them unless an operation failed. */
  ghost predicate Did(dev: BlockDevice, d: Disk, log: seq<Write>, faults: nat, p: Plan, r: int, done: nat)
    reads dev, dev.data
  {
    && done <= |p.writes|
    && dev.log == log + p.writes[..done]
    && dev.Contents() == ApplyAll(d, p.writes[..done])
    && dev.faults >= faults
    && (dev.faults == faults ==> r == p.ret && done == |p.writes|)
    && (dev.faults > faults ==> r != 0)
  }

  /** Reads the block of one header into a new buffer. */
  method ReadHeader(dev: BlockDevice, gpt: Instance) returns (r: int, header: array<byte>)
    requires Sized(dev.Contents())
    modifies dev`faults
    ensures fresh(header) && header.Length == dev.blk
    ensures r == 0 || r == -1
    ensures r == 0 ==> header[..] == HeaderOf(dev.Contents(), gpt) && dev.faults == old(dev.faults)
    ensures r == -1 ==> dev.faults > old(dev.faults)
  {
    header := new byte[dev.blk];
    var offset := if gpt == Primary then dev.blk else dev.data.Length - dev.blk;
    r := dev.BlkRead(offset, header);
  }
}
