/** struct gpt_disk and the calls on it. */
module GptHandle {
  import opened Bytes
  import opened Crc32
  import opened Header
  import opened HeaderBuffer
  import opened Entries
  import opened Disk
  import opened Device
  import opened HandlePlan
  import opened Wrappers

  /** crc32 over the first `n` bytes of a buffer. */
  method CrcOver(buf: array<byte>, n: nat) returns (crc: word)
    requires n <= buf.Length
    ensures crc == Crc(buf[..][..n])
  {
    assert buf[..][..n] == buf[..n];
    crc := Crc(buf[..n]);
  }

  /** gpt_get_pentry_arr: the array the header places, in a new buffer. */
  method ReadPentryArr(hdr: array<byte>, dev: BlockDevice, ghost gpt: Instance) returns (r: int, arr: array<byte>)
    requires Sized(dev.Contents()) && hdr[..] == HeaderOf(dev.Contents(), gpt)
    modifies dev`faults
    ensures fresh(arr)
    ensures r == 0 || r == -1
    ensures r == 0 ==> ArrayFits(dev.Contents(), gpt)
    ensures r == 0 ==> arr[..] == ArrayOf(dev.Contents(), gpt) && dev.faults == old(dev.faults)
    ensures r == -1 ==> dev.faults > old(dev.faults)
  {
    hide Read, Number, Product;
    arr := new byte[ArraySize(hdr[..])];
    r := dev.BlkRead(ArrayStart(hdr[..], dev.blk), arr);
  }

  /** The four buffers of a handle, read one after the other. */
  method LoadBuffers(dev: BlockDevice)
    returns (r: int, p: array<byte>, q: array<byte>, a: array<byte>, b: array<byte>)
    requires Sized(dev.Contents())
    modifies dev`faults
    ensures r == 0 || r == -1
    ensures r == -1 ==> dev.faults > old(dev.faults)
    ensures r == 0 ==> dev.faults == old(dev.faults)
    ensures r == 0 ==> ArrayFits(dev.Contents(), Primary) && ArrayFits(dev.Contents(), Secondary)
    ensures r == 0 ==> fresh(p) && fresh(q) && fresh(a) && fresh(b)
    ensures r == 0 ==> p != q && p != a && p != b && q != a && q != b && a != b
    ensures r == 0 ==> p[..] == HeaderOf(dev.Contents(), Primary) && q[..] == HeaderOf(dev.Contents(), Secondary)
    ensures r == 0 ==> a[..] == ArrayOf(dev.Contents(), Primary) && b[..] == ArrayOf(dev.Contents(), Secondary)
  {
    hide Number, Product, ArrayStart, ArraySize, Read, WellFormed;
    p, q, a, b := new byte[0], new byte[0], new byte[0], new byte[0];
    r, p := ReadHeader(dev, Primary);
    if r == 0 {
      r, q := ReadHeader(dev, Secondary);
    }
    if r == 0 {
      r, a := ReadPentryArr(p, dev, Primary);
    }
    if r == 0 {
      r, b := ReadPentryArr(q, dev, Secondary);
    }
  }

  /** The CRC update on the four buffers; only the headers change. */
  method UpdateBuffers(hdr: array<byte>, hdrBak: array<byte>, arr: array<byte>, arrBak: array<byte>, arrSize: nat)
    returns (hdrCrc: word, hdrBakCrc: word, arrCrc: word, arrBakCrc: word)
    requires hdr != hdrBak && hdr != arr && hdr != arrBak && hdrBak != arr && hdrBak != arrBak
    requires HEADER_MINIMUM <= hdr.Length == hdrBak.Length && HeaderSize(hdr[..]) <= hdr.Length
    requires arr.Length == arrSize <= arrBak.Length
    modifies hdr, hdrBak
    ensures arrCrc == Crc(arr[..]) && arrBakCrc == Crc(arrBak[..][..arrSize])
    ensures var n, p := HeaderSize(old(hdr[..])), Put4(old(hdr[..]), PARTITION_CRC_OFFSET, arrCrc);
      hdr[..] == SealOver(p, n) && hdrCrc == Crc(Put4(p, HEADER_CRC_OFFSET, 0)[..n])
    ensures var n, q := HeaderSize(old(hdr[..])), Put4(old(hdrBak[..]), PARTITION_CRC_OFFSET, arrBakCrc);
      hdrBak[..] == SealOver(q, n) && hdrBakCrc == Crc(Put4(q, HEADER_CRC_OFFSET, 0)[..n])
  {
    ghost var h := hdr[..];
    assert arr[..][..arrSize] == arr[..];
    arrCrc := CrcOver(arr, arrSize);
    arrBakCrc := CrcOver(arrBak, arrSize);
    PutFour(hdr, PARTITION_CRC_OFFSET, arrCrc);
    PutFour(hdrBak, PARTITION_CRC_OFFSET, arrBakCrc);
    SameSize(h, hdr[..]);
    var size := HeaderSize(hdr[..]);
    hdrCrc := SealBufferOver(hdr, size);
    hdrBakCrc := SealBufferOver(hdrBak, size);
  }

  lemma WriteNext(d: Disk, ws: seq<Write>, i: nat)
    requires i < |ws|
    ensures ws[..i + 1] == ws[..i] + [ws[i]]
    ensures ApplyAll(d, ws[..i + 1]) == Apply(ApplyAll(d, ws[..i]), ws[i])
  {
    assert ws[..i + 1] == ws[..i] + [ws[i]];
    ApplyAllAppend(d, ws[..i], [ws[i]]);
    ApplyOne(ApplyAll(d, ws[..i]), ws[i]);
  }

  /** The next write of a sequence of which the first `k` were made. */
  method NextWrite(dev: BlockDevice, off: nat, buf: array<byte>,
                   ghost d: Disk, ghost log: seq<Write>, ghost faults: nat, ghost ws: seq<Write>, ghost k: nat)
    returns (r: int, ghost done: nat)
    requires buf != dev.data
    requires k < |ws| && ws[k].off == off && ws[k].data == buf[..]
    requires Did(dev, d, log, faults, Plan(0, ws[..k]), 0, k) && dev.faults == faults
    modifies dev`faults, dev`log, dev.data
    ensures r == 0 || r == -1
    ensures r == 0 ==> done == k + 1 && dev.faults == faults && Did(dev, d, log, faults, Plan(0, ws[..k + 1]), 0, k + 1)
    ensures r == -1 ==> done == k && Did(dev, d, log, faults, Plan(0, ws), r, done)
  {
    assert ws[..k][..k] == ws[..k] && ws[..k + 1][..k + 1] == ws[..k + 1];
    done := k;
    WriteNext(d, ws, k);
    r := dev.BlkWrite(off, buf, ws[k].whole);
    if r == 0 {
      done := k + 1;
    }
  }

  /** The four region writes of a commit. */
  method WriteFour(dev: BlockDevice, hdr: array<byte>, start: nat, arr: array<byte>,
                   hdrBak: array<byte>, startBak: nat, arrBak: array<byte>)
    returns (r: int, ghost done: nat)
    requires Sized(dev.Contents()) && hdr.Length == hdrBak.Length == dev.blk
    requires hdr != dev.data && hdrBak != dev.data && arr != dev.data && arrBak != dev.data
    modifies dev`faults, dev`log, dev.data
    ensures var d := old(dev.Contents());
      var ws := [HeaderWrite(d, Primary, hdr[..]), Write(start, arr[..], false),
                 HeaderWrite(d, Secondary, hdrBak[..]), Write(startBak, arrBak[..], false)];
      Did(dev, d, old(dev.log), old(dev.faults), Plan(0, ws), r, done)
  {
    ghost var d, log, faults := dev.Contents(), dev.log, dev.faults;
    ghost var ws := [HeaderWrite(d, Primary, hdr[..]), Write(start, arr[..], false),
                     HeaderWrite(d, Secondary, hdrBak[..]), Write(startBak, arrBak[..], false)];
    assert ws[..0] == [] && ws[..4] == ws;
    r, done := NextWrite(dev, dev.blk, hdr, d, log, faults, ws, 0);
    if r == 0 {
      r, done := NextWrite(dev, start, arr, d, log, faults, ws, 1);
    }
    if r == 0 {
      r, done := NextWrite(dev, dev.data.Length - dev.blk, hdrBak, d, log, faults, ws, 2);
    }
    if r == 0 {
      r, done := NextWrite(dev, startBak, arrBak, d, log, faults, ws, 3);
    }
  }

  lemma UpdateParts(h: Handle)
    requires Shaped(h) && Covered(h)
    ensures Shaped(HandlePlan.UpdateCrc(h)) && Covered(HandlePlan.UpdateCrc(h))
    ensures
      var n := HeaderSize(h.hdr);
      var p := Put4(h.hdr, PARTITION_CRC_OFFSET, Crc(h.arr));
      var q := Put4(h.hdrBak, PARTITION_CRC_OFFSET, BackupArrayCrc(h));
      HandlePlan.UpdateCrc(h) == h.(
        hdr := SealOver(p, n), hdrBak := SealOver(q, n),
        hdrCrc := Crc(Put4(p, HEADER_CRC_OFFSET, 0)[..n]), hdrBakCrc := Crc(Put4(q, HEADER_CRC_OFFSET, 0)[..n]),
        arrCrc := Crc(h.arr), arrBakCrc := BackupArrayCrc(h))
  {
  }

  class GptDisk {
    var hdr: array<byte>
    var hdrCrc: word
    var hdrBak: array<byte>
    var hdrBakCrc: word
    var arr: array<byte>
    var arrBak: array<byte>
    var arrSize: nat
    var entrySize: nat
    var arrCrc: word
    var arrBakCrc: word
    var blk: nat
    var initialized: bool

    /** gpt_disk_alloc: an empty handle. */
    constructor ()
      ensures !initialized
    {
      hdr, hdrBak, arr, arrBak := new byte[0], new byte[0], new byte[0], new byte[0];
      hdrCrc, hdrBakCrc, arrCrc, arrBakCrc := 0, 0, 0, 0;
      arrSize, entrySize, blk, initialized := 0, 0, 0, false;
    }

    ghost function View(): Handle
      reads this, hdr, hdrBak, arr, arrBak
    {
      Handle(hdr[..], hdrCrc, hdrBak[..], hdrBakCrc, arr[..], arrBak[..], arrSize, entrySize, arrCrc, arrBakCrc, blk)
    }

    /** An initialized handle has four buffers of its own, of the sizes the headers give. */
    ghost predicate Valid()
      reads this, hdr, hdrBak, arr, arrBak
    {
      initialized ==>
        && hdr != hdrBak && hdr != arr && hdr != arrBak && hdrBak != arr && hdrBak != arrBak && arr != arrBak
        && Shaped(View())
    }

    /** The field assignments of a load: the four buffers, then the numbers. */
    method FillBuffers(p: array<byte>, q: array<byte>, a: array<byte>, b: array<byte>)
      modifies this`hdr, this`hdrBak, this`arr, this`arrBak
      ensures hdr == p && hdrBak == q && arr == a && arrBak == b
    {
      hdr, hdrBak, arr, arrBak := p, q, a, b;
    }

    method FillNumbers(pCrc: word, qCrc: word, arrSize: nat, entrySize: nat, arrCrc: word, arrBakCrc: word, blk: nat)
      modifies this`hdrCrc, this`hdrBakCrc, this`arrSize, this`entrySize, this`arrCrc, this`arrBakCrc, this`blk
      modifies this`initialized
      ensures initialized
      ensures View() == Handle(hdr[..], pCrc, hdrBak[..], qCrc, arr[..], arrBak[..], arrSize, entrySize,
                               arrCrc, arrBakCrc, blk)
    {
      hdrCrc, hdrBakCrc, this.arrSize, this.entrySize := pCrc, qCrc, arrSize, entrySize;
      this.arrCrc, this.arrBakCrc, this.blk, initialized := arrCrc, arrBakCrc, blk, true;
    }

    /** gpt_disk_get_disk_info: fills the handle from the disk; a failure leaves it as initialized as it was. */
    method GetDiskInfo(dev: BlockDevice) returns (r: int)
      requires Sized(dev.Contents()) && WellFormed(HeaderOf(dev.Contents(), Primary))
      modifies this, dev`faults
      ensures r == 0 || r == -1
      ensures r == 0 ==> Loadable(dev.Contents()) && dev.faults == old(dev.faults)
      ensures r == 0 ==> initialized && Valid() && View() == Load(dev.Contents())
      ensures r == 0 ==> fresh(hdr) && fresh(hdrBak) && fresh(arr) && fresh(arrBak)
      ensures r == -1 ==> dev.faults > old(dev.faults) && initialized == old(initialized)
    {
      var p, q, a, b: array<byte>;
      r, p, q, a, b := LoadBuffers(dev);
      if r != 0 {
        return;
      }
      var size := HeaderSize(p[..]);
      var pCrc := CrcOver(p, size);
      var qCrc := CrcOver(q, size);
      hide Number, Product, ArrayStart, Crc, Read;
      FillBuffers(p, q, a, b);
      FillNumbers(pCrc, qCrc, ArraySize(p[..]), EntrySize(p[..]), ArrayCrc(p[..]), ArrayCrc(q[..]), dev.blk);
    }

    /** gpt_disk_get_pentry: where the first entry called `name` or its backup twin starts in the chosen array. */
    method GetPentry(name: string, gpt: Instance) returns (r: Option<nat>)
      requires Valid() && NoNul(name)
      requires initialized ==> PTN_ENTRY_SIZE <= entrySize && Multiple(arrSize, entrySize)
      requires initialized && gpt == Secondary ==> Covered(View())
      ensures !initialized ==> r == None
      ensures initialized ==>
        var a := (if gpt == Primary then View().arr else View().arrBak)[..arrSize];
        && (r.Some? ==> Slot(|a|, entrySize, r.value) && r.value + PTN_ENTRY_SIZE <= |a| && Named(a, r.value, name))
        && forall q: nat :: Slot(|a|, entrySize, q) && q + PTN_ENTRY_SIZE <= |a| && (r.Some? ==> q < r.value)
             ==> !Named(a, q, name)
    {
      if !initialized {
        return None;
      }
      if gpt == Primary {
        r := GptPentrySeek(name, arr, 0, arrSize, entrySize);
      } else {
        r := GptPentrySeek(name, arrBak, 0, arrSize, entrySize);
      }
    }

    method SetCrcs(hdrCrc: word, hdrBakCrc: word, arrCrc: word, arrBakCrc: word)
      modifies this`hdrCrc, this`hdrBakCrc, this`arrCrc, this`arrBakCrc
      ensures View() == old(View()).(hdrCrc := hdrCrc, hdrBakCrc := hdrBakCrc, arrCrc := arrCrc, arrBakCrc := arrBakCrc)
    {
      this.hdrCrc, this.hdrBakCrc, this.arrCrc, this.arrBakCrc := hdrCrc, hdrBakCrc, arrCrc, arrBakCrc;
    }

    /** gpt_disk_update_crc: -1 and no change on a handle that was never filled. */
    method UpdateCrc() returns (r: int)
      requires Valid() && (initialized ==> Covered(View()))
      modifies this, hdr, hdrBak
      ensures hdr == old(hdr) && hdrBak == old(hdrBak) && arr == old(arr) && arrBak == old(arrBak)
      ensures initialized == old(initialized) && Valid()
      ensures r == if initialized then 0 else -1
      ensures View() == if initialized then HandlePlan.UpdateCrc(old(View())) else old(View())
    {
      if !initialized {
        return -1;
      }
      ghost var h := View();
      UpdateParts(h);
      hide HandlePlan.UpdateCrc, Number, Crc, SealOver, Put4, HeaderSize;
      var a, b, c, e := UpdateBuffers(hdr, hdrBak, arr, arrBak, arrSize);
      SetCrcs(a, b, c, e);
      return 0;
    }

    /** gpt_disk_commit: the four region writes in order, stopped by the first that fails. */
    method Commit(dev: BlockDevice) returns (r: int, ghost done: nat)
      requires Valid() && hdr != dev.data && hdrBak != dev.data && arr != dev.data && arrBak != dev.data
      requires initialized ==> Writable(dev.Contents(), View())
      modifies dev`faults, dev`log, dev.data
      ensures View() == old(View()) && initialized == old(initialized)
      ensures !initialized ==> r == -1 && dev.log == old(dev.log) && dev.Contents() == old(dev.Contents())
      ensures initialized ==> Did(dev, old(dev.Contents()), old(dev.log), old(dev.faults),
                                  Plan(0, CommitWrites(old(dev.Contents()), View())), r, done)
    {
      done := 0;
      if !initialized {
        return -1, 0;
      }
      hide Number, Product, HeaderSize, Splice;
      ghost var d, log, faults := dev.Contents(), dev.log, dev.faults;
      r := dev.Attempt();
      if r != 0 {
        return;
      }
      var start, startBak := ArrayStart(hdr[..], dev.blk), ArrayStart(hdrBak[..], dev.blk);
      r, done := WriteFour(dev, hdr, start, arr, hdrBak, startBak, arrBak);
    }
  }
}
