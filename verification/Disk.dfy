/** The bytes of a disk with two GPT copies, the writes the updater makes, and what a power cut leaves of them. */
module Disk {
  import opened Bytes
  import opened Crc32
  import opened Header
  import opened Entries
  import opened Wrappers

  datatype Disk = Disk(bytes: seq<byte>, blk: nat)

  datatype Instance = Primary | Secondary

  /** A device write. A header is one block and is written whole or not at all; an entry array can be torn. */
  datatype Write = Write(off: nat, data: seq<byte>, whole: bool)

  /** What a call is to return and to write when no device operation fails. */
  datatype Plan = Plan(ret: int, writes: seq<Write>)

  // ----- layout

  predicate Sized(d: Disk) {
    HEADER_MINIMUM <= d.blk && 3 * d.blk <= |d.bytes|
  }

  /** The primary header is in the second block, the secondary in the last. */
  function HeaderOffset(d: Disk, gpt: Instance): nat
    requires Sized(d)
  {
    if gpt == Primary then d.blk else |d.bytes| - d.blk
  }

  function HeaderOf(d: Disk, gpt: Instance): (h: seq<byte>)
    requires Sized(d)
    ensures |h| == d.blk
  {
    Read(d.bytes, HeaderOffset(d, gpt), d.blk)
  }

  lemma HeaderPlace(d: Disk, e: Disk, gpt: Instance)
    requires Sized(d) && e.blk == d.blk && |e.bytes| == |d.bytes|
    ensures HeaderOf(e, gpt) == Read(e.bytes, HeaderOffset(d, gpt), d.blk)
  {
  }

  function ArrayOffset(d: Disk, gpt: Instance): nat
    requires Sized(d)
  {
    ArrayStart(HeaderOf(d, gpt), d.blk)
  }

  function ArrayLength(d: Disk, gpt: Instance): nat
    requires Sized(d)
  {
    ArraySize(HeaderOf(d, gpt))
  }

  predicate HeadersFit(d: Disk) {
    Sized(d) && WellFormed(HeaderOf(d, Primary)) && WellFormed(HeaderOf(d, Secondary))
  }

  /** The array lies on the disk. */
  predicate ArrayFits(d: Disk, gpt: Instance)
    requires Sized(d)
  {
    ArrayOffset(d, gpt) + ArrayLength(d, gpt) <= |d.bytes|
  }

  /** Headers fit their blocks and each array lies on the disk. */
  predicate Readable(d: Disk) {
    HeadersFit(d) && ArrayFits(d, Primary) && ArrayFits(d, Secondary)
  }

  /** No array shares a byte with a header or with the other array. */
  predicate Separate(d: Disk)
    requires Readable(d)
  {
    var p, m := ArrayOffset(d, Primary), ArrayLength(d, Primary);
    var q, n := ArrayOffset(d, Secondary), ArrayLength(d, Secondary);
    && Disjoint(p, m, q, n)
    && Disjoint(p, m, d.blk, d.blk) && Disjoint(p, m, |d.bytes| - d.blk, d.blk)
    && Disjoint(q, n, d.blk, d.blk) && Disjoint(q, n, |d.bytes| - d.blk, d.blk)
  }

  /** A partitioned disk: both copies describe arrays of the same shape, each in a place of its own. */
  predicate Partitioned(d: Disk) {
    && Readable(d) && Separate(d)
    && var h, g := HeaderOf(d, Primary), HeaderOf(d, Secondary);
      && EntryCount(h) == EntryCount(g) && EntrySize(h) == EntrySize(g)
      && PTN_ENTRY_SIZE <= EntrySize(h)
      && Product(EntryCount(h), EntrySize(h)) < 0x1_0000_0000
  }

  function ArrayOf(d: Disk, gpt: Instance): (a: seq<byte>)
    requires Sized(d) && ArrayFits(d, gpt)
    ensures |a| == ArrayLength(d, gpt)
  {
    Read(d.bytes, ArrayOffset(d, gpt), ArrayLength(d, gpt))
  }

  lemma PartitionedIsSized(d: Disk)
    requires Partitioned(d)
    ensures Sized(d) && ArrayFits(d, Primary) && ArrayFits(d, Secondary) && Readable(d)
  {
  }

  lemma ArrayIsGrid(d: Disk)
    requires Partitioned(d)
    ensures Multiple(ArrayLength(d, Primary), EntrySize(HeaderOf(d, Primary)))
    ensures ArrayLength(d, Secondary) == ArrayLength(d, Primary)
  {
    var h := HeaderOf(d, Primary);
    ProductIsMultiple(EntryCount(h), EntrySize(h));
  }

  // ----- reading a GPT as firmware does (UEFI Specification, section 5.3.2)

  /** Signature and header CRC right, the header in the block it names, and the array CRC right. */
  predicate Valid(d: Disk, gpt: Instance)
    requires Readable(d)
  {
    && State(HeaderOf(d, gpt)) == Ok
    && Product(OwnLba(HeaderOf(d, gpt)), d.blk) == HeaderOffset(d, gpt)
    && ArrayCrc(HeaderOf(d, gpt)) == Crc(ArrayOf(d, gpt))
  }

  /** The entries a reader uses: the primary copy's when it is valid, else the backup's when that is. */
  function Boot(d: Disk): Option<seq<byte>>
    requires Readable(d)
  {
    if Valid(d, Primary) then Some(ArrayOf(d, Primary))
    else if Valid(d, Secondary) then Some(ArrayOf(d, Secondary))
    else None
  }

  /** What a reader finds on a disk, if it can be read at all. */
  predicate Sees(d: Disk, entries: Option<seq<byte>>) {
    Readable(d) && Boot(d) == entries
  }

  /** Both copies valid and describing the same partitions. */
  predicate InSync(d: Disk) {
    && Partitioned(d)
    && Valid(d, Primary) && Valid(d, Secondary)
    && ArrayOf(d, Primary) == ArrayOf(d, Secondary)
  }

  lemma SyncIsPartitioned(d: Disk)
    requires InSync(d)
    ensures Partitioned(d) && Sized(d) && ArrayFits(d, Primary)
  {
  }

  // ----- writes

  predicate Fits(d: Disk, w: Write) {
    w.off + |w.data| <= |d.bytes|
  }

  function Apply(d: Disk, w: Write): (r: Disk)
    ensures |r.bytes| == |d.bytes| && r.blk == d.blk
  {
    if Fits(d, w) then Disk(Splice(d.bytes, w.off, w.data), d.blk) else d
  }

  function ApplyAll(d: Disk, ws: seq<Write>): (r: Disk)
    ensures |r.bytes| == |d.bytes| && r.blk == d.blk
    decreases |ws|
  {
    if ws == [] then d else ApplyAll(Apply(d, ws[0]), ws[1..])
  }

  /** What an interrupted array write can leave: each byte of the region old or new, the rest untouched. */
  ghost predicate Torn(d: Disk, w: Write, r: Disk) {
    && !w.whole && r.blk == d.blk && |r.bytes| == |d.bytes|
    && forall i :: 0 <= i < |d.bytes| ==> r.bytes[i] == d.bytes[i] || r.bytes[i] == Apply(d, w).bytes[i]
  }

  /** What a power cut at any moment of a sequence of writes can leave. */
  ghost predicate Cut(d: Disk, ws: seq<Write>, r: Disk)
    decreases |ws|
  {
    || r == d
    || (ws != [] && (Torn(d, ws[0], r) || Cut(Apply(d, ws[0]), ws[1..], r)))
  }

  lemma {:induction false} ApplyAllAppend(d: Disk, ws: seq<Write>, us: seq<Write>)
    ensures ApplyAll(d, ws + us) == ApplyAll(ApplyAll(d, ws), us)
    decreases |ws|
  {
    if ws == [] {
      assert ws + us == us;
    } else {
      assert (ws + us)[0] == ws[0] && (ws + us)[1..] == ws[1..] + us;
      ApplyAllAppend(Apply(d, ws[0]), ws[1..], us);
    }
  }

  /** Completing the writes, or stopping after any of them, is among the cuts. */
  lemma {:induction false} PrefixIsCut(d: Disk, ws: seq<Write>, k: nat)
    requires k <= |ws|
    ensures Cut(d, ws, ApplyAll(d, ws[..k]))
    decreases k
  {
    if k == 0 {
    } else {
      assert ws[..k][0] == ws[0] && ws[..k][1..] == ws[1..][..k - 1];
      PrefixIsCut(Apply(d, ws[0]), ws[1..], k - 1);
    }
  }

  // ----- writing again

  /** Byte `i` is in the region of one of the writes. */
  predicate Written(d: Disk, ws: seq<Write>, i: int) {
    exists w :: w in ws && Fits(d, w) && w.off <= i < w.off + |w.data|
  }

  lemma {:induction false} CutStaysInside(d: Disk, ws: seq<Write>, r: Disk)
    requires Cut(d, ws, r)
    ensures r.blk == d.blk && |r.bytes| == |d.bytes|
    ensures forall i :: 0 <= i < |d.bytes| && !Written(d, ws, i) ==> r.bytes[i] == d.bytes[i]
    decreases |ws|
  {
    if r == d {
    } else if Torn(d, ws[0], r) {
      assert ws[0] in ws;
    } else {
      var e := Apply(d, ws[0]);
      CutStaysInside(e, ws[1..], r);
      forall i | 0 <= i < |d.bytes| && !Written(d, ws, i) ensures r.bytes[i] == d.bytes[i] {
        assert ws[0] in ws;
        assert !Written(e, ws[1..], i);
      }
    }
  }

  lemma WrittenFirstOrLater(d: Disk, ws: seq<Write>, i: int)
    requires ws != [] && Written(d, ws, i)
    ensures (Fits(d, ws[0]) && ws[0].off <= i < ws[0].off + |ws[0].data|) || Written(Apply(d, ws[0]), ws[1..], i)
  {
    var w :| w in ws && Fits(d, w) && w.off <= i < w.off + |w.data|;
    assert w == ws[0] || w in ws[1..];
  }

  /** Disks that differ only where they will be written are the same once they are. */
  lemma {:induction false} WritesDecide(d: Disk, e: Disk, ws: seq<Write>)
    requires d.blk == e.blk && |d.bytes| == |e.bytes|
    requires forall i :: 0 <= i < |d.bytes| && !Written(d, ws, i) ==> d.bytes[i] == e.bytes[i]
    ensures ApplyAll(d, ws) == ApplyAll(e, ws)
    decreases |ws|
  {
    if ws == [] {
      assert forall i :: 0 <= i < |d.bytes| ==> !Written(d, ws, i);
      assert d.bytes == e.bytes;
    } else {
      var f, g := Apply(d, ws[0]), Apply(e, ws[0]);
      forall i | 0 <= i < |f.bytes| && !Written(f, ws[1..], i) ensures f.bytes[i] == g.bytes[i] {
        if Written(d, ws, i) {
          WrittenFirstOrLater(d, ws, i);
        }
      }
      WritesDecide(f, g, ws[1..]);
    }
  }

  /** Writes that were interrupted anywhere and are then made again leave what they would have left at first. */
  lemma WritesRepeat(d: Disk, ws: seq<Write>, r: Disk)
    requires Cut(d, ws, r)
    ensures ApplyAll(r, ws) == ApplyAll(d, ws)
  {
    CutStaysInside(d, ws, r);
    WritesDecide(d, r, ws);
  }

  // ----- what one write changes

  function HeaderWrite(d: Disk, gpt: Instance, h: seq<byte>): Write
    requires Sized(d)
  {
    Write(HeaderOffset(d, gpt), h, true)
  }

  function ArrayWrite(d: Disk, gpt: Instance, a: seq<byte>): Write
    requires Sized(d)
  {
    Write(ArrayOffset(d, gpt), a, false)
  }

  function Other(gpt: Instance): Instance {
    if gpt == Primary then Secondary else Primary
  }

  /** Where everything lies is decided by the geometry bytes of the two headers. */
  lemma SameLayout(d: Disk, e: Disk)
    requires Partitioned(d) && e.blk == d.blk && |e.bytes| == |d.bytes|
    requires SameGeometry(HeaderOf(d, Primary), HeaderOf(e, Primary))
    requires SameGeometry(HeaderOf(d, Secondary), HeaderOf(e, Secondary))
    ensures Partitioned(e)
    ensures ArrayOffset(e, Primary) == ArrayOffset(d, Primary) && ArrayLength(e, Primary) == ArrayLength(d, Primary)
    ensures ArrayOffset(e, Secondary) == ArrayOffset(d, Secondary)
    ensures ArrayLength(e, Secondary) == ArrayLength(d, Secondary)
  {
    GeometryFields(HeaderOf(d, Primary), HeaderOf(e, Primary), d.blk);
    GeometryFields(HeaderOf(d, Secondary), HeaderOf(e, Secondary), d.blk);
  }

  lemma SameHeadersSameLayout(d: Disk, e: Disk)
    requires Partitioned(d) && e.blk == d.blk && |e.bytes| == |d.bytes|
    requires HeaderOf(d, Primary) == HeaderOf(e, Primary) && HeaderOf(d, Secondary) == HeaderOf(e, Secondary)
    ensures Partitioned(e)
  {
  }

  lemma HeaderReads(d: Disk, gpt: Instance, h: seq<byte>)
    requires Sized(d) && |h| == d.blk
    ensures var e := Apply(d, HeaderWrite(d, gpt, h));
      HeaderOf(e, gpt) == h && HeaderOf(e, Other(gpt)) == HeaderOf(d, Other(gpt))
  {
    hide Read;
    ReadWritten(d.bytes, HeaderOffset(d, gpt), h);
    ReadElsewhere(d.bytes, HeaderOffset(d, gpt), h, HeaderOffset(d, Other(gpt)), d.blk);
  }

  lemma HeaderLayout(d: Disk, gpt: Instance, h: seq<byte>)
    requires Partitioned(d) && SameGeometry(HeaderOf(d, gpt), h)
    ensures var e := Apply(d, HeaderWrite(d, gpt, h));
      && Partitioned(e)
      && ArrayOffset(e, Primary) == ArrayOffset(d, Primary) && ArrayLength(e, Primary) == ArrayLength(d, Primary)
      && ArrayOffset(e, Secondary) == ArrayOffset(d, Secondary)
      && ArrayLength(e, Secondary) == ArrayLength(d, Secondary)
  {
    HeaderReads(d, gpt, h);
    SameLayout(d, Apply(d, HeaderWrite(d, gpt, h)));
  }

  lemma ArrayUnderHeaderWrite(d: Disk, gpt: Instance, h: seq<byte>, arr: Instance)
    requires Partitioned(d) && |h| == d.blk
    ensures var e := Apply(d, HeaderWrite(d, gpt, h));
      Read(e.bytes, ArrayOffset(d, arr), ArrayLength(d, arr)) == ArrayOf(d, arr)
  {
    ReadElsewhere(d.bytes, HeaderOffset(d, gpt), h, ArrayOffset(d, arr), ArrayLength(d, arr));
  }

  /** A header of the same geometry replaces one block and nothing else that is read. */
  lemma HeaderWritten(d: Disk, gpt: Instance, h: seq<byte>)
    requires Partitioned(d) && SameGeometry(HeaderOf(d, gpt), h)
    ensures var e := Apply(d, HeaderWrite(d, gpt, h));
      && Partitioned(e)
      && HeaderOf(e, gpt) == h && HeaderOf(e, Other(gpt)) == HeaderOf(d, Other(gpt))
      && ArrayOffset(e, Primary) == ArrayOffset(d, Primary) && ArrayOffset(e, Secondary) == ArrayOffset(d, Secondary)
      && ArrayOf(e, Primary) == ArrayOf(d, Primary) && ArrayOf(e, Secondary) == ArrayOf(d, Secondary)
  {
    HeaderReads(d, gpt, h);
    HeaderLayout(d, gpt, h);
    ArrayUnderHeaderWrite(d, gpt, h, Primary);
    ArrayUnderHeaderWrite(d, gpt, h, Secondary);
  }

  /** Everywhere but in one array, `e` is `d`. */
  ghost predicate SameOutside(d: Disk, gpt: Instance, e: Disk)
    requires Sized(d)
  {
    && e.blk == d.blk && |e.bytes| == |d.bytes|
    && var off, n := ArrayOffset(d, gpt), ArrayLength(d, gpt);
      forall i :: 0 <= i < |d.bytes| && !(off <= i < off + n) ==> e.bytes[i] == d.bytes[i]
  }

  lemma RunOutside(d: Disk, gpt: Instance, e: Disk, p: nat, n: nat)
    requires Sized(d) && SameOutside(d, gpt, e) && p + n <= |d.bytes|
    requires Disjoint(ArrayOffset(d, gpt), ArrayLength(d, gpt), p, n)
    ensures Read(e.bytes, p, n) == Read(d.bytes, p, n)
  {
    SameRead(d.bytes, e.bytes, p, n);
  }

  lemma HeaderOutside(d: Disk, gpt: Instance, e: Disk, hdr: Instance)
    requires Partitioned(d) && SameOutside(d, gpt, e)
    ensures HeaderOf(e, hdr) == HeaderOf(d, hdr)
  {
    RunOutside(d, gpt, e, HeaderOffset(d, hdr), d.blk);
  }

  lemma ArrayOutside(d: Disk, gpt: Instance, e: Disk)
    requires Partitioned(d) && SameOutside(d, gpt, e)
    ensures Read(e.bytes, ArrayOffset(d, Other(gpt)), ArrayLength(d, Other(gpt))) == ArrayOf(d, Other(gpt))
  {
    RunOutside(d, gpt, e, ArrayOffset(d, Other(gpt)), ArrayLength(d, Other(gpt)));
  }

  /** A disk that differs from `d` only inside one array still has the headers and the other array. */
  lemma ArrayTouched(d: Disk, gpt: Instance, e: Disk)
    requires Partitioned(d) && SameOutside(d, gpt, e)
    ensures Partitioned(e)
    ensures HeaderOf(e, Primary) == HeaderOf(d, Primary) && HeaderOf(e, Secondary) == HeaderOf(d, Secondary)
    ensures ArrayOf(e, Other(gpt)) == ArrayOf(d, Other(gpt))
  {
    HeaderOutside(d, gpt, e, Primary);
    HeaderOutside(d, gpt, e, Secondary);
    SameHeadersSameLayout(d, e);
    ArrayOutside(d, gpt, e);
  }

  /** Writing an array replaces that array and nothing else that is read. */
  lemma ArrayWritten(d: Disk, gpt: Instance, a: seq<byte>)
    requires Partitioned(d) && |a| == ArrayLength(d, gpt)
    ensures var e := Apply(d, ArrayWrite(d, gpt, a));
      && SameOutside(d, gpt, e) && Partitioned(e)
      && HeaderOf(e, Primary) == HeaderOf(d, Primary) && HeaderOf(e, Secondary) == HeaderOf(d, Secondary)
      && ArrayOf(e, Other(gpt)) == ArrayOf(d, Other(gpt)) && ArrayOf(e, gpt) == a
  {
    var e := Apply(d, ArrayWrite(d, gpt, a));
    ArrayTouched(d, gpt, e);
    ReadWritten(d.bytes, ArrayOffset(d, gpt), a);
  }

  lemma ApplyOne(d: Disk, w: Write)
    ensures ApplyAll(d, [w]) == Apply(d, w)
  {
    assert [w][1..] == [];
  }

  lemma ApplyTwo(d: Disk, w: Write, u: Write)
    ensures ApplyAll(d, [w, u]) == Apply(Apply(d, w), u)
  {
    ApplyOne(Apply(d, w), u);
    assert [w, u][1..] == [u];
  }
}
