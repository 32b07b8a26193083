/** The handle protocol: loading and committing undo each other, and a commit cut anywhere leaves a reader with the
    old entries or the new. */
module HandleProofs {
  import opened Bytes
  import opened Crc32
  import opened Header
  import opened Disk
  import opened HandlePlan
  import opened Wrappers

  // ----- committing what was loaded

  lemma SpliceOfRead(s: seq<byte>, p: nat, n: nat)
    requires p + n <= |s|
    ensures Splice(s, p, Read(s, p, n)) == s
  {
    ReadIsSlice(s, p, n);
  }

  /** Writing back what was read changes nothing. */
  lemma WriteBack(d: Disk, off: nat, n: nat, whole: bool)
    requires off + n <= |d.bytes|
    ensures Apply(d, Write(off, Read(d.bytes, off, n), whole)) == d
  {
    SpliceOfRead(d.bytes, off, n);
  }

  lemma ApplyFour(d: Disk, w: Write, x: Write, y: Write, z: Write)
    ensures ApplyAll(d, [w, x, y, z]) == Apply(Apply(Apply(Apply(d, w), x), y), z)
  {
    assert [w, x, y, z] == [w, x] + [y, z];
    ApplyAllAppend(d, [w, x], [y, z]);
    ApplyTwo(d, w, x);
    ApplyTwo(Apply(Apply(d, w), x), y, z);
  }

  lemma CommitOfLoad(d: Disk)
    requires Loadable(d)
    ensures CommitWrites(d, Load(d)) == [
      Write(HeaderOffset(d, Primary), Read(d.bytes, HeaderOffset(d, Primary), d.blk), true),
      Write(ArrayOffset(d, Primary), Read(d.bytes, ArrayOffset(d, Primary), ArrayLength(d, Primary)), false),
      Write(HeaderOffset(d, Secondary), Read(d.bytes, HeaderOffset(d, Secondary), d.blk), true),
      Write(ArrayOffset(d, Secondary), Read(d.bytes, ArrayOffset(d, Secondary), ArrayLength(d, Secondary)), false)]
  {
  }

  /** Committing a handle just loaded leaves the disk as it was, whatever is on it. */
  lemma CommitLoaded(d: Disk)
    requires Loadable(d)
    ensures ApplyAll(d, CommitWrites(d, Load(d))) == d
  {
    var ws := CommitWrites(d, Load(d));
    ApplyFour(d, ws[0], ws[1], ws[2], ws[3]);
    hide CommitWrites, Load;
    WriteBack(d, HeaderOffset(d, Primary), d.blk, true);
    WriteBack(d, ArrayOffset(d, Primary), ArrayLength(d, Primary), false);
    WriteBack(d, HeaderOffset(d, Secondary), d.blk, true);
    WriteBack(d, ArrayOffset(d, Secondary), ArrayLength(d, Secondary), false);
    CommitOfLoad(d);
  }

  // ----- loading what was committed

  /** What a region reads after a write to it, and after a write elsewhere. */
  lemma ReadAfter(d: Disk, w: Write, p: nat, n: nat)
    requires Fits(d, w) && p + n <= |d.bytes|
    ensures p == w.off && n == |w.data| ==> Read(Apply(d, w).bytes, p, n) == w.data
    ensures Disjoint(p, n, w.off, |w.data|) ==> Read(Apply(d, w).bytes, p, n) == Read(d.bytes, p, n)
  {
    if p == w.off && n == |w.data| {
      ReadWritten(d.bytes, p, w.data);
    }
    if Disjoint(p, n, w.off, |w.data|) {
      ReadElsewhere(d.bytes, w.off, w.data, p, n);
    }
  }

  predicate Clear(w: Write, x: Write) {
    Disjoint(w.off, |w.data|, x.off, |x.data|)
  }

  /** Four writes to four regions: each region reads what was written to it. */
  lemma FourRegions(d: Disk, w: Write, x: Write, y: Write, z: Write)
    requires Fits(d, w) && Fits(d, x) && Fits(d, y) && Fits(d, z)
    requires Clear(w, x) && Clear(w, y) && Clear(w, z) && Clear(x, y) && Clear(x, z) && Clear(y, z)
    ensures var e := Apply(Apply(Apply(Apply(d, w), x), y), z);
      && Read(e.bytes, w.off, |w.data|) == w.data && Read(e.bytes, x.off, |x.data|) == x.data
      && Read(e.bytes, y.off, |y.data|) == y.data && Read(e.bytes, z.off, |z.data|) == z.data
  {
    hide Apply, Read;
    var d1 := Apply(d, w);
    var d2 := Apply(d1, x);
    var d3 := Apply(d2, y);
    ReadAfter(d, w, w.off, |w.data|);
    ReadAfter(d1, x, w.off, |w.data|);
    ReadAfter(d2, y, w.off, |w.data|);
    ReadAfter(d3, z, w.off, |w.data|);
    ReadAfter(d1, x, x.off, |x.data|);
    ReadAfter(d2, y, x.off, |x.data|);
    ReadAfter(d3, z, x.off, |x.data|);
    ReadAfter(d2, y, y.off, |y.data|);
    ReadAfter(d3, z, y.off, |y.data|);
    ReadAfter(d3, z, z.off, |z.data|);
  }

  /** The four regions after a commit. */
  lemma Committed(d: Disk, h: Handle)
    requires Committable(d, h)
    ensures var e := ApplyAll(d, CommitWrites(d, h));
      && HeaderOf(e, Primary) == h.hdr && HeaderOf(e, Secondary) == h.hdrBak
      && Read(e.bytes, ArrayStart(h.hdr, h.blk), |h.arr|) == h.arr
      && Read(e.bytes, ArrayStart(h.hdrBak, h.blk), |h.arrBak|) == h.arrBak
  {
    hide ArrayStart, HeaderSize, ArraySize, HeaderOf;
    var ws := CommitWrites(d, h);
    ApplyFour(d, ws[0], ws[1], ws[2], ws[3]);
    FourRegions(d, ws[0], ws[1], ws[2], ws[3]);
    HeaderPlace(d, ApplyAll(d, ws), Primary);
    HeaderPlace(d, ApplyAll(d, ws), Secondary);
  }

  /** Loading after a commit returns the committed headers, arrays and sizes. */
  lemma LoadCommitted(d: Disk, h: Handle)
    requires Committable(d, h)
    ensures var e := ApplyAll(d, CommitWrites(d, h));
      && Loadable(e)
      && Load(e).hdr == h.hdr && Load(e).hdrBak == h.hdrBak && Load(e).arr == h.arr && Load(e).arrBak == h.arrBak
      && Load(e).arrSize == h.arrSize && Load(e).blk == h.blk && Load(e).entrySize == EntrySize(h.hdr)
  {
    Committed(d, h);
  }

  // ----- cutting a commit

  /** The handle is an update of the copies on `d`: same places and sizes, primary header valid for its array. */
  predicate Updates(d: Disk, h: Handle)
    requires Partitioned(d)
  {
    && Shaped(h) && h.blk == d.blk
    && h.hdr[12..16] == HeaderOf(d, Primary)[12..16] && h.hdr[24..88] == HeaderOf(d, Primary)[24..88]
    && h.hdrBak[12..16] == HeaderOf(d, Secondary)[12..16] && h.hdrBak[24..88] == HeaderOf(d, Secondary)[24..88]
    && State(h.hdr) == Ok && ArrayCrc(h.hdr) == Crc(h.arr)
  }

  /** The commit, as four steps of one region each. */
  lemma CommitSteps(d: Disk, h: Handle)
    requires Partitioned(d) && Updates(d, h)
    ensures |h.arr| == ArrayLength(d, Primary) && |h.arrBak| == ArrayLength(d, Secondary)
    ensures CommitWrites(d, h) == [HeaderWrite(d, Primary, h.hdr), ArrayWrite(d, Primary, h.arr),
                                   HeaderWrite(d, Secondary, h.hdrBak), ArrayWrite(d, Secondary, h.arrBak)]
  {
    GeometryFields(h.hdr, HeaderOf(d, Primary), d.blk);
    GeometryFields(h.hdrBak, HeaderOf(d, Secondary), d.blk);
    ArrayIsGrid(d);
  }

  /** What a reader of the disk must find: both copies readable, at the places `d` has them. */
  ghost predicate Over(d: Disk, r: Disk)
    requires Partitioned(d)
  {
    && Partitioned(r) && r.blk == d.blk && |r.bytes| == |d.bytes|
    && ArrayOffset(r, Primary) == ArrayOffset(d, Primary) && ArrayOffset(r, Secondary) == ArrayOffset(d, Secondary)
    && SameGeometry(HeaderOf(d, Primary), HeaderOf(r, Primary))
    && SameGeometry(HeaderOf(d, Secondary), HeaderOf(r, Secondary))
  }

  /** The regions of a disk. */
  ghost predicate Holds(d: Disk, r: Disk, p: seq<byte>, a: seq<byte>, q: seq<byte>, b: seq<byte>)
    requires Partitioned(d)
  {
    && Over(d, r)
    && HeaderOf(r, Primary) == p && ArrayOf(r, Primary) == a
    && HeaderOf(r, Secondary) == q && ArrayOf(r, Secondary) == b
  }

  lemma HeaderStep(d: Disk, r: Disk, gpt: Instance, h: seq<byte>)
    requires Partitioned(d) && Over(d, r) && SameGeometry(HeaderOf(d, gpt), h)
    ensures var e := Apply(r, HeaderWrite(d, gpt, h));
      && Over(d, e) && HeaderOf(e, gpt) == h && HeaderOf(e, Other(gpt)) == HeaderOf(r, Other(gpt))
      && ArrayOf(e, Primary) == ArrayOf(r, Primary) && ArrayOf(e, Secondary) == ArrayOf(r, Secondary)
  {
    assert HeaderWrite(d, gpt, h) == HeaderWrite(r, gpt, h);
    HeaderWritten(r, gpt, h);
  }

  lemma ArrayStep(d: Disk, r: Disk, gpt: Instance, a: seq<byte>)
    requires Partitioned(d) && Over(d, r) && |a| == ArrayLength(d, gpt)
    ensures ArrayLength(r, gpt) == ArrayLength(d, gpt) && ArrayWrite(d, gpt, a) == ArrayWrite(r, gpt, a)
    ensures var e := Apply(r, ArrayWrite(d, gpt, a));
      && Over(d, e) && HeaderOf(e, Primary) == HeaderOf(r, Primary) && HeaderOf(e, Secondary) == HeaderOf(r, Secondary)
      && ArrayOf(e, gpt) == a && ArrayOf(e, Other(gpt)) == ArrayOf(r, Other(gpt))
  {
    GeometryFields(HeaderOf(d, gpt), HeaderOf(r, gpt), d.blk);
    assert ArrayWrite(d, gpt, a) == ArrayWrite(r, gpt, a);
    ArrayWritten(r, gpt, a);
  }

  lemma TornStep(d: Disk, r: Disk, gpt: Instance, a: seq<byte>, e: Disk)
    requires Partitioned(d) && Over(d, r) && |a| == ArrayLength(d, gpt) && Torn(r, ArrayWrite(d, gpt, a), e)
    ensures Over(d, e)
    ensures HeaderOf(e, Primary) == HeaderOf(r, Primary) && HeaderOf(e, Secondary) == HeaderOf(r, Secondary)
    ensures ArrayOf(e, Other(gpt)) == ArrayOf(r, Other(gpt))
  {
    ArrayStep(d, r, gpt, a);
    assert SameOutside(r, gpt, e);
    ArrayTouched(r, gpt, e);
  }

  // ----- what a reader sees of a commit

  /** What a reader finds when the new primary header stands over the entries `t`: those if they have the CRC of the
      new ones, else the backup copy's if that is valid. */
  function Seen(d: Disk, h: Handle, t: seq<byte>): Option<seq<byte>>
    requires Readable(d)
  {
    if Crc(t) == Crc(h.arr) then Some(t)
    else if Valid(d, Secondary) then Some(ArrayOf(d, Secondary))
    else None
  }

  lemma OldSeen(d: Disk, h: Handle, r: Disk)
    requires Partitioned(d) && Valid(d, Primary) && Updates(d, h)
    requires Over(d, r) && HeaderOf(r, Primary) == h.hdr
    requires HeaderOf(r, Secondary) == HeaderOf(d, Secondary) && ArrayOf(r, Secondary) == ArrayOf(d, Secondary)
    ensures Boot(r) == Seen(d, h, ArrayOf(r, Primary))
  {
    hide Crc, State;
    GeometryFields(HeaderOf(d, Primary), h.hdr, d.blk);
  }

  lemma NewSeen(d: Disk, h: Handle, r: Disk)
    requires Partitioned(d) && Valid(d, Primary) && Updates(d, h)
    requires Over(d, r) && HeaderOf(r, Primary) == h.hdr && ArrayOf(r, Primary) == h.arr
    ensures Boot(r) == Some(h.arr)
  {
    hide Crc, State;
    GeometryFields(HeaderOf(d, Primary), h.hdr, d.blk);
  }

  /** The disks a commit passes through. */
  lemma CommitPath(d: Disk, h: Handle)
    requires Partitioned(d) && Updates(d, h)
    ensures |h.arr| == ArrayLength(d, Primary) && |h.arrBak| == ArrayLength(d, Secondary)
    ensures
      var d1 := Apply(d, HeaderWrite(d, Primary, h.hdr));
      var d2 := Apply(d1, ArrayWrite(d, Primary, h.arr));
      var d3 := Apply(d2, HeaderWrite(d, Secondary, h.hdrBak));
      var d4 := Apply(d3, ArrayWrite(d, Secondary, h.arrBak));
      && Holds(d, d1, h.hdr, ArrayOf(d, Primary), HeaderOf(d, Secondary), ArrayOf(d, Secondary))
      && Holds(d, d2, h.hdr, h.arr, HeaderOf(d, Secondary), ArrayOf(d, Secondary))
      && Holds(d, d3, h.hdr, h.arr, h.hdrBak, ArrayOf(d, Secondary))
      && Holds(d, d4, h.hdr, h.arr, h.hdrBak, h.arrBak)
  {
    hide Valid, Crc, State;
    CommitSteps(d, h);
    var d1 := Apply(d, HeaderWrite(d, Primary, h.hdr));
    var d2 := Apply(d1, ArrayWrite(d, Primary, h.arr));
    var d3 := Apply(d2, HeaderWrite(d, Secondary, h.hdrBak));
    HeaderStep(d, d, Primary, h.hdr);
    ArrayStep(d, d1, Primary, h.arr);
    HeaderStep(d, d2, Secondary, h.hdrBak);
    ArrayStep(d, d3, Secondary, h.arrBak);
  }

  /** What a reader sees on the disks a commit passes through. */
  lemma PathSeen(d: Disk, h: Handle)
    requires Partitioned(d) && Valid(d, Primary) && Updates(d, h)
    ensures
      var d1 := Apply(d, HeaderWrite(d, Primary, h.hdr));
      var d2 := Apply(d1, ArrayWrite(d, Primary, h.arr));
      var d3 := Apply(d2, HeaderWrite(d, Secondary, h.hdrBak));
      var d4 := Apply(d3, ArrayWrite(d, Secondary, h.arrBak));
      && Readable(d1) && Boot(d1) == Seen(d, h, ArrayOf(d, Primary))
      && Readable(d2) && Boot(d2) == Some(h.arr)
      && Readable(d3) && Boot(d3) == Some(h.arr)
      && Readable(d4) && Boot(d4) == Some(h.arr)
  {
    hide Valid, Crc, State, Boot, Seen, CommitWrites, Apply, HeaderWrite, ArrayWrite;
    CommitPath(d, h);
    var d1 := Apply(d, HeaderWrite(d, Primary, h.hdr));
    var d2 := Apply(d1, ArrayWrite(d, Primary, h.arr));
    var d3 := Apply(d2, HeaderWrite(d, Secondary, h.hdrBak));
    OldSeen(d, h, d1);
    NewSeen(d, h, d2);
    NewSeen(d, h, d3);
    NewSeen(d, h, Apply(d3, ArrayWrite(d, Secondary, h.arrBak)));
  }

  lemma PrefixOfFour(d: Disk, w: Write, x: Write, y: Write, z: Write, k: nat)
    requires k <= 4
    ensures ApplyAll(d, [w, x, y, z][..k]) ==
      if k == 0 then d
      else if k == 1 then Apply(d, w)
      else if k == 2 then Apply(Apply(d, w), x)
      else if k == 3 then Apply(Apply(Apply(d, w), x), y)
      else Apply(Apply(Apply(Apply(d, w), x), y), z)
  {
    var ws := [w, x, y, z];
    if k == 1 {
      assert ws[..1] == [w];
      ApplyOne(d, w);
    } else if k == 2 {
      assert ws[..2] == [w, x];
      ApplyTwo(d, w, x);
    } else if k == 3 {
      assert ws[..3] == [w, x] + [y];
      ApplyAllAppend(d, [w, x], [y]);
      ApplyTwo(d, w, x);
      ApplyOne(Apply(Apply(d, w), x), y);
    } else if k == 4 {
      assert ws[..4] == ws;
      ApplyFour(d, w, x, y, z);
    }
  }

  lemma PrimaryBoots(d: Disk)
    requires Partitioned(d) && Valid(d, Primary)
    ensures Readable(d) && Boot(d) == Some(ArrayOf(d, Primary))
  {
  }

  /** What a reader finds after `k` of the four writes of a commit to a disk with a valid primary copy. */
  lemma WritesSeen(d: Disk, h: Handle, k: nat)
    requires Partitioned(d) && Valid(d, Primary) && Updates(d, h) && k <= 4
    ensures |CommitWrites(d, h)| == 4
    ensures var r := ApplyAll(d, CommitWrites(d, h)[..k]);
      && Readable(r)
      && Boot(r) == if k == 0 then Some(ArrayOf(d, Primary))
                    else if k == 1 then Seen(d, h, ArrayOf(d, Primary))
                    else Some(h.arr)
  {
    CommitSteps(d, h);
    var w, x := HeaderWrite(d, Primary, h.hdr), ArrayWrite(d, Primary, h.arr);
    var y, z := HeaderWrite(d, Secondary, h.hdrBak), ArrayWrite(d, Secondary, h.arrBak);
    PrefixOfFour(d, w, x, y, z, k);
    PathSeen(d, h);
    PrimaryBoots(d);
    hide *;
  }

  /** The backup copy covers for the primary's while that is replaced: it is valid, with the old or the new entries. */
  predicate Covers(d: Disk, h: Handle)
    requires Partitioned(d)
  {
    Valid(d, Secondary) && (ArrayOf(d, Secondary) == ArrayOf(d, Primary) || ArrayOf(d, Secondary) == h.arr)
  }

  /** What a reader finds is the old or the new entries. */
  predicate OldOrNew(d: Disk, h: Handle, r: Disk)
    requires Partitioned(d)
  {
    Readable(r) && (Boot(r) == Some(ArrayOf(d, Primary)) || Boot(r) == Some(h.arr))
  }

  lemma SeenOldOrNew(d: Disk, h: Handle, t: seq<byte>)
    requires Partitioned(d)
    ensures Seen(d, h, t) == Some(ArrayOf(d, Primary)) || Seen(d, h, t) == Some(h.arr)
      <==> (if Crc(t) == Crc(h.arr) then t == ArrayOf(d, Primary) || t == h.arr else Covers(d, h))
  {
    hide Crc, Valid;
  }

  /** When a reader sees the old or the new entries after every one of the four writes, on any disk with a valid
      primary copy, in sync or not. */
  lemma AtomicAtWritesExactly(d: Disk, h: Handle)
    requires Partitioned(d) && Valid(d, Primary) && Updates(d, h)
    ensures |CommitWrites(d, h)| == 4
    ensures (forall k: nat :: k <= 4 ==> OldOrNew(d, h, ApplyAll(d, CommitWrites(d, h)[..k])))
      <==> Crc(ArrayOf(d, Primary)) == Crc(h.arr) || Covers(d, h)
  {
    WritesSeen(d, h, 1);
    var ws, was := CommitWrites(d, h), ArrayOf(d, Primary);
    SeenOldOrNew(d, h, was);
    assert OldOrNew(d, h, ApplyAll(d, ws[..1])) <==> Crc(was) == Crc(h.arr) || Covers(d, h);
    forall k: nat | k <= 4 && k != 1 ensures OldOrNew(d, h, ApplyAll(d, ws[..k])) {
      WritesSeen(d, h, k);
    }
  }

  /** Crash atomicity at whole writes, from a disk that is in sync: after `k` of the four region writes a reader sees
      exactly the old entries while k < 2 and exactly the new ones from then on. No assumption on the CRC is needed. */
  lemma CommitIsAtomic(d: Disk, h: Handle, k: nat)
    requires InSync(d) && Updates(d, h) && k <= 4
    ensures |CommitWrites(d, h)| == 4
    ensures var r := ApplyAll(d, CommitWrites(d, h)[..k]);
      Readable(r) && Boot(r) == Some(if k < 2 then ArrayOf(d, Primary) else h.arr)
  {
    WritesSeen(d, h, k);
    hide CommitWrites, Updates, Boot, Crc, Partitioned;
  }

  // ----- load, edit, update, commit

  /** The intended use: any edit of the two arrays of a loaded handle, with the CRCs updated, is an update in the
      sense above. */
  lemma EditedHandleUpdates(d: Disk, a: seq<byte>, b: seq<byte>)
    requires Partitioned(d) && State(HeaderOf(d, Primary)) == Ok
    requires |a| == ArrayLength(d, Primary) && |b| == ArrayLength(d, Secondary)
    ensures Loadable(d)
    ensures var h := UpdateCrc(Load(d).(arr := a, arrBak := b));
      Updates(d, h) && h.arr == a && h.arrBak == b
  {
    hide Crc, ComputedCrc, Read, Number, Product;
    ArrayIsGrid(d);
    var h := Load(d).(arr := a, arrBak := b);
    HeaderUpdated(h.hdr, Crc(a), HeaderSize(h.hdr));
    HeaderUpdated(h.hdrBak, Crc(b), HeaderSize(h.hdr));
  }

  /** The handle loaded from the disk, with its arrays edited and its CRCs updated. */
  function Edited(d: Disk, a: seq<byte>, b: seq<byte>): (h: Handle)
    requires Partitioned(d) && State(HeaderOf(d, Primary)) == Ok && |a| == |b| == ArrayLength(d, Primary)
    ensures Updates(d, h) && h.arr == a && h.arrBak == b
  {
    ArrayIsGrid(d);
    EditedHandleUpdates(d, a, b);
    UpdateCrc(Load(d).(arr := a, arrBak := b))
  }

  /** The edited handle's backup header has the CRC of its array; it is good when the one on the disk was and the two
      headers are of one size. */
  lemma EditedBackup(d: Disk, a: seq<byte>, b: seq<byte>)
    requires Partitioned(d) && State(HeaderOf(d, Primary)) == Ok && |a| == |b| == ArrayLength(d, Primary)
    ensures var h := Edited(d, a, b); WellFormed(h.hdrBak) && ArrayCrc(h.hdrBak) == Crc(b)
    ensures
      (HeaderOf(d, Secondary)[..9] == GPT_SIGNATURE
       && HeaderSize(HeaderOf(d, Primary)) == HeaderSize(HeaderOf(d, Secondary)))
      ==> State(Edited(d, a, b).hdrBak) == Ok
  {
    ArrayIsGrid(d);
    EditedHandleUpdates(d, a, b);
    var h := Load(d).(arr := a, arrBak := b);
    assert h.arrBak[..h.arrSize] == b;
    HeaderUpdated(h.hdrBak, Crc(b), HeaderSize(h.hdr));
    GeometryFields(h.hdrBak, Edited(d, a, b).hdrBak, d.blk);
  }
}
