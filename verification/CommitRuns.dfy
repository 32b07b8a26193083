/** Commits one after the other, repeated until they are complete and not, and commits whose writes persist in another
    order. */
module CommitRuns {
  import opened Bytes
  import opened Crc32
  import opened Disk
  import opened HandlePlan
  import opened HandleProofs
  import opened Header
  import opened Tearing
  import opened TornCommits
  import opened Wrappers

  // ----- a commit repeated

  /** A commit that was interrupted anywhere and is then made again writes what it would have written at first. */
  lemma Recommit(d: Disk, h: Handle, r: Disk)
    requires Writable(d, h) && Cut(d, CommitWrites(d, h), r)
    ensures Writable(r, h) && CommitWrites(r, h) == CommitWrites(d, h)
    ensures ApplyAll(r, CommitWrites(r, h)) == ApplyAll(d, CommitWrites(d, h))
  {
    CutStaysInside(d, CommitWrites(d, h), r);
    WritesRepeat(d, CommitWrites(d, h), r);
  }

  /** However often it was interrupted, completing it leaves the same disk. */
  lemma {:induction false} RetriesComplete(d: Disk, h: Handle, trace: seq<Disk>, unit: nat, i: nat)
    requires Writable(d, h) && unit > 0 && Retries(d, h, trace, unit) && i < |trace|
    ensures Writable(trace[i], h) && CommitWrites(trace[i], h) == CommitWrites(d, h)
    ensures ApplyAll(trace[i], CommitWrites(d, h)) == ApplyAll(d, CommitWrites(d, h))
  {
    if i == 0 {
    } else {
      var j: nat := i - 1;
      RetriesComplete(d, h, trace, unit, j);
      assert CutBy(trace[j], CommitWrites(d, h), trace[j + 1], unit);
      hide CommitWrites, CutBy, ApplyAll, Writable;
      CutByIsCut(trace[j], CommitWrites(d, h), trace[i], unit);
      Recommit(trace[j], h, trace[i]);
    }
  }

  lemma UpdateIsWritable(d: Disk, h: Handle)
    requires Partitioned(d) && Updates(d, h)
    ensures Writable(d, h)
  {
  }

  // ----- one complete commit

  lemma BackupFits(d: Disk, h: Handle)
    requires Partitioned(d) && Updates(d, h)
    ensures WellFormed(h.hdrBak) && OwnLba(h.hdrBak) == OwnLba(HeaderOf(d, Secondary))
    ensures OwnLba(h.hdr) == OwnLba(HeaderOf(d, Primary))
  {
    GeometryFields(HeaderOf(d, Secondary), h.hdrBak, d.blk);
    GeometryFields(HeaderOf(d, Primary), h.hdr, d.blk);
  }

  /** A complete commit leaves the four regions of the handle. */
  lemma CommitHolds(d: Disk, h: Handle)
    requires Partitioned(d) && Updates(d, h)
    ensures Holds(d, ApplyAll(d, CommitWrites(d, h)), h.hdr, h.arr, h.hdrBak, h.arrBak)
  {
    CommitSteps(d, h);
    CommitPath(d, h);
    hide Partitioned, Updates, Holds, Apply;
    ApplyFour(d, HeaderWrite(d, Primary, h.hdr), ArrayWrite(d, Primary, h.arr),
              HeaderWrite(d, Secondary, h.hdrBak), ArrayWrite(d, Secondary, h.arrBak));
  }

  /** A complete commit leaves a disk in sync exactly when the handle's arrays are equal, its backup header is good for
      its array, and the backup header is in the block it names. */
  lemma CommitSyncs(d: Disk, h: Handle)
    requires Partitioned(d) && Valid(d, Primary) && Updates(d, h)
    ensures WellFormed(h.hdrBak)
    ensures InSync(ApplyAll(d, CommitWrites(d, h)))
      <==> && h.arr == h.arrBak && State(h.hdrBak) == Ok && ArrayCrc(h.hdrBak) == Crc(h.arrBak)
           && Product(OwnLba(h.hdrBak), d.blk) == HeaderOffset(d, Secondary)
  {
    BackupFits(d, h);
    CommitHolds(d, h);
    hide Crc, State, CommitWrites;
  }

  // ----- many commits

  /** A disk in sync whose two headers are of one size. */
  predicate Even(d: Disk) {
    InSync(d) && HeaderSize(HeaderOf(d, Primary)) == HeaderSize(HeaderOf(d, Secondary))
  }

  lemma EditSyncs(d: Disk, a: seq<byte>)
    requires Even(d) && |a| == ArrayLength(d, Primary)
    ensures var e := ApplyAll(d, CommitWrites(d, Edited(d, a, a)));
      Even(e) && ArrayOf(e, Primary) == a
  {
    var h := Edited(d, a, a);
    assert HeaderOf(d, Secondary)[..9] == GPT_SIGNATURE;
    EditedBackup(d, a, a);
    CommitSyncs(d, h);
    CommitHolds(d, h);
    GeometryFields(HeaderOf(d, Secondary), h.hdrBak, d.blk);
    GeometryFields(HeaderOf(d, Primary), h.hdr, d.blk);
    hide CommitWrites, Edited, Crc, State;
  }

  /** The disk after the same edit of both arrays is committed. */
  function AfterEdit(d: Disk, a: seq<byte>): (e: Disk)
    requires Even(d) && |a| == ArrayLength(d, Primary)
    ensures Even(e) && ArrayOf(e, Primary) == a
  {
    EditSyncs(d, a);
    ApplyAll(d, CommitWrites(d, Edited(d, a, a)))
  }

  /** Entry arrays of the size the disk has. */
  predicate Edits(d: Disk, edits: seq<seq<byte>>)
    requires Sized(d)
  {
    forall i :: 0 <= i < |edits| ==> |edits[i]| == ArrayLength(d, Primary)
  }

  /** The entries before the first edit, or after the last. */
  function Latest(d: Disk, edits: seq<seq<byte>>): seq<byte>
    requires InSync(d)
  {
    if edits == [] then ArrayOf(d, Primary) else edits[|edits| - 1]
  }

  /** The disk after all the edits, each made on what the one before it left. */
  function AfterEdits(d: Disk, edits: seq<seq<byte>>): (e: Disk)
    requires Even(d) && Edits(d, edits)
    ensures Even(e) && ArrayOf(e, Primary) == Latest(d, edits) && ArrayLength(e, Primary) == ArrayLength(d, Primary)
  {
    if edits == [] then d
    else AfterEdit(AfterEdits(d, edits[..|edits| - 1]), edits[|edits| - 1])
  }

  lemma OneMoreEdit(d: Disk, edits: seq<seq<byte>>, a: seq<byte>)
    requires Even(d) && Edits(d, edits) && |a| == ArrayLength(d, Primary)
    ensures Edits(d, edits + [a])
    ensures AfterEdits(d, edits + [a]) == AfterEdit(AfterEdits(d, edits), a)
  {
    hide Even, InSync, AfterEdit;
    assert (edits + [a])[..|edits|] == edits;
  }

  lemma EvenDisk(d: Disk)
    requires Even(d)
    ensures Partitioned(d) && Valid(d, Primary) && State(HeaderOf(d, Primary)) == Ok
  {
  }

  /** Over any run of edits, each committed as often as it takes: whenever power fails, a reader sees the entries of the
      latest complete commit or those of the one under way, and completing that one leaves what an undisturbed run
      leaves. */
  lemma EditsSafe(d: Disk, edits: seq<seq<byte>>, a: seq<byte>, trace: seq<Disk>, unit: nat, i: nat)
    requires Even(d) && Edits(d, edits) && |a| == ArrayLength(d, Primary) && unit > 0
    requires var e := AfterEdits(d, edits); var h := Edited(e, a, a);
      Atomic(e, h, unit) && Retries(e, h, trace, unit)
    requires i < |trace|
    ensures Readable(trace[i]) && (Boot(trace[i]) == Some(Latest(d, edits)) || Boot(trace[i]) == Some(a))
    ensures Edits(d, edits + [a])
    ensures var h := Edited(AfterEdits(d, edits), a, a);
      ApplyAll(trace[i], CommitWrites(trace[i], h)) == AfterEdits(d, edits + [a])
  {
    OneMoreEdit(d, edits, a);
    EvenDisk(AfterEdits(d, edits));
    hide Even, InSync, Edits, Atomic, Retries, CommitWrites, Boot, Readable, Partitioned, Valid, Edited, Updates;
    var e := AfterEdits(d, edits);
    var h := Edited(e, a, a);
    RetriesAtomic(e, h, trace, unit, i);
    UpdateIsWritable(e, h);
    RetriesComplete(e, h, trace, unit, i);
  }

  // ----- a commit on top of an unfinished one

  lemma SyncedDisk(d: Disk)
    requires InSync(d)
    ensures Partitioned(d) && Valid(d, Primary) && State(HeaderOf(d, Primary)) == Ok
  {
  }

  lemma SignedWhenValid(d: Disk)
    requires Partitioned(d) && Valid(d, Primary)
    ensures State(HeaderOf(d, Primary)) == Ok
  {
  }

  /** The disk on which a commit stopped behind its second or third write. */
  lemma UnfinishedCommit(d: Disk, a: seq<byte>, k: nat)
    requires InSync(d) && |a| == ArrayLength(d, Primary) && 2 <= k <= 3
    ensures var h := Edited(d, a, a); |CommitWrites(d, h)| == 4 && WellFormed(h.hdrBak)
    ensures var h := Edited(d, a, a); var r := ApplyAll(d, CommitWrites(d, h)[..k]);
      && Partitioned(r) && Valid(r, Primary) && ArrayOf(r, Primary) == a && ArrayLength(r, Primary) == |a|
      && (Valid(r, Secondary) <==> k == 2 || (Crc(ArrayOf(d, Primary)) == Crc(a) && State(h.hdrBak) == Ok))
      && ArrayOf(r, Secondary) == ArrayOf(d, Primary)
  {
    var h := Edited(d, a, a);
    EditedBackup(d, a, a);
    BackupFits(d, h);
    CommitSteps(d, h);
    CommitPath(d, h);
    PrefixOfFour(d, HeaderWrite(d, Primary, h.hdr), ArrayWrite(d, Primary, h.arr),
                 HeaderWrite(d, Secondary, h.hdrBak), ArrayWrite(d, Secondary, h.arrBak), k);
    hide CommitWrites, Edited, Crc, State, Apply;
  }

  /** Another edit committed on a disk where an earlier commit stopped behind its second or third write, itself stopped
      behind its first: unless the two arrays agree in CRC, the backup copy decides. It still holds the entries before
      both edits when its header was not yet written, and when it was, only if the first edit kept the CRC and the new
      backup header is good; else no valid copy is left. */
  lemma CommitOnUnfinished(d: Disk, a: seq<byte>, b: seq<byte>, k: nat)
    requires InSync(d) && |a| == |b| == ArrayLength(d, Primary) && 2 <= k <= 3
    ensures var h := Edited(d, a, a); |CommitWrites(d, h)| == 4 && WellFormed(h.hdrBak)
    ensures var h := Edited(d, a, a); var r := ApplyAll(d, CommitWrites(d, h)[..k]);
      && Partitioned(r) && Valid(r, Primary) && ArrayOf(r, Primary) == a && |b| == ArrayLength(r, Primary)
      && |CommitWrites(r, Edited(r, b, b))| == 4
      && Sees(ApplyAll(r, CommitWrites(r, Edited(r, b, b))[..1]),
              if Crc(a) == Crc(b) then Some(a)
              else if k == 2 || (Crc(ArrayOf(d, Primary)) == Crc(a) && State(h.hdrBak) == Ok)
                then Some(ArrayOf(d, Primary))
              else None)
  {
    hide CommitWrites, Edited, Crc, State, Boot, Partitioned, InSync, Valid, ApplyAll;
    SyncedDisk(d);
    PartitionedIsSized(d);
    UnfinishedCommit(d, a, k);
    var r := ApplyAll(d, CommitWrites(d, Edited(d, a, a))[..k]);
    SignedWhenValid(r);
    WritesSeen(r, Edited(r, b, b), 1);
  }

  /** On any disk with an entry: change one byte, stop behind the third write, change it back, stop behind the first,
      and no valid copy is left. */
  lemma ChangeAndBack(d: Disk, j: nat, x: byte)
    requires InSync(d) && j < ArrayLength(d, Primary) && x != ArrayOf(d, Primary)[j]
    ensures var was := ArrayOf(d, Primary);
      var r := ApplyAll(d, CommitWrites(d, Edited(d, was[j := x], was[j := x]))[..3]);
      && Partitioned(r) && Valid(r, Primary) && |was| == ArrayLength(r, Primary)
      && Sees(ApplyAll(r, CommitWrites(r, Edited(r, was, was))[..1]), None)
  {
    hide InSync, Partitioned, Valid, Edited, CommitWrites, Boot, Crc, ApplyAll, State;
    SyncedDisk(d);
    PartitionedIsSized(d);
    var was := ArrayOf(d, Primary);
    SingleByteDetected(was, j, x);
    CommitOnUnfinished(d, was[j := x], was, 3);
  }

  // ----- writes persisting in another order

  /** The disk on which of the four writes of a commit the two headers have persisted if `first` and `second`, and of
      the two arrays what is in `a` and `b`: the old array, the new one, or a torn mixture of them. */
  function CommitPersisted(d: Disk, h: Handle, first: bool, a: seq<byte>, second: bool, b: seq<byte>): Disk
    requires Partitioned(d) && Updates(d, h)
  {
    var ws := CommitWrites(d, h);
    var d1 := if first then Apply(d, ws[0]) else d;
    var d2 := Apply(d1, ws[1].(data := a));
    var d3 := if second then Apply(d2, ws[2]) else d2;
    Apply(d3, ws[3].(data := b))
  }

  lemma UpdateFits(d: Disk, h: Handle)
    requires Partitioned(d) && Updates(d, h)
    ensures Shaped(h) && SameGeometry(HeaderOf(d, Primary), h.hdr) && SameGeometry(HeaderOf(d, Secondary), h.hdrBak)
  {
  }

  lemma OverItself(d: Disk)
    requires Partitioned(d)
    ensures Over(d, d)
  {
  }

  lemma CommitPersistedHolds(d: Disk, h: Handle, first: bool, a: seq<byte>, second: bool, b: seq<byte>)
    requires Partitioned(d) && Updates(d, h)
    requires |a| == ArrayLength(d, Primary) && |b| == ArrayLength(d, Secondary)
    ensures Holds(d, CommitPersisted(d, h, first, a, second, b),
                  if first then h.hdr else HeaderOf(d, Primary), a,
                  if second then h.hdrBak else HeaderOf(d, Secondary), b)
  {
    hide CommitWrites, Apply, Partitioned, Updates, Sized, ArrayFits, ArrayOf, HeaderOf, ArrayOffset, SameGeometry;
    UpdateFits(d, h);
    CommitSteps(d, h);
    PartitionedIsSized(d);
    OverItself(d);
    var d1 := if first then Apply(d, HeaderWrite(d, Primary, h.hdr)) else d;
    var d2 := Apply(d1, ArrayWrite(d, Primary, a));
    var d3 := if second then Apply(d2, HeaderWrite(d, Secondary, h.hdrBak)) else d2;
    HeaderStep(d, d, Primary, h.hdr);
    ArrayStep(d, d1, Primary, a);
    HeaderStep(d, d2, Secondary, h.hdrBak);
    ArrayStep(d, d3, Secondary, b);
  }

  /** Whichever of the writes of a commit persisted, and whatever became of the arrays: a reader finds the primary array
      if it has the CRC the persisted primary header states, else the backup array if its persisted header is good and
      states the CRC it has, and else none. */
  lemma CommitAnyOrder(d: Disk, h: Handle, first: bool, p: seq<byte>, second: bool, q: seq<byte>)
    requires InSync(d) && Updates(d, h) && |p| == |q| == ArrayLength(d, Primary)
    ensures WellFormed(h.hdrBak)
    ensures var was := ArrayOf(d, Primary);
      Sees(CommitPersisted(d, h, first, p, second, q),
           if Crc(p) == Crc(if first then h.arr else was) then Some(p)
           else if (if second then State(h.hdrBak) == Ok && ArrayCrc(h.hdrBak) == Crc(q) else Crc(q) == Crc(was))
             then Some(q)
           else None)
  {
    BackupFits(d, h);
    ArrayIsGrid(d);
    CommitPersistedHolds(d, h, first, p, second, q);
    hide CommitWrites, CommitPersisted, Edited, Crc, State, Apply;
  }

  /** When the new headers persist and the new arrays do not, or the new arrays without the headers, no valid copy is
      left exactly if the edit changed the CRC. */
  lemma CommitNeedsOrder(d: Disk, a: seq<byte>)
    requires InSync(d) && |a| == ArrayLength(d, Primary)
    ensures var h, was := Edited(d, a, a), ArrayOf(d, Primary);
      && (Sees(CommitPersisted(d, h, true, was, true, was), None) <==> Crc(a) != Crc(was))
      && (Sees(CommitPersisted(d, h, false, a, false, a), None) <==> Crc(a) != Crc(was))
  {
    hide InSync, Partitioned, Valid, Edited, CommitPersisted, Crc, Boot, Readable, Updates, State;
    SyncedDisk(d);
    PartitionedIsSized(d);
    EditedBackup(d, a, a);
    var h, was := Edited(d, a, a), ArrayOf(d, Primary);
    CommitAnyOrder(d, h, true, was, true, was);
    CommitAnyOrder(d, h, false, a, false, a);
  }
}
