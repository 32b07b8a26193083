/** When a commit is atomic although its array writes can be torn between blocks: a condition on the disk and the new
    entries. */
module TornCommits {
  import opened Bytes
  import opened Crc32
  import opened Disk
  import opened HandlePlan
  import opened HandleProofs
  import opened Header
  import opened Tearing

  // ----- every cut leaves a mixture

  lemma OverLength(d: Disk, r: Disk)
    requires Partitioned(d) && Over(d, r)
    ensures ArrayFits(d, Primary) && ArrayFits(r, Primary)
    ensures ArrayOf(r, Primary) == Read(r.bytes, ArrayOffset(d, Primary), ArrayLength(d, Primary))
  {
    GeometryFields(HeaderOf(d, Primary), HeaderOf(r, Primary), d.blk);
  }

  /** `t` is, block for block, the old or the new entries of the primary copy. */
  ghost predicate Between(d: Disk, h: Handle, t: seq<byte>, unit: nat)
    requires Partitioned(d) && unit > 0
  {
    Mixture(ArrayOf(d, Primary), h.arr, t, ArrayOffset(d, Primary), unit)
  }

  /** A torn write of the primary array leaves a mixture there. */
  lemma TornIsMixture(d: Disk, e: Disk, a: seq<byte>, r: Disk, unit: nat)
    requires Partitioned(d) && Over(d, e) && |a| == ArrayLength(d, Primary) && unit > 0
    requires TornBy(e, ArrayWrite(d, Primary, a), r, unit)
    ensures Over(d, r) && Mixture(ArrayOf(e, Primary), a, ArrayOf(r, Primary), ArrayOffset(d, Primary), unit)
    ensures HeaderOf(r, Primary) == HeaderOf(e, Primary) && HeaderOf(r, Secondary) == HeaderOf(e, Secondary)
    ensures ArrayOf(r, Secondary) == ArrayOf(e, Secondary)
  {
    var f := Apply(e, ArrayWrite(d, Primary, a));
    MixtureBytes(e.bytes, f.bytes, r.bytes, 0, unit);
    ArrayStep(d, e, Primary, a);
    TornStep(d, e, Primary, a, r);
    OverLength(d, e);
    OverLength(d, r);
    OverLength(d, f);
    hide Partitioned, Over, Mixture;
    MixtureOfRegions(e.bytes, f.bytes, r.bytes, ArrayOffset(d, Primary), ArrayLength(d, Primary), unit);
  }

  /** Where a commit, and any number of repetitions of it, can leave a disk: as it was; or with the new primary header
      over a mixture of old and new entries and the backup copy untouched; or with the new primary copy. */
  ghost predicate Underway(d: Disk, h: Handle, r: Disk, unit: nat)
    requires Partitioned(d) && unit > 0
  {
    || r == d
    || (Over(d, r) && HeaderOf(r, Primary) == h.hdr
        && HeaderOf(r, Secondary) == HeaderOf(d, Secondary) && ArrayOf(r, Secondary) == ArrayOf(d, Secondary)
        && Between(d, h, ArrayOf(r, Primary), unit))
    || (Over(d, r) && HeaderOf(r, Primary) == h.hdr && ArrayOf(r, Primary) == h.arr)
  }

  /** Where a cut of four writes on a device with blocks can fall. */
  lemma CutByFour(d: Disk, w: Write, x: Write, y: Write, z: Write, r: Disk, unit: nat)
    requires unit > 0 && w.whole && y.whole && CutBy(d, [w, x, y, z], r, unit)
    ensures
      var d1 := Apply(d, w);
      var d2 := Apply(d1, x);
      var d3 := Apply(d2, y);
      || r == d || r == d1 || TornBy(d1, x, r, unit) || r == d2 || r == d3
      || TornBy(d3, z, r, unit) || r == Apply(d3, z)
  {
    hide Mixture;
    var d1 := Apply(d, w);
    var d2 := Apply(d1, x);
    var d3 := Apply(d2, y);
    assert [w, x, y, z][1..] == [x, y, z] && [x, y, z][1..] == [y, z] && [y, z][1..] == [z] && [z][1..] == [];
    if r != d && r != d1 && !TornBy(d1, x, r, unit) {
      assert CutBy(d1, [x, y, z], r, unit);
      assert CutBy(d2, [y, z], r, unit);
      if r != d2 {
        assert CutBy(d3, [z], r, unit);
        assert r == d3 || TornBy(d3, z, r, unit) || CutBy(Apply(d3, z), [], r, unit);
      }
    }
  }

  /** The disks a commit passes through when it starts from one that is underway. */
  lemma UnderwayPath(d: Disk, h: Handle, r: Disk, unit: nat)
    requires Partitioned(d) && Updates(d, h) && unit > 0 && Underway(d, h, r, unit)
    ensures |h.arr| == ArrayLength(d, Primary)
    ensures
      var r1 := Apply(r, HeaderWrite(d, Primary, h.hdr));
      var r2 := Apply(r1, ArrayWrite(d, Primary, h.arr));
      var r3 := Apply(r2, HeaderWrite(d, Secondary, h.hdrBak));
      var r4 := Apply(r3, ArrayWrite(d, Secondary, h.arrBak));
      && Over(d, r1) && Underway(d, h, r1, unit) && HeaderOf(r1, Primary) == h.hdr
      && Over(d, r2) && Underway(d, h, r2, unit)
      && Over(d, r3) && HeaderOf(r3, Primary) == h.hdr && ArrayOf(r3, Primary) == h.arr
      && Over(d, r4) && HeaderOf(r4, Primary) == h.hdr && ArrayOf(r4, Primary) == h.arr
  {
    CommitSteps(d, h);
    MixtureEnds(ArrayOf(d, Primary), h.arr, ArrayOffset(d, Primary), unit);
    hide Mixture;
    var r1 := Apply(r, HeaderWrite(d, Primary, h.hdr));
    var r2 := Apply(r1, ArrayWrite(d, Primary, h.arr));
    var r3 := Apply(r2, HeaderWrite(d, Secondary, h.hdrBak));
    HeaderStep(d, r, Primary, h.hdr);
    ArrayStep(d, r1, Primary, h.arr);
    HeaderStep(d, r2, Secondary, h.hdrBak);
    ArrayStep(d, r3, Secondary, h.arrBak);
  }

  lemma SelfMixture(a: seq<byte>, t: seq<byte>, off: nat, unit: nat)
    requires unit > 0 && Mixture(a, a, t, off, unit)
    ensures t == a
  {
    MixtureBytes(a, a, t, off, unit);
  }

  /** Tearing the primary array of a disk underway leaves it underway. */
  lemma TornUnderway(d: Disk, h: Handle, e: Disk, r: Disk, unit: nat)
    requires Partitioned(d) && unit > 0 && |h.arr| == ArrayLength(d, Primary)
    requires Over(d, e) && Underway(d, h, e, unit) && HeaderOf(e, Primary) == h.hdr
    requires TornBy(e, ArrayWrite(d, Primary, h.arr), r, unit)
    ensures Underway(d, h, r, unit)
  {
    TornIsMixture(d, e, h.arr, r, unit);
    assert ArrayFits(d, Primary) && Partitioned(e) && Partitioned(r) && ArrayFits(e, Primary) && ArrayFits(r, Primary);
    hide Mixture, Partitioned, TornBy;
    var was, t, u, off := ArrayOf(d, Primary), ArrayOf(e, Primary), ArrayOf(r, Primary), ArrayOffset(d, Primary);
    if t == h.arr {
      SelfMixture(h.arr, u, off, unit);
    } else {
      MixtureEnds(was, h.arr, off, unit);
      MixtureAgain(was, h.arr, t, u, off, unit);
    }
  }

  /** Tearing the secondary array leaves the primary copy. */
  lemma TornBackup(d: Disk, h: Handle, e: Disk, r: Disk, unit: nat)
    requires Partitioned(d) && unit > 0 && |h.arrBak| == ArrayLength(d, Secondary)
    requires Over(d, e) && TornBy(e, ArrayWrite(d, Secondary, h.arrBak), r, unit)
    ensures Over(d, r) && HeaderOf(r, Primary) == HeaderOf(e, Primary) && ArrayOf(r, Primary) == ArrayOf(e, Primary)
  {
    MixtureBytes(e.bytes, Apply(e, ArrayWrite(d, Secondary, h.arrBak)).bytes, r.bytes, 0, unit);
    TornStep(d, e, Secondary, h.arrBak, r);
  }

  /** Every cut of a commit that started underway leaves the disk underway. */
  lemma CutStaysUnderway(d: Disk, h: Handle, r: Disk, e: Disk, unit: nat)
    requires Partitioned(d) && Updates(d, h) && unit > 0 && Underway(d, h, r, unit)
    requires CutBy(r, CommitWrites(d, h), e, unit)
    ensures Underway(d, h, e, unit)
  {
    CommitSteps(d, h);
    UnderwayPath(d, h, r, unit);
    hide Mixture, Partitioned, Updates, TornBy, CutBy, Apply, Over, Between;
    var w, x := HeaderWrite(d, Primary, h.hdr), ArrayWrite(d, Primary, h.arr);
    var y, z := HeaderWrite(d, Secondary, h.hdrBak), ArrayWrite(d, Secondary, h.arrBak);
    CutByFour(r, w, x, y, z, e, unit);
    var r1 := Apply(r, w);
    var r3 := Apply(Apply(r1, x), y);
    if TornBy(r1, x, e, unit) {
      TornUnderway(d, h, r1, e, unit);
    } else if TornBy(r3, z, e, unit) {
      TornBackup(d, h, r3, e, unit);
    }
  }

  // ----- every mixture is left by a cut

  /** The disk with the new primary header over the entries `t`. */
  function TornAt(d: Disk, h: Handle, t: seq<byte>): Disk
    requires Partitioned(d) && Updates(d, h)
  {
    Apply(Apply(d, HeaderWrite(d, Primary, h.hdr)), ArrayWrite(d, Primary, t))
  }

  lemma CutInSecond(d: Disk, w: Write, x: Write, y: Write, z: Write, r: Disk, unit: nat)
    requires unit > 0 && TornBy(Apply(d, w), x, r, unit)
    ensures CutBy(d, [w, x, y, z], r, unit)
  {
    assert [w, x, y, z][1..] == [x, y, z];
    assert CutBy(Apply(d, w), [x, y, z], r, unit);
  }

  /** Every mixture of the old and the new entries is left by some cut of the commit. */
  lemma MixtureIsReached(d: Disk, h: Handle, t: seq<byte>, unit: nat)
    requires Partitioned(d) && Updates(d, h) && unit > 0 && Between(d, h, t, unit)
    ensures var r := TornAt(d, h, t);
      && CutBy(d, CommitWrites(d, h), r, unit)
      && Over(d, r) && HeaderOf(r, Primary) == h.hdr && ArrayOf(r, Primary) == t
      && HeaderOf(r, Secondary) == HeaderOf(d, Secondary) && ArrayOf(r, Secondary) == ArrayOf(d, Secondary)
  {
    CommitSteps(d, h);
    CommitPath(d, h);
    var w, x := HeaderWrite(d, Primary, h.hdr), ArrayWrite(d, Primary, h.arr);
    var y, z := HeaderWrite(d, Secondary, h.hdrBak), ArrayWrite(d, Secondary, h.arrBak);
    var e := Apply(d, w);
    OverLength(d, e);
    ArrayStep(d, e, Primary, t);
    hide Partitioned, Updates, TornBy, CutBy, Apply, Takes;
    MixtureIsTorn(e, ArrayOffset(d, Primary), h.arr, t, unit);
    CutInSecond(d, w, x, y, z, TornAt(d, h, t), unit);
  }

  // ----- the condition

  /** A mixture that is neither the old nor the new entries and passes for the new ones. */
  ghost predicate Collides(d: Disk, h: Handle, t: seq<byte>, unit: nat)
    requires Partitioned(d) && unit > 0
  {
    Between(d, h, t, unit) && t != ArrayOf(d, Primary) && t != h.arr && Crc(t) == Crc(h.arr)
  }

  /** A mixture that does not pass for the new entries. */
  ghost predicate Fails(d: Disk, h: Handle, t: seq<byte>, unit: nat)
    requires Partitioned(d) && unit > 0
  {
    Between(d, h, t, unit) && Crc(t) != Crc(h.arr)
  }

  /** A reader sees the old or the new entries wherever the commit is cut. */
  ghost predicate Atomic(d: Disk, h: Handle, unit: nat)
    requires Partitioned(d) && Updates(d, h) && unit > 0
  {
    forall r :: CutBy(d, CommitWrites(d, h), r, unit) ==> OldOrNew(d, h, r)
  }

  /** What a reader finds on a disk underway. */
  lemma UnderwaySeen(d: Disk, h: Handle, r: Disk, unit: nat)
    requires Partitioned(d) && Valid(d, Primary) && Updates(d, h) && unit > 0 && Underway(d, h, r, unit)
    ensures OldOrNew(d, h, r) || exists t :: Collides(d, h, t, unit) || (Fails(d, h, t, unit) && !Covers(d, h))
  {
    hide Crc, Valid, Updates, Boot, Mixture;
    if r == d {
      PrimaryBoots(d);
    } else if ArrayOf(r, Primary) == h.arr {
      NewSeen(d, h, r);
    } else {
      var t := ArrayOf(r, Primary);
      OldSeen(d, h, r);
      SeenOldOrNew(d, h, t);
      assert OldOrNew(d, h, r) || Collides(d, h, t, unit) || (Fails(d, h, t, unit) && !Covers(d, h));
    }
  }

  /** On a disk torn at a colliding mixture, or at a failing one with no backup copy to cover for it, a reader sees
      neither the old nor the new entries. */
  lemma TearIsSeen(d: Disk, h: Handle, t: seq<byte>, unit: nat)
    requires Partitioned(d) && Valid(d, Primary) && Updates(d, h) && unit > 0
    requires Collides(d, h, t, unit) || (Fails(d, h, t, unit) && !Covers(d, h))
    ensures var r := TornAt(d, h, t); CutBy(d, CommitWrites(d, h), r, unit) && !OldOrNew(d, h, r)
  {
    hide Crc, Valid, Updates, Boot, Mixture, CutBy, TornAt, CommitWrites;
    MixtureIsReached(d, h, t, unit);
    OldSeen(d, h, TornAt(d, h, t));
    SeenOldOrNew(d, h, t);
  }

  lemma FirstIsUnderway(d: Disk, h: Handle, r: Disk, unit: nat)
    requires Partitioned(d) && Updates(d, h) && unit > 0 && CutBy(d, CommitWrites(d, h), r, unit)
    ensures Underway(d, h, r, unit)
  {
    hide Partitioned, Updates, CommitWrites, CutBy;
    CutStaysUnderway(d, h, d, r, unit);
  }

  /** On a disk with a valid primary copy, whose device writes blocks of `unit` bytes whole, a commit is atomic exactly
      when no mixture of the old and the new entries collides, and none fails unless the backup copy covers for it. */
  lemma AtomicExactly(d: Disk, h: Handle, unit: nat)
    requires Partitioned(d) && Valid(d, Primary) && Updates(d, h) && unit > 0
    ensures Atomic(d, h, unit)
      <==> forall t :: !Collides(d, h, t, unit) && (Fails(d, h, t, unit) ==> Covers(d, h))
  {
    assert Sized(d) && Shaped(h);
    hide Partitioned, Valid, Updates, CutBy, CommitWrites, OldOrNew, Collides, Fails, Covers, Underway, Sized, Shaped;
    if Atomic(d, h, unit) {
      forall t ensures !Collides(d, h, t, unit) && (Fails(d, h, t, unit) ==> Covers(d, h)) {
        if Collides(d, h, t, unit) || (Fails(d, h, t, unit) && !Covers(d, h)) {
          TearIsSeen(d, h, t, unit);
        }
      }
    } else {
      var r :| CutBy(d, CommitWrites(d, h), r, unit) && !OldOrNew(d, h, r);
      FirstIsUnderway(d, h, r, unit);
      UnderwaySeen(d, h, r, unit);
    }
  }

  /** On a disk that is in sync the backup copy covers, and only collisions matter. */
  lemma AtomicInSync(d: Disk, h: Handle, unit: nat)
    requires InSync(d) && Updates(d, h) && unit > 0
    ensures Atomic(d, h, unit) <==> forall t :: !Collides(d, h, t, unit)
  {
    assert Partitioned(d) && Valid(d, Primary) && Covers(d, h);
    hide Partitioned, InSync, Valid, Updates, CutBy, CommitWrites, OldOrNew, Collides, Fails, Covers, Atomic;
    AtomicExactly(d, h, unit);
  }

  lemma OneBlockMixture(d: Disk, h: Handle, t: seq<byte>, unit: nat)
    requires Partitioned(d) && unit > 0 && Between(d, h, t, unit)
    requires InOneBlock(ArrayOffset(d, Primary), ArrayLength(d, Primary), unit)
    ensures t == ArrayOf(d, Primary) || t == h.arr
  {
    hide BlockOf, Takes;
    assert |t| == ArrayLength(d, Primary) && ArrayFits(d, Primary);
    hide Partitioned;
    OneBlock(ArrayOf(d, Primary), h.arr, t, ArrayOffset(d, Primary), unit);
  }

  /** When the primary array lies in one block of the device, every commit from a disk in sync is atomic. */
  lemma OneBlockAtomic(d: Disk, h: Handle, unit: nat)
    requires InSync(d) && Updates(d, h) && unit > 0
    requires InOneBlock(ArrayOffset(d, Primary), ArrayLength(d, Primary), unit)
    ensures Atomic(d, h, unit)
  {
    SyncIsPartitioned(d);
    hide InSync, Partitioned, Updates, Atomic, BlockOf, Crc, Mixture;
    forall t ensures !Collides(d, h, t, unit) {
      if Collides(d, h, t, unit) {
        OneBlockMixture(d, h, t, unit);
      }
    }
    AtomicInSync(d, h, unit);
  }

  // ----- repeating an interrupted commit

  /** Each disk of the trace is what a cut of the commit can leave of the one before it. */
  ghost predicate Retries(d: Disk, h: Handle, trace: seq<Disk>, unit: nat)
    requires Sized(d) && Shaped(h) && unit > 0
  {
    && trace != [] && trace[0] == d
    && forall i: nat :: i + 1 < |trace| ==> CutBy(trace[i], CommitWrites(d, h), trace[i + 1], unit)
  }

  lemma StartUnderway(d: Disk, h: Handle, unit: nat)
    requires Partitioned(d) && unit > 0
    ensures Underway(d, h, d, unit)
  {
  }

  lemma {:induction false} RetriesUnderway(d: Disk, h: Handle, trace: seq<Disk>, unit: nat, i: nat)
    requires Partitioned(d) && Updates(d, h) && unit > 0 && Retries(d, h, trace, unit) && i < |trace|
    ensures Underway(d, h, trace[i], unit)
  {
    assert Sized(d) && Shaped(h);
    hide Partitioned, Updates, CommitWrites, CutBy, Sized, Shaped, Underway;
    if i == 0 {
      assert Underway(d, h, trace[0], unit) by {
        StartUnderway(d, h, unit);
      }
    } else {
      RetriesUnderway(d, h, trace, unit, i - 1);
      var j: nat := i - 1;
      assert CutBy(trace[j], CommitWrites(d, h), trace[j + 1], unit);
      CutStaysUnderway(d, h, trace[i - 1], trace[i], unit);
    }
  }

  /** A commit that is atomic stays so however often it is cut and repeated with the same handle. */
  lemma RetriesAtomic(d: Disk, h: Handle, trace: seq<Disk>, unit: nat, i: nat)
    requires Partitioned(d) && Valid(d, Primary) && Updates(d, h) && unit > 0 && Atomic(d, h, unit)
    requires Retries(d, h, trace, unit) && i < |trace|
    ensures OldOrNew(d, h, trace[i])
  {
    assert Sized(d) && Shaped(h);
    hide Partitioned, Valid, Updates, CutBy, CommitWrites, OldOrNew, Collides, Fails, Covers, Underway, Sized, Shaped;
    hide Atomic, Retries;
    RetriesUnderway(d, h, trace, unit, i);
    AtomicExactly(d, h, unit);
    UnderwaySeen(d, h, trace[i], unit);
  }
}
