/** Which disks can have an edit torn into neither the old nor the new entries, though it was made, sealed and committed
    as intended: those whose primary array is in more than one block of the device. */
module TornEdits {
  import opened Bytes
  import opened Crc32
  import opened Crc32Collisions
  import opened Disk
  import opened Entries
  import opened HandleProofs
  import opened Header
  import opened Tearing
  import opened TornCommits

  // ----- an edit that can be torn

  /** The entries with only byte `q` changed. */
  function Half(a: seq<byte>, q: nat): (t: seq<byte>)
    requires q < |a|
    ensures |t| == |a|
  {
    a[q := if a[q] == 0 then 1 else 0]
  }

  /** The entries with byte `q` changed and the generator mixed into the five bytes from `p` on. */
  function Unlucky(a: seq<byte>, p: nat, q: nat): (b: seq<byte>)
    requires p + 5 <= |a| && q < |a|
    ensures |b| == |a|
  {
    Disguised(Half(a, q), p)
  }

  /** When the two changes are in different blocks, one can be written without the other, and then the CRC is right. */
  lemma UnluckyCollides(a: seq<byte>, p: nat, q: nat, off: nat, unit: nat)
    requires unit > 0 && p + 5 <= |a| && q < |a| && Apart(off, p, q, unit)
    ensures var b, t := Unlucky(a, p, q), Half(a, q);
      Mixture(a, b, t, off, unit) && t != a && t != b && Crc(t) == Crc(b)
  {
    hide BlockOf;
    var b, t := Unlucky(a, p, q), Half(a, q);
    GeneratorUndetected(t, p);
    assert t[q] != a[q] && b[p] != t[p];
    forall k: nat ensures Takes(a, t, off, unit, k) || Takes(b, t, off, unit, k) {
      if k == BlockOf(off, q, unit) {
        assert Takes(b, t, off, unit, k);
      } else {
        assert Takes(a, t, off, unit, k);
      }
    }
  }

  // ----- load, edit, update, commit

  /** The edit's commit is atomic. */
  ghost predicate EditAtomic(d: Disk, a: seq<byte>, b: seq<byte>, unit: nat)
    requires InSync(d) && unit > 0
  {
    |a| == |b| == ArrayLength(d, Primary) ==> Atomic(d, Edited(d, a, b), unit)
  }

  /** The unlucky edit is torn into neither the old nor the new entries. */
  lemma UnluckyTears(d: Disk, p: nat, q: nat, unit: nat)
    requires InSync(d) && unit > 0 && p + 5 <= ArrayLength(d, Primary) && q < ArrayLength(d, Primary)
    requires Apart(ArrayOffset(d, Primary), p, q, unit)
    ensures ArrayFits(d, Primary)
    ensures var b := Unlucky(ArrayOf(d, Primary), p, q); !EditAtomic(d, b, b, unit)
  {
    SyncIsPartitioned(d);
    var a := ArrayOf(d, Primary);
    var b := Unlucky(a, p, q);
    var h := Edited(d, b, b);
    UnluckyCollides(a, p, q, ArrayOffset(d, Primary), unit);
    hide InSync, Partitioned, Updates, Unlucky, Half, Edited, Mixture, Apart, Crc, Atomic;
    assert Collides(d, h, Half(a, q), unit);
    AtomicInSync(d, h, unit);
  }

  lemma NoneOrMany(x: nat, y: nat)
    ensures Product(x, y) == 0 || Product(x, y) >= y
  {
  }

  lemma EmptyOrLong(d: Disk)
    requires InSync(d)
    ensures ArrayLength(d, Primary) == 0 || ArrayLength(d, Primary) >= PTN_ENTRY_SIZE
  {
    hide Valid, Product, HeaderOf;
    NoneOrMany(EntryCount(HeaderOf(d, Primary)), EntrySize(HeaderOf(d, Primary)));
  }

  /** On a disk in sync every edit is committed atomically exactly when the primary array lies in one block. */
  lemma EditsAtomicExactly(d: Disk, unit: nat)
    requires InSync(d) && unit > 0
    ensures (forall a, b :: EditAtomic(d, a, b, unit))
      <==> InOneBlock(ArrayOffset(d, Primary), ArrayLength(d, Primary), unit)
  {
    SyncIsPartitioned(d);
    EmptyOrLong(d);
    hide InSync, Partitioned, Updates, Atomic, BlockOf;
    var off, n := ArrayOffset(d, Primary), ArrayLength(d, Primary);
    if InOneBlock(off, n, unit) {
      forall a, b ensures EditAtomic(d, a, b, unit) {
        if |a| == |b| == n {
          OneBlockAtomic(d, Edited(d, a, b), unit);
        }
      }
    } else {
      var p, q := SomeApart(off, n, unit);
      UnluckyTears(d, p, q, unit);
    }
  }

  lemma StartsWithBlock(d: Disk)
    requires Sized(d) && Product(EntriesLba(HeaderOf(d, Primary)), d.blk) < 0x1_0000_0000_0000_0000
    ensures ArrayOffset(d, Primary) % d.blk == 0
  {
    var lba := EntriesLba(HeaderOf(d, Primary));
    ProductMeaning(lba, d.blk);
    BlockIs(lba, 0, d.blk);
  }

  /** In the disk's own blocks: exactly when the array is no longer than one. */
  lemma LongArraysTear(d: Disk)
    requires InSync(d) && Product(EntriesLba(HeaderOf(d, Primary)), d.blk) < 0x1_0000_0000_0000_0000
    ensures (forall a, b :: EditAtomic(d, a, b, d.blk)) <==> ArrayLength(d, Primary) <= d.blk
  {
    SyncIsPartitioned(d);
    hide InSync, Partitioned, EditAtomic, InOneBlock;
    StartsWithBlock(d);
    EditsAtomicExactly(d, d.blk);
    WholeBlocks(ArrayOffset(d, Primary), ArrayLength(d, Primary), d.blk);
  }
}
