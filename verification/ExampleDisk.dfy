/** A small partitioned disk with a backup pair: what the theorems about updates start from does exist. */
module ExampleDisk {
  import opened Bytes
  import opened Crc32
  import opened Disk
  import opened Entries
  import opened Header
  import opened HeaderFields
  import opened HeaderProofs
  import opened StagedPlan
  import opened Wrappers

  const BLOCK: nat := 512

  /** Four entries of 128 bytes, the first called "tz" and the second "tzbak". */
  function Table(): (a: seq<byte>)
    ensures |a| == BLOCK
  {
    seq(BLOCK, i =>
      if i == 56 || i == 184 then 't' as int
      else if i == 58 || i == 186 then 'z' as int
      else if i == 188 then 'b' as int
      else if i == 190 then 'a' as int
      else if i == 192 then 'k' as int
      else 0)
  }

  function Blank(n: nat): (s: seq<byte>)
    ensures |s| == n && forall i :: 0 <= i < n ==> s[i] == 0
  {
    seq(n, _ => 0)
  }

  /** A header in block `own` for an array of four entries in block `lba`, not yet sealed. */
  function RawHeader(own: word, lba: word): (h: seq<byte>)
    ensures |h| == BLOCK
  {
    var h := (GPT_SIGNATURE + Blank(BLOCK - 9))[12 := 92][80 := 4][84 := 128];
    PutOctets(PutOctets(h, 24, own), 72, lba)
  }

  lemma {:induction false} OctetsEnd(v: nat, k: nat)
    requires v < Pow256(k)
    ensures Octet(v, k) == 0
    decreases k
  {
    if k == 0 {
    } else {
      OctetsEnd(v / 0x100, k - 1);
    }
  }

  lemma {:induction false} Pow256Grows(m: nat, n: nat)
    requires m <= n
    ensures Pow256(m) <= Pow256(n)
  {
    if m == n {
    } else {
      Pow256Grows(m, n - 1);
    }
  }

  /** A field whose first four bytes are those of a word and whose others are zero. */
  lemma WordField(h: seq<byte>, off: nat, n: nat, v: word)
    requires 4 <= n && off + n <= |h|
    requires forall k: nat :: k < 4 ==> h[off + k] == Octet(v, k)
    requires forall i :: off + 4 <= i < off + n ==> h[i] == 0
    ensures Octetwise(h, off, n, v)
  {
    hide Octet, Pow256;
    FieldSizes();
    forall k: nat | k < n ensures h[off + k] == Octet(v, k) {
      if k >= 4 {
        assert h[off + k] == 0;
        Pow256Grows(4, k);
        OctetsEnd(v, k);
      }
    }
  }

  /** Behind the signature and outside the two LBAs, only three bytes of the header are not zero. */
  lemma RawBytes(own: word, lba: word, i: nat)
    requires 9 <= i < BLOCK && !(24 <= i < 28) && !(72 <= i < 76)
    ensures RawHeader(own, lba)[i] == if i == 12 then 92 else if i == 80 then 4 else if i == 84 then 128 else 0
  {
  }

  lemma RawLbas(own: word, lba: word, k: nat)
    requires k < 4
    ensures RawHeader(own, lba)[24 + k] == Octet(own, k) && RawHeader(own, lba)[72 + k] == Octet(lba, k)
  {
  }

  lemma SmallOctets(v: byte)
    ensures Octet(v, 0) == v && Octet(v, 1) == 0 && Octet(v, 2) == 0 && Octet(v, 3) == 0
  {
    OctetShifts(v);
  }

  /** The three fields of four bytes that hold one each. */
  lemma RawSmall(own: word, lba: word, off: nat, v: byte)
    requires (off == 12 && v == 92) || (off == 80 && v == 4) || (off == 84 && v == 128)
    ensures Octetwise(RawHeader(own, lba), off, 4, v)
  {
    hide RawHeader, Octet;
    SmallOctets(v);
    RawBytes(own, lba, off);
    RawBytes(own, lba, off + 1);
    RawBytes(own, lba, off + 2);
    RawBytes(own, lba, off + 3);
  }

  lemma RawLarge(own: word, lba: word)
    ensures Octetwise(RawHeader(own, lba), 24, 8, own) && Octetwise(RawHeader(own, lba), 72, 8, lba)
  {
    hide RawHeader, Octetwise, Octet;
    var h := RawHeader(own, lba);
    forall k: nat | k < 4 ensures h[24 + k] == Octet(own, k) && h[72 + k] == Octet(lba, k) {
      RawLbas(own, lba, k);
    }
    forall i | 28 <= i < 32 || 76 <= i < 80 ensures h[i] == 0 {
      RawBytes(own, lba, i);
    }
    WordField(h, 24, 8, own);
    WordField(h, 72, 8, lba);
  }

  lemma RawFields(own: word, lba: word)
    ensures var h := RawHeader(own, lba);
      && HeaderSize(h) == 92 && OwnLba(h) == own && EntriesLba(h) == lba && EntryCount(h) == 4 && EntrySize(h) == 128
      && ArraySize(h) == BLOCK && ArrayStart(h, BLOCK) == BLOCK * lba && Product(OwnLba(h), BLOCK) == BLOCK * own
  {
    hide RawHeader, Octetwise, HeaderSize, OwnLba, EntriesLba, EntryCount, EntrySize, ArraySize, ArrayStart, Product;
    var h := RawHeader(own, lba);
    RawSmall(own, lba, 12, 92);
    RawSmall(own, lba, 80, 4);
    RawSmall(own, lba, 84, 128);
    RawLarge(own, lba);
    FieldsFromBytes(h, 92);
    FieldsFromBytes(h, own);
    FieldsFromBytes(h, lba);
    FieldsFromBytes(h, 4);
    FieldsFromBytes(h, 128);
    ArrayFromBytes(h, BLOCK, lba, 4, 128);
    ProductMeaning(own, BLOCK);
  }

  /** The header sealed for the table. */
  function TableHeader(own: word, lba: word): (h: seq<byte>)
    ensures |h| == BLOCK && SameGeometry(RawHeader(own, lba), h)
  {
    RawFields(own, lba);
    ArrayCrcSet(RawHeader(own, lba), Crc(Table()));
    SetArrayCrc(RawHeader(own, lba), Crc(Table()))
  }

  /** A good header in block `own` for the array `a` of four entries in block `lba`. */
  predicate Describes(h: seq<byte>, own: nat, lba: nat, a: seq<byte>) {
    && WellFormed(h) && State(h) == Ok && ArrayCrc(h) == Crc(a)
    && EntryCount(h) == 4 && EntrySize(h) == 128 && ArraySize(h) == BLOCK
    && ArrayStart(h, BLOCK) == BLOCK * lba && Product(OwnLba(h), BLOCK) == BLOCK * own
  }

  lemma SameStart(h: seq<byte>, g: seq<byte>)
    requires |h| >= 9 && |g| >= 9 && forall i :: 0 <= i < 9 ==> h[i] == g[i]
    ensures h[..9] == g[..9]
  {
  }

  lemma TableHeaderGood(own: word, lba: word)
    ensures Describes(TableHeader(own, lba), own, lba, Table())
  {
    var r := RawHeader(own, lba);
    RawFields(own, lba);
    ArrayCrcSet(r, Crc(Table()));
    GeometryFields(r, TableHeader(own, lba), BLOCK);
    assert r[..9] == GPT_SIGNATURE;
    hide RawHeader, ArraySize, ArrayStart, EntryCount, EntrySize, OwnLba, SetArrayCrc, Crc;
    SameStart(r, TableHeader(own, lba));
  }

  function Append(s: seq<byte>, t: seq<byte>): (r: seq<byte>)
    ensures |r| == |s| + |t|
  {
    s + t
  }

  /** An empty block, the primary copy, `gap` blocks, and the secondary copy with its header last. */
  function Example(gap: nat): (d: Disk)
    requires gap < 0xFFFF_FFFC
    ensures d.blk == BLOCK && |d.bytes| == BLOCK * (gap + 5)
  {
    var s := Append(Append(Append(Blank(BLOCK), TableHeader(1, 2)), Table()), Blank(BLOCK * gap));
    Disk(Append(Append(s, Table()), TableHeader(gap + 4, gap + 3)), BLOCK)
  }

  lemma ReadLast(s: seq<byte>, t: seq<byte>)
    ensures Read(Append(s, t), |s|, |t|) == t
  {
    ReadIsSlice(s + t, |s|, |t|);
  }

  lemma ReadBefore(s: seq<byte>, t: seq<byte>, p: nat, n: nat)
    requires p + n <= |s|
    ensures Read(Append(s, t), p, n) == Read(s, p, n)
  {
    SameRead(s, s + t, p, n);
  }

  lemma SixParts(z: seq<byte>, h: seq<byte>, a: seq<byte>, y: seq<byte>, b: seq<byte>, g: seq<byte>,
                 p: nat, q: nat, r: nat, t: nat)
    requires p == |z| && q == p + |h| && r == q + |a| + |y| && t == r + |b|
    ensures var s := Append(Append(Append(Append(Append(z, h), a), y), b), g);
      && |s| == t + |g|
      && Read(s, p, |h|) == h && Read(s, q, |a|) == a && Read(s, r, |b|) == b && Read(s, t, |g|) == g
  {
    hide Read, Append;
    var s1 := Append(z, h);
    var s2 := Append(s1, a);
    var s3 := Append(s2, y);
    var s4 := Append(s3, b);
    ReadLast(z, h);
    ReadBefore(s1, a, p, |h|);
    ReadBefore(s2, y, p, |h|);
    ReadBefore(s3, b, p, |h|);
    ReadBefore(s4, g, p, |h|);
    ReadLast(s1, a);
    ReadBefore(s2, y, q, |a|);
    ReadBefore(s3, b, q, |a|);
    ReadBefore(s4, g, q, |a|);
    ReadLast(s3, b);
    ReadBefore(s4, g, r, |b|);
    ReadLast(s4, g);
  }

  /** Two good headers and two equal arrays in their places make a disk that is in sync. */
  lemma CopiesInSync(d: Disk, gap: nat, h: seq<byte>, g: seq<byte>, a: seq<byte>)
    requires d.blk == BLOCK && |d.bytes| == BLOCK * (gap + 5) && |a| == BLOCK
    requires Describes(h, 1, 2, a) && Describes(g, gap + 4, gap + 3, a)
    requires Read(d.bytes, BLOCK, BLOCK) == h && Read(d.bytes, BLOCK * (gap + 4), BLOCK) == g
    requires Read(d.bytes, 2 * BLOCK, BLOCK) == a && Read(d.bytes, BLOCK * (gap + 3), BLOCK) == a
    ensures InSync(d) && ArrayOf(d, Primary) == a && EntrySize(HeaderOf(d, Primary)) == 128
  {
    hide State, Crc, ArrayCrc, Read, WellFormed, OwnLba, EntryCount, EntrySize, ArraySize, ArrayStart, Product;
    assert HeaderOf(d, Primary) == h && HeaderOf(d, Secondary) == g;
    ProductMeaning(4, 128);
  }

  lemma ExampleInSync(gap: nat)
    requires gap < 0xFFFF_FFFC
    ensures InSync(Example(gap)) && ArrayOf(Example(gap), Primary) == Table()
    ensures EntrySize(HeaderOf(Example(gap), Primary)) == 128
  {
    hide TableHeader, Table, Describes, InSync, Read, Append;
    TableHeaderGood(1, 2);
    TableHeaderGood(gap + 4, gap + 3);
    SixParts(Blank(BLOCK), TableHeader(1, 2), Table(), Blank(BLOCK * gap), Table(), TableHeader(gap + 4, gap + 3),
             BLOCK, 2 * BLOCK, BLOCK * (gap + 3), BLOCK * (gap + 4));
    CopiesInSync(Example(gap), gap, TableHeader(1, 2), TableHeader(gap + 4, gap + 3), Table());
  }

  // ----- the backup pair

  lemma StringOfTwo(s: string)
    requires |s| > 2 && s[0] == 't' && s[1] == 'z' && s[2] == '\0'
    ensures CString(s) == "tz"
  {
    CStringSplit(s, 2);
    assert s[..2] == "tz";
  }

  lemma StringOfFive(s: string)
    requires |s| > 5 && s[0] == 't' && s[1] == 'z' && s[2] == 'b' && s[3] == 'a' && s[4] == 'k' && s[5] == '\0'
    ensures CString(s) == "tzbak"
  {
    CStringSplit(s, 5);
    assert s[..5] == "tzbak";
  }

  /** The letters of the name buffer of an entry of the table. */
  lemma NameLetter(p: nat, i: nat)
    requires p + PTN_ENTRY_SIZE <= BLOCK && i < 6
    ensures NameBuffer(Table(), p)[i] == Char(Table()[p + PARTITION_NAME_OFFSET + 2 * i])
  {
  }

  lemma TableLetters()
    ensures var a := Table(); a[56] == 't' as int && a[58] == 'z' as int && a[60] == 0
    ensures var a := Table(); a[184] == 't' as int && a[186] == 'z' as int && a[188] == 'b' as int
    ensures var a := Table(); a[190] == 'a' as int && a[192] == 'k' as int && a[194] == 0
  {
  }

  lemma TableNames()
    ensures EntryName(Table(), 0) == "tz" && EntryName(Table(), 128) == "tz" + BAK_PTN_NAME_EXT
  {
    hide Table, NameBuffer, CString;
    TableLetters();
    forall i: nat | i < 6 ensures NameBuffer(Table(), 0)[i] == Char(Table()[PARTITION_NAME_OFFSET + 2 * i]) {
      NameLetter(0, i);
    }
    forall i: nat | i < 6 ensures NameBuffer(Table(), 128)[i] == Char(Table()[128 + PARTITION_NAME_OFFSET + 2 * i]) {
      NameLetter(128, i);
    }
    StringOfTwo(NameBuffer(Table(), 0));
    StringOfFive(NameBuffer(Table(), 128));
  }

  lemma TablePair()
    ensures Multiple(BLOCK, 128) && Pair(Table(), 128, "tz") == Some((0, 128))
  {
    assert Multiple(128, 128) && Multiple(256, 128) && Multiple(384, 128);
    TableNames();
    hide Table, EntryName;
  }

  lemma {:induction false} AllActive(names: seq<string>)
    ensures Active(names, false) == names
  {
    if names == [] {
    } else {
      AllActive(names[1..]);
    }
  }

  lemma PairMakesBackup(d: Disk, name: string)
    requires Partitioned(d) && EntrySize(HeaderOf(d, Primary)) == 128 && Multiple(|ArrayOf(d, Primary)|, 128)
    requires name in SwapList(false) && Pair(ArrayOf(d, Primary), 128, name).Some?
    ensures BackupPresent(d, false)
  {
    hide Partitioned, SwapList, Pair;
  }

  lemma TzIsListed()
    ensures "tz" in SwapList(false)
  {
    AllActive(PTN_SWAP_LIST);
    assert PTN_SWAP_LIST[4] == "tz";
  }

  /** A disk of any number of blocks from five up is in sync and has a backup pair, so the update changes it. */
  lemma ExampleHasBackup(gap: nat)
    requires gap < 0xFFFF_FFFC
    ensures InSync(Example(gap)) && BackupPresent(Example(gap), false)
  {
    hide Table, TableHeader, Example, Pair, InSync, SwapList, BackupPresent, Partitioned;
    ExampleInSync(gap);
    SyncIsPartitioned(Example(gap));
    TablePair();
    TzIsListed();
    PairMakesBackup(Example(gap), "tz");
  }
}
