/** The gpt_disk handle on values: what loading gives, what a CRC update makes of it, what a commit writes. */
module HandlePlan {
  import opened Bytes
  import opened Crc32
  import opened Header
  import opened HeaderProofs
  import opened Disk

  /** The contents of struct gpt_disk. */
  datatype Handle = Handle(
    hdr: seq<byte>, hdrCrc: word, hdrBak: seq<byte>, hdrBakCrc: word,
    arr: seq<byte>, arrBak: seq<byte>, arrSize: nat, entrySize: nat, arrCrc: word, arrBakCrc: word, blk: nat)

  /** Buffers as loading allocates them: a block per header, and each array the size its own header gives. The size
      kept for both is the primary's. */
  predicate Shaped(h: Handle) {
    && HEADER_MINIMUM <= |h.hdr| == |h.hdrBak| == h.blk
    && HeaderSize(h.hdr) <= h.blk
    && |h.arr| == h.arrSize == ArraySize(h.hdr) && |h.arrBak| == ArraySize(h.hdrBak)
  }

  /** The size kept for both arrays stays inside the backup's buffer. */
  predicate Covered(h: Handle) {
    h.arrSize <= |h.arrBak|
  }

  /** A disk with room for a primary header of the size it states, and for the array of each header. */
  predicate Loadable(d: Disk) {
    Sized(d) && WellFormed(HeaderOf(d, Primary)) && ArrayFits(d, Primary) && ArrayFits(d, Secondary)
  }

  /** gpt_disk_get_disk_info. Both header CRCs are over the primary's header size and with the CRC field as it is. */
  function Load(d: Disk): (h: Handle)
    requires Loadable(d)
    ensures Shaped(h)
  {
    var p, q := HeaderOf(d, Primary), HeaderOf(d, Secondary);
    Handle(p, Crc(p[..HeaderSize(p)]), q, Crc(q[..HeaderSize(p)]),
           ArrayOf(d, Primary), ArrayOf(d, Secondary), ArraySize(p), EntrySize(p), ArrayCrc(p), ArrayCrc(q), d.blk)
  }

  // ----- updating the CRCs

  /** The CRC kept for the backup array: over the primary's array size. */
  function BackupArrayCrc(h: Handle): word
    requires Covered(h)
  {
    Crc(h.arrBak[..h.arrSize])
  }

  lemma UpdateKeepsGeometry(h: seq<byte>, crc: word, n: nat)
    requires HEADER_MINIMUM <= |h| && n <= |h|
    ensures SameGeometry(h, SealOver(Put4(h, PARTITION_CRC_OFFSET, crc), n))
  {
  }

  /** gpt_disk_update_crc. The primary's header size is used for both headers, and its array size for both arrays. */
  function UpdateCrc(h: Handle): (r: Handle)
    requires Shaped(h) && Covered(h)
    ensures Shaped(r) && Covered(r)
  {
    var n := HeaderSize(h.hdr);
    var a, b := Crc(h.arr), BackupArrayCrc(h);
    var p, q := Put4(h.hdr, PARTITION_CRC_OFFSET, a), Put4(h.hdrBak, PARTITION_CRC_OFFSET, b);
    var hdr, hdrBak := SealOver(p, n), SealOver(q, n);
    UpdateKeepsGeometry(h.hdr, a, n);
    UpdateKeepsGeometry(h.hdrBak, b, n);
    GeometryFields(h.hdr, hdr, h.blk);
    GeometryFields(h.hdrBak, hdrBak, h.blk);
    h.(hdr := hdr, hdrBak := hdrBak, hdrCrc := Crc(Put4(p, HEADER_CRC_OFFSET, 0)[..n]),
       hdrBakCrc := Crc(Put4(q, HEADER_CRC_OFFSET, 0)[..n]), arrCrc := a, arrBakCrc := b)
  }

  lemma HeaderUpdated(h: seq<byte>, crc: word, n: nat)
    requires HEADER_MINIMUM <= |h| && n <= |h|
    ensures var r := SealOver(Put4(h, PARTITION_CRC_OFFSET, crc), n);
      && ArrayCrc(r) == crc && SameGeometry(h, r)
      && (HeaderSize(h) == n ==> WellFormed(r) && State(r) != BadCrc && (h[..9] == GPT_SIGNATURE ==> State(r) == Ok))
  {
    var p := Put4(h, PARTITION_CRC_OFFSET, crc);
    var r := SealOver(p, n);
    SameNumber(p, r, PARTITION_CRC_OFFSET, PARTITION_CRC_OFFSET + 4);
    UpdateKeepsGeometry(h, crc, n);
    if HeaderSize(h) == n {
      SameSize(h, p);
      SealOverOwnSize(p);
      SealSeals(p);
      assert r[..9] == h[..9];
    }
  }

  /** The backup header as the update seals it: its array CRC set and its own CRC cleared. */
  function Unsealed(h: Handle): (r: seq<byte>)
    requires Shaped(h) && Covered(h)
    ensures |r| == h.blk
  {
    Put4(Put4(h.hdrBak, PARTITION_CRC_OFFSET, BackupArrayCrc(h)), HEADER_CRC_OFFSET, 0)
  }

  /** After the update the primary's array CRC field and header CRC are right. The backup's array CRC field is right
      exactly when its array has the CRC of as many bytes as the primary's array has, and its header CRC exactly when
      its size and the primary's give the same CRC. No other byte of either header and no array changes. */
  lemma UpdateMakesValid(h: Handle)
    requires Shaped(h) && Covered(h)
    ensures var r := UpdateCrc(h);
      && ArrayCrc(r.hdr) == Crc(r.arr) && WellFormed(r.hdr) && State(r.hdr) != BadCrc
      && (ArrayCrc(r.hdrBak) == Crc(r.arrBak) <==> BackupArrayCrc(h) == Crc(h.arrBak))
      && (WellFormed(r.hdrBak) <==> HeaderSize(h.hdrBak) <= h.blk)
      && (HeaderSize(h.hdrBak) <= h.blk ==>
           (State(r.hdrBak) != BadCrc
            <==> Crc(Unsealed(h)[..HeaderSize(h.hdrBak)]) == Crc(Unsealed(h)[..HeaderSize(h.hdr)])))
    ensures var r := UpdateCrc(h);
      && r.arr == h.arr && r.arrBak == h.arrBak
      && forall i :: 0 <= i < h.blk && !(16 <= i < 20) && !(88 <= i < 92)
           ==> r.hdr[i] == h.hdr[i] && r.hdrBak[i] == h.hdrBak[i]
  {
    var n, q := HeaderSize(h.hdr), Put4(h.hdrBak, PARTITION_CRC_OFFSET, BackupArrayCrc(h));
    HeaderUpdated(h.hdr, Crc(h.arr), n);
    HeaderUpdated(h.hdrBak, BackupArrayCrc(h), n);
    GeometryFields(h.hdrBak, SealOver(q, n), h.blk);
    PutAgain(q, SealOver(q, n), 0);
  }

  /** In particular the backup copy is right when the two headers agree on both sizes. */
  lemma UpdateMakesBothValid(h: Handle)
    requires Shaped(h) && |h.arrBak| == h.arrSize && HeaderSize(h.hdrBak) == HeaderSize(h.hdr)
    ensures var r := UpdateCrc(h);
      && ArrayCrc(r.hdr) == Crc(r.arr) && ArrayCrc(r.hdrBak) == Crc(r.arrBak)
      && WellFormed(r.hdr) && WellFormed(r.hdrBak) && State(r.hdr) != BadCrc && State(r.hdrBak) != BadCrc
  {
    UpdateMakesValid(h);
    assert h.arrBak[..h.arrSize] == h.arrBak;
  }

  /** A byte of the backup header behind the fields is sealed as it is. */
  lemma LaterByte(h: Handle, n: nat, x: byte)
    requires Shaped(h) && Covered(h) && HEADER_MINIMUM <= n < h.blk
    ensures var g := h.(hdrBak := h.hdrBak[n := x]);
      && Shaped(g) && Covered(g) && HeaderSize(g.hdrBak) == HeaderSize(h.hdrBak)
      && Unsealed(g) == Unsealed(h)[n := x]
  {
    var g := h.(hdrBak := h.hdrBak[n := x]);
    assert SameGeometry(h.hdrBak, g.hdrBak);
    GeometryFields(h.hdrBak, g.hdrBak, h.blk);
    PutElsewhere(h.hdrBak, PARTITION_CRC_OFFSET, BackupArrayCrc(h), n, x);
    PutElsewhere(Put4(h.hdrBak, PARTITION_CRC_OFFSET, BackupArrayCrc(h)), HEADER_CRC_OFFSET, 0, n, x);
  }

  lemma LongerDiffers(u: seq<byte>, n: nat, x: byte, y: byte)
    requires n < |u| && x != y
    ensures u[n := x][..n] == u[n := y][..n]
    ensures Crc(u[n := x][..n + 1]) != Crc(u[n := y][..n + 1])
  {
    assert u[n := y][..n + 1] == u[n := x][..n + 1][n := y];
    SingleByteDetected(u[n := x][..n + 1], n, y);
  }

  /** When the backup header is one byte longer than the primary's, at most one value of that byte is sealed right:
      of any two, one gives a bad CRC. */
  lemma LongerBackupFails(h: Handle, x: byte, y: byte)
    requires Shaped(h) && Covered(h) && x != y
    requires HEADER_MINIMUM <= HeaderSize(h.hdr) && HeaderSize(h.hdrBak) == HeaderSize(h.hdr) + 1 <= h.blk
    ensures var n := HeaderSize(h.hdr);
      var g, k := h.(hdrBak := h.hdrBak[n := x]), h.(hdrBak := h.hdrBak[n := y]);
      && Shaped(g) && Shaped(k)
      && WellFormed(UpdateCrc(g).hdrBak) && WellFormed(UpdateCrc(k).hdrBak)
      && (State(UpdateCrc(g).hdrBak) == BadCrc || State(UpdateCrc(k).hdrBak) == BadCrc)
  {
    hide UpdateCrc, Crc, State, Unsealed, HeaderSize, Covered, WellFormed, Number;
    var n := HeaderSize(h.hdr);
    LaterByte(h, n, x);
    LaterByte(h, n, y);
    var g, k := h.(hdrBak := h.hdrBak[n := x]), h.(hdrBak := h.hdrBak[n := y]);
    UpdateMakesValid(g);
    UpdateMakesValid(k);
    LongerDiffers(Unsealed(h), n, x, y);
  }

  lemma SealOverTwice(h: seq<byte>, crc: word, n: nat)
    requires HEADER_MINIMUM <= |h| && n <= |h|
    ensures var p := Put4(h, PARTITION_CRC_OFFSET, crc);
      var q := Put4(SealOver(p, n), PARTITION_CRC_OFFSET, crc);
      SealOver(q, n) == SealOver(p, n) && Put4(q, HEADER_CRC_OFFSET, 0) == Put4(p, HEADER_CRC_OFFSET, 0)
  {
    var p := Put4(h, PARTITION_CRC_OFFSET, crc);
    var q := Put4(SealOver(p, n), PARTITION_CRC_OFFSET, crc);
    SameField(p, q, PARTITION_CRC_OFFSET, PARTITION_CRC_OFFSET + 4);
    PutAgain(p, q, 0);
    PutAgain(p, q, Crc(Put4(p, HEADER_CRC_OFFSET, 0)[..n]));
  }

  /** Updating twice is updating once. */
  lemma UpdateTwice(h: Handle)
    requires Shaped(h) && Covered(h)
    ensures UpdateCrc(UpdateCrc(h)) == UpdateCrc(h)
  {
    var n := HeaderSize(h.hdr);
    UpdateKeepsGeometry(h.hdr, Crc(h.arr), n);
    GeometryFields(h.hdr, UpdateCrc(h).hdr, h.blk);
    SealOverTwice(h.hdr, Crc(h.arr), n);
    SealOverTwice(h.hdrBak, BackupArrayCrc(h), n);
  }

  // ----- committing

  /** gpt_disk_commit: primary header, primary array, secondary header, secondary array; each array goes where its
      own header says. */
  function CommitWrites(d: Disk, h: Handle): seq<Write>
    requires Sized(d) && Shaped(h)
  {
    [HeaderWrite(d, Primary, h.hdr), Write(ArrayStart(h.hdr, h.blk), h.arr, false),
     HeaderWrite(d, Secondary, h.hdrBak), Write(ArrayStart(h.hdrBak, h.blk), h.arrBak, false)]
  }

  /** The handle was loaded from a disk with blocks of this size. */
  predicate Writable(d: Disk, h: Handle) {
    Sized(d) && Shaped(h) && h.blk == d.blk
  }

  /** Moreover its headers place its arrays on the disk, and no array shares a byte with a header or with the other
      array. */
  predicate Committable(d: Disk, h: Handle) {
    && Writable(d, h)
    && var p, m, q, n := ArrayStart(h.hdr, h.blk), |h.arr|, ArrayStart(h.hdrBak, h.blk), |h.arrBak|;
      && p + m <= |d.bytes| && q + n <= |d.bytes| && Disjoint(p, m, q, n)
      && Disjoint(p, m, d.blk, d.blk) && Disjoint(p, m, |d.bytes| - d.blk, d.blk)
      && Disjoint(q, n, d.blk, d.blk) && Disjoint(q, n, |d.bytes| - d.blk, d.blk)
  }
}
