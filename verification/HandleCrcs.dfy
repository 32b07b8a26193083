/** The CRCs kept in the handle: after an update those of the headers, after loading not always. */
module HandleCrcs {
  import opened Bytes
  import opened Crc32
  import opened Crc32Residue
  import opened Disk
  import opened HandlePlan
  import opened HandleProofs
  import opened Header

  lemma SealStates(p: seq<byte>, n: nat)
    requires HEADER_MINIMUM <= |p| && n <= |p|
    ensures var r := SealOver(p, n);
      && Get4(r, 16) == Crc(Put4(p, 16, 0)[..n]) && Put4(r, 16, 0) == Put4(p, 16, 0)
      && Get4(r, 88) == Get4(p, 88)
  {
    var r := SealOver(p, n);
    SameNumber(p, r, 88, 92);
    SameField(Put4(r, 16, 0), Put4(p, 16, 0), 16, 20);
    assert forall i :: 0 <= i < |p| ==> Put4(r, 16, 0)[i] == Put4(p, 16, 0)[i];
  }

  /** After an update the four CRCs kept are the ones the two headers state, and those of the headers with their own
      CRC cleared and of the arrays, over the primary's sizes. */
  lemma UpdateKeepsCrcs(h: Handle)
    requires Shaped(h) && Covered(h)
    ensures var r := UpdateCrc(h); var n := HeaderSize(h.hdr);
      && r.hdrCrc == Get4(r.hdr, 16) && r.hdrBakCrc == Get4(r.hdrBak, 16)
      && r.arrCrc == Get4(r.hdr, 88) && r.arrBakCrc == Get4(r.hdrBak, 88)
      && r.hdrCrc == Crc(Put4(r.hdr, 16, 0)[..n]) && r.hdrBakCrc == Crc(Put4(r.hdrBak, 16, 0)[..n])
      && r.arrCrc == Crc(r.arr) && r.arrBakCrc == Crc(r.arrBak[..|r.arr|])
  {
    var n := HeaderSize(h.hdr);
    SealStates(Put4(h.hdr, PARTITION_CRC_OFFSET, Crc(h.arr)), n);
    SealStates(Put4(h.hdrBak, PARTITION_CRC_OFFSET, BackupArrayCrc(h)), n);
  }

  /** Running the CRC over a header without clearing its CRC field gives what clearing it would give exactly when the
      field is zero. */
  lemma ClearedExactly(h: seq<byte>, n: nat)
    requires HEADER_MINIMUM <= |h| && 20 <= n <= |h|
    ensures Crc(h[..n]) == Crc(Put4(h, 16, 0)[..n]) <==> Get4(h, 16) == 0
  {
    var s, t := h[..n], Put4(h, 16, 0)[..n];
    if Get4(h, 16) == 0 {
      SameField(h, Put4(h, 16, 0), 16, 20);
      assert s == t;
    } else {
      if s == t {
        assert forall i :: 16 <= i < 20 ==> h[i] == s[i] == t[i] == Put4(h, 16, 0)[i];
        SameNumber(h, Put4(h, 16, 0), 16, 20);
      }
      BurstDetected(s, t, 16);
    }
  }

  /** Loading keeps the array CRCs the two headers state. What it keeps as a header's CRC, taken without clearing the
      field, is the right one over the primary's header size exactly when the header states zero. */
  lemma LoadKeepsCrcs(d: Disk)
    requires Loadable(d) && 20 <= HeaderSize(HeaderOf(d, Primary))
    ensures var h := Load(d); var n := HeaderSize(h.hdr);
      && h.arrCrc == Get4(h.hdr, 88) && h.arrBakCrc == Get4(h.hdrBak, 88)
      && (h.hdrCrc == Crc(Put4(h.hdr, 16, 0)[..n]) <==> Get4(h.hdr, 16) == 0)
      && (h.hdrBakCrc == Crc(Put4(h.hdrBak, 16, 0)[..n]) <==> Get4(h.hdrBak, 16) == 0)
  {
    hide Crc, Get4, Put4;
    ClearedExactly(HeaderOf(d, Primary), HeaderSize(HeaderOf(d, Primary)));
    ClearedExactly(HeaderOf(d, Secondary), HeaderSize(HeaderOf(d, Primary)));
  }

  lemma LoadKeeps(d: Disk)
    requires Loadable(d)
    ensures Sized(d) && Load(d).hdr == HeaderOf(d, Primary) && Load(d).hdrBak == HeaderOf(d, Secondary)
  {
  }

  lemma SizeKept(g: Handle)
    requires Shaped(g) && Covered(g)
    ensures HeaderSize(UpdateCrc(g).hdr) == HeaderSize(g.hdr)
  {
    UpdateKeepsGeometry(g.hdr, Crc(g.arr), HeaderSize(g.hdr));
    GeometryFields(g.hdr, UpdateCrc(g).hdr, g.blk);
  }

  /** Loading after an update was committed gives back its array CRCs, and its header CRC exactly when that is zero. */
  lemma LoadedAgain(d: Disk, g: Handle)
    requires Shaped(g) && Covered(g) && Committable(d, UpdateCrc(g)) && 20 <= HeaderSize(g.hdr)
    ensures var h := UpdateCrc(g); var e := ApplyAll(d, CommitWrites(d, h));
      && Loadable(e)
      && Load(e).arrCrc == h.arrCrc && Load(e).arrBakCrc == h.arrBakCrc
      && (Load(e).hdrCrc == h.hdrCrc <==> h.hdrCrc == 0) && (Load(e).hdrBakCrc == h.hdrBakCrc <==> h.hdrBakCrc == 0)
  {
    hide Crc, Get4, Put4, Load, UpdateCrc, CommitWrites, Loadable, Shaped, Covered, Number, ArrayStart;
    var h := UpdateCrc(g);
    UpdateKeepsCrcs(g);
    SizeKept(g);
    LoadCommitted(d, h);
    LoadKeeps(ApplyAll(d, CommitWrites(d, h)));
    LoadKeepsCrcs(ApplyAll(d, CommitWrites(d, h)));
  }
}
