/** What the updater can rely on about header blocks: set-then-get, undoing, canonical forms, error detection. */
module HeaderProofs {
  import opened Bytes
  import opened Crc32
  import opened Header

  lemma SealOverOwnSize(h: seq<byte>)
    requires WellFormed(h)
    ensures SealOver(h, HeaderSize(h)) == Seal(h)
  {
  }

  /** Blocks that differ only in the header CRC are equal once it is written. */
  lemma PutAgain(p: seq<byte>, q: seq<byte>, crc: word)
    requires HEADER_MINIMUM <= |p| == |q| && forall i :: 0 <= i < |p| && !(16 <= i < 20) ==> p[i] == q[i]
    ensures Put4(p, HEADER_CRC_OFFSET, crc) == Put4(q, HEADER_CRC_OFFSET, crc)
  {
    var a, b := Put4(p, HEADER_CRC_OFFSET, crc), Put4(q, HEADER_CRC_OFFSET, crc);
    SameField(a, b, HEADER_CRC_OFFSET, HEADER_CRC_OFFSET + 4);
    assert forall i :: 0 <= i < |p| ==> a[i] == b[i];
  }

  /** The header CRC field keeps only what was written to it last. */
  lemma PutTwice(h: seq<byte>, crc: word)
    requires HEADER_MINIMUM <= |h|
    ensures Put4(Put4(h, HEADER_CRC_OFFSET, 0), HEADER_CRC_OFFSET, crc) == Put4(h, HEADER_CRC_OFFSET, crc)
  {
    PutAgain(h, Put4(h, HEADER_CRC_OFFSET, 0), crc);
  }

  /** Sealing looks through the CRC field: it depends on the other bytes only. */
  lemma SealForgets(h: seq<byte>, g: seq<byte>)
    requires WellFormed(h) && |g| == |h|
    requires forall i :: 0 <= i < |h| && !(16 <= i < 20) ==> h[i] == g[i]
    ensures WellFormed(g) && Seal(h) == Seal(g)
  {
    SameSize(h, g);
    assert Put4(h, HEADER_CRC_OFFSET, 0) == Put4(g, HEADER_CRC_OFFSET, 0);
  }

  /** A sealed block carries the right CRC, and sealing it again changes nothing. */
  lemma SealSeals(h: seq<byte>)
    requires WellFormed(h)
    ensures SameGeometry(h, Seal(h)) && WellFormed(Seal(h))
    ensures ComputedCrc(Seal(h)) == Get4(Seal(h), HEADER_CRC_OFFSET)
    ensures Seal(Seal(h)) == Seal(h)
  {
    SameSize(h, Seal(h));
    SealForgets(h, Seal(h));
    assert Put4(Seal(h), HEADER_CRC_OFFSET, 0) == Put4(h, HEADER_CRC_OFFSET, 0);
  }

  /** A block whose CRC is right is its own sealed form. */
  lemma SealedIsFixed(h: seq<byte>)
    requires WellFormed(h) && ComputedCrc(h) == Get4(h, HEADER_CRC_OFFSET)
    ensures Seal(h) == h
  {
    SameField(h, Seal(h), HEADER_CRC_OFFSET, HEADER_CRC_OFFSET + 4);
    assert forall i :: 0 <= i < |h| ==> Seal(h)[i] == h[i];
  }

  lemma SignatureOf(h: seq<byte>, good: bool)
    requires HEADER_MINIMUM <= |h|
    ensures Signed(h, good)[..9] == GPT_SIGNATURE <==> good
  {
    if good {
      assert Signed(h, good)[..9] == GPT_SIGNATURE;
    } else {
      assert Signed(h, good)[..9][0] == 0;
    }
  }

  /** A good header starts with the eight letters and a NUL, and only such a one with a right CRC is good. */
  lemma GoodSpells(h: seq<byte>)
    requires WellFormed(h) && State(h) != BadCrc
    ensures State(h) == Ok <==> h[8] == 0 && forall i :: 0 <= i < 8 ==> h[i] as char == "EFI PART"[i]
  {
    if State(h) == Ok {
      forall i | 0 <= i < 9 ensures h[i] == GPT_SIGNATURE[i] {
        assert h[..9][i] == h[i];
      }
    }
    if h[8] == 0 && forall i :: 0 <= i < 8 ==> h[i] as char == "EFI PART"[i] {
      forall i | 0 <= i < 9 ensures h[i] == GPT_SIGNATURE[i] {
        if i < 8 {
          assert h[i] as char == "EFI PART"[i];
        }
      }
      assert h[..9] == GPT_SIGNATURE;
    }
  }

  /** Setting a state and reading it back agree, on every block; only the signature and the CRC field move: the
      signature is written whole, or its first byte cleared. */
  lemma SetThenGet(h: seq<byte>, good: bool)
    requires WellFormed(h)
    ensures SameGeometry(h, SetState(h, good)) && WellFormed(SetState(h, good))
    ensures State(SetState(h, good)) == if good then Ok else BadSignature
    ensures forall i :: 9 <= i < |h| && !(16 <= i < 20) ==> SetState(h, good)[i] == h[i]
    ensures if good then SetState(h, good)[..9] == GPT_SIGNATURE else SetState(h, good)[..9] == h[..9][0 := 0]
  {
    var s := Signed(h, good);
    SameSize(h, s);
    SealSeals(s);
    SignatureOf(h, good);
    assert SetState(h, good)[..9] == s[..9];
  }

  /** A new array CRC moves only the array CRC and the header CRC, and leaves the header CRC right. */
  lemma ArrayCrcSet(h: seq<byte>, crc: word)
    requires WellFormed(h)
    ensures SameGeometry(h, SetArrayCrc(h, crc)) && WellFormed(SetArrayCrc(h, crc))
    ensures ArrayCrc(SetArrayCrc(h, crc)) == crc && State(SetArrayCrc(h, crc)) != BadCrc
    ensures forall i :: 0 <= i < |h| && !(16 <= i < 20) && !(88 <= i < 92) ==> SetArrayCrc(h, crc)[i] == h[i]
  {
    var p := Put4(h, PARTITION_CRC_OFFSET, crc);
    SameSize(h, p);
    SealSeals(p);
    SameNumber(p, Seal(p), PARTITION_CRC_OFFSET, PARTITION_CRC_OFFSET + 4);
  }

  /** Corrupting and then fixing gives the block back byte for byte exactly when it was good before. */
  lemma CorruptThenFix(h: seq<byte>)
    requires WellFormed(h)
    ensures WellFormed(SetState(h, false))
    ensures SetState(SetState(h, false), true) == h <==> State(h) == Ok
  {
    SetThenGet(h, false);
    var bad := SetState(h, false);
    SetThenGet(bad, true);
    if State(h) == Ok {
      var s := Signed(bad, true);
      SameSize(bad, s);
      assert forall i :: 0 <= i < 9 ==> h[i] == h[..9][i];
      SealForgets(s, h);
      SealedIsFixed(h);
    }
  }

  // ----- canonical forms

  /** The form every header the updater writes has: a base block, a signature state and an array CRC, sealed. */
  function Form(base: seq<byte>, good: bool, crc: word): seq<byte>
    requires WellFormed(base)
  {
    var h := Put4(Signed(base, good), PARTITION_CRC_OFFSET, crc);
    SameSize(base, h);
    Seal(h)
  }

  lemma FormShape(base: seq<byte>, good: bool, crc: word)
    requires WellFormed(base)
    ensures var f := Form(base, good, crc);
      && SameGeometry(base, f) && WellFormed(f)
      && State(f) == (if good then Ok else BadSignature)
      && ArrayCrc(f) == crc
  {
    var h := Put4(Signed(base, good), PARTITION_CRC_OFFSET, crc);
    SameSize(base, h);
    SealSeals(h);
    SameNumber(h, Seal(h), PARTITION_CRC_OFFSET, PARTITION_CRC_OFFSET + 4);
    SignatureOf(base, good);
    assert Form(base, good, crc)[..9] == Signed(base, good)[..9];
  }

  /** A good header is its own form. */
  lemma FormOfGood(base: seq<byte>)
    requires WellFormed(base) && State(base) == Ok
    ensures Form(base, true, ArrayCrc(base)) == base
  {
    var h := Put4(Signed(base, true), PARTITION_CRC_OFFSET, ArrayCrc(base));
    SameSize(base, h);
    assert forall i :: 0 <= i < 9 ==> base[i] == base[..9][i];
    SameField(h, base, PARTITION_CRC_OFFSET, PARTITION_CRC_OFFSET + 4);
    SealForgets(base, h);
    SealedIsFixed(base);
  }

  /** Signing a block again leaves only the last signature; sealing in between does not matter. */
  lemma SignForgets(h: seq<byte>, g: seq<byte>, good: bool)
    requires WellFormed(h) && |g| == |h| && h[1..9] == g[1..9]
    requires forall i :: 9 <= i < |h| && !(16 <= i < 20) ==> h[i] == g[i]
    ensures WellFormed(Signed(h, good)) && WellFormed(Signed(g, good))
    ensures Seal(Signed(h, good)) == Seal(Signed(g, good))
  {
    SameSize(h, Signed(h, good));
    assert forall i :: 1 <= i < 9 ==> h[i] == h[1..9][i - 1] && g[i] == g[1..9][i - 1];
    SealForgets(Signed(h, good), Signed(g, good));
  }

  lemma ResignedPut(base: seq<byte>, was: bool, good: bool, crc: word)
    requires HEADER_MINIMUM <= |base| && base[..9] == GPT_SIGNATURE
    ensures Signed(Put4(Signed(base, was), PARTITION_CRC_OFFSET, crc), good)
         == Put4(Signed(base, good), PARTITION_CRC_OFFSET, crc)
  {
    var v := Put4(Signed(base, was), PARTITION_CRC_OFFSET, crc);
    var w := Put4(Signed(base, good), PARTITION_CRC_OFFSET, crc);
    SameField(v, w, PARTITION_CRC_OFFSET, PARTITION_CRC_OFFSET + 4);
    assert forall i :: 0 <= i < 9 ==> base[i] == base[..9][i];
    assert forall i :: 0 <= i < |base| ==> Signed(v, good)[i] == w[i];
  }

  /** Setting the state of a form gives the form with that state: earlier states leave no trace. */
  lemma FormSetState(base: seq<byte>, was: bool, good: bool, crc: word)
    requires WellFormed(base) && base[..9] == GPT_SIGNATURE
    ensures WellFormed(Form(base, was, crc))
    ensures SetState(Form(base, was, crc), good) == Form(base, good, crc)
  {
    FormShape(base, was, crc);
    var f := Form(base, was, crc);
    var w := Put4(Signed(base, was), PARTITION_CRC_OFFSET, crc);
    SameSize(base, w);
    SignForgets(w, f, good);
    ResignedPut(base, was, good, crc);
  }

  /** Setting the array CRC of a form gives the form with that array CRC. */
  lemma FormSetArrayCrc(base: seq<byte>, good: bool, was: word, crc: word)
    requires WellFormed(base)
    ensures WellFormed(Form(base, good, was))
    ensures SetArrayCrc(Form(base, good, was), crc) == Form(base, good, crc)
  {
    FormShape(base, good, was);
    var s := Put4(Form(base, good, was), PARTITION_CRC_OFFSET, crc);
    var t := Put4(Signed(base, good), PARTITION_CRC_OFFSET, crc);
    SameSize(base, t);
    SameField(s, t, PARTITION_CRC_OFFSET, PARTITION_CRC_OFFSET + 4);
    SealForgets(t, s);
  }

  // ----- error detection

  /** One damaged byte of a good header, anywhere outside its size field, is always reported as a bad CRC:
      it is never taken for good, and never for the cleared signature the updater itself leaves. */
  lemma SingleByteDamage(h: seq<byte>, i: nat, b: byte)
    requires WellFormed(h) && State(h) == Ok
    requires i < HeaderSize(h) && !(12 <= i < 16) && b != h[i]
    ensures WellFormed(h[i := b]) && State(h[i := b]) == BadCrc
  {
    var g := h[i := b];
    SameNumber(h, g, HEADER_SIZE_OFFSET, HEADER_SIZE_OFFSET + 4);
    if 16 <= i < 20 {
      assert Put4(g, HEADER_CRC_OFFSET, 0) == Put4(h, HEADER_CRC_OFFSET, 0);
      if Get4(g, HEADER_CRC_OFFSET) == Get4(h, HEADER_CRC_OFFSET) {
        SameField(g, h, HEADER_CRC_OFFSET, HEADER_CRC_OFFSET + 4);
      }
    } else {
      var z := Put4(h, HEADER_CRC_OFFSET, 0);
      assert Put4(g, HEADER_CRC_OFFSET, 0) == z[i := b];
      assert z[i := b][..HeaderSize(h)] == z[..HeaderSize(h)][i := b];
      SingleByteDetected(z[..HeaderSize(h)], i, b);
      SameNumber(h, g, HEADER_CRC_OFFSET, HEADER_CRC_OFFSET + 4);
    }
  }
}
