/** The fields of a header from its bytes: which numbers stand there, and which bytes a number takes. */
module HeaderFields {
  import opened Bytes
  import opened Header

  function Pow256(n: nat): nat {
    if n == 0 then 1 else 0x100 * Pow256(n - 1)
  }

  lemma FieldSizes()
    ensures Pow256(4) == 0x1_0000_0000 && Pow256(8) == 0x1_0000_0000_0000_0000
  {
    assert Pow256(2) == 0x1_0000;
    assert Pow256(6) == 0x1_0000_0000_0000;
  }

  /** The `n` bytes of `h` at `off` are the octets of `v`, the lowest first. */
  predicate Octetwise(h: seq<byte>, off: nat, n: nat, v: nat)
    requires off + n <= |h|
  {
    forall k: nat :: k < n ==> h[off + k] == Octet(v, k)
  }

  lemma NextOctets(h: seq<byte>, off: nat, n: nat, v: nat)
    requires 0 < n && off + n <= |h|
    ensures Octetwise(h, off, n, v) <==> h[off] == v % 0x100 && Octetwise(h, off + 1, n - 1, v / 0x100)
  {
    if h[off] == v % 0x100 && Octetwise(h, off + 1, n - 1, v / 0x100) {
      forall k: nat | k < n ensures h[off + k] == Octet(v, k) {
        if k > 0 {
          var j: nat := k - 1;
          assert h[off + 1 + j] == Octet(v / 0x100, j);
        }
      }
    }
    if Octetwise(h, off, n, v) {
      assert h[off + 0] == Octet(v, 0);
      forall j: nat | j < n - 1 ensures h[off + 1 + j] == Octet(v / 0x100, j) {
        assert h[off + (j + 1)] == Octet(v, j + 1);
      }
    }
  }

  /** A field reads as `v` exactly when `v` fits it and its bytes are the octets of `v`. */
  lemma {:induction false} FieldIs(h: seq<byte>, off: nat, n: nat, v: nat)
    requires off + n <= |h|
    ensures Number(h, off, off + n) == v <==> v < Pow256(n) && Octetwise(h, off, n, v)
    decreases n
  {
    if n == 0 {
    } else {
      FieldIs(h, off + 1, n - 1, v / 0x100);
      NextOctets(h, off, n, v);
      assert Number(h, off, off + n) == h[off] + 0x100 * Number(h, off + 1, off + n);
      assert v == v % 0x100 + 0x100 * (v / 0x100);
    }
  }

  /** Where each field stands, how long it is, and that it is read from all its bytes. */
  lemma FieldsFromBytes(h: seq<byte>, v: nat)
    requires HEADER_MINIMUM <= |h|
    ensures HeaderSize(h) == v <==> v < 0x1_0000_0000 && Octetwise(h, 12, 4, v)
    ensures OwnLba(h) == v <==> v < 0x1_0000_0000_0000_0000 && Octetwise(h, 24, 8, v)
    ensures EntriesLba(h) == v <==> v < 0x1_0000_0000_0000_0000 && Octetwise(h, 72, 8, v)
    ensures EntryCount(h) == v <==> v < 0x1_0000_0000 && Octetwise(h, 80, 4, v)
    ensures EntrySize(h) == v <==> v < 0x1_0000_0000 && Octetwise(h, 84, 4, v)
    ensures ArrayCrc(h) == v <==> v < 0x1_0000_0000 && Octetwise(h, 88, 4, v)
  {
    hide Number, Octetwise, Pow256;
    FieldSizes();
    FieldIs(h, 12, 4, v);
    FieldIs(h, 24, 8, v);
    FieldIs(h, 72, 8, v);
    FieldIs(h, 80, 4, v);
    FieldIs(h, 84, 4, v);
    FieldIs(h, 88, 4, v);
  }

  /** The header's bytes place the array at the LBA they state, in the given blocks, with the given entries. */
  predicate Places(h: seq<byte>, lba: nat, count: nat, size: nat) {
    && HEADER_MINIMUM <= |h|
    && lba < 0x1_0000_0000_0000_0000 && Octetwise(h, 72, 8, lba)
    && count < 0x1_0000_0000 && Octetwise(h, 80, 4, count)
    && size < 0x1_0000_0000 && Octetwise(h, 84, 4, size)
  }

  /** The place and the size of the array are products of the fields, in 64 and in 32 bits. */
  lemma ArrayFromBytes(h: seq<byte>, blk: nat, lba: nat, count: nat, size: nat)
    requires Places(h, lba, count, size)
    ensures ArrayStart(h, blk) == lba * blk % 0x1_0000_0000_0000_0000
    ensures ArraySize(h) == count * size % 0x1_0000_0000
  {
    hide Octetwise, EntriesLba, EntryCount, EntrySize;
    FieldsFromBytes(h, lba);
    FieldsFromBytes(h, count);
    FieldsFromBytes(h, size);
    ProductMeaning(lba, blk);
    ProductMeaning(count, size);
  }
}
