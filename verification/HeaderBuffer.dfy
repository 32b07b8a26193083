/** Sealing a header in its buffer. */
module HeaderBuffer {
  import opened Bytes
  import opened Crc32
  import opened Header
  import opened HeaderProofs

  /** Recomputes a header's CRC in place over `size` bytes, and gives it. */
  method SealBufferOver(header: array<byte>, size: nat) returns (crc: word)
    requires HEADER_MINIMUM <= header.Length && size <= header.Length
    modifies header
    ensures header[..] == SealOver(old(header[..]), size)
    ensures crc == Crc(Put4(old(header[..]), HEADER_CRC_OFFSET, 0)[..size])
  {
    ghost var was := header[..];
    PutFour(header, HEADER_CRC_OFFSET, 0);
    assert header[..size] == Put4(was, HEADER_CRC_OFFSET, 0)[..size];
    crc := Crc(header[..size]);
    PutFour(header, HEADER_CRC_OFFSET, crc);
    PutTwice(was, crc);
  }

  /** Recomputes a header's CRC in place, over the header's own size and with the CRC field cleared. */
  method SealBuffer(header: array<byte>)
    requires WellFormed(header[..])
    modifies header
    ensures header[..] == Seal(old(header[..]))
  {
    SealOverOwnSize(header[..]);
    var _ := SealBufferOver(header, HeaderSize(header[..]));
  }
}
