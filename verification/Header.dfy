/** The GPT header block: the state the updater reads from it and the states it writes into it. */
module Header {
  import opened Bytes
  import opened Crc32

  const HEADER_SIZE_OFFSET: nat := 12
  const HEADER_CRC_OFFSET: nat := 16
  const PRIMARY_HEADER_OFFSET: nat := 24
  const PENTRIES_OFFSET: nat := 72
  const PARTITION_COUNT_OFFSET: nat := 80
  const PENTRY_SIZE_OFFSET: nat := 84
  const PARTITION_CRC_OFFSET: nat := 88
  const HEADER_MINIMUM: nat := 92

  /** The nine bytes compared and copied: the eight of "EFI PART" and the terminating NUL. */
  const GPT_SIGNATURE: seq<byte> := [0x45, 0x46, 0x49, 0x20, 0x50, 0x41, 0x52, 0x54, 0x00]

  datatype GptState = Ok | BadSignature | BadCrc

  function HeaderSize(h: seq<byte>): nat
    requires HEADER_MINIMUM <= |h|
  {
    Number(h, HEADER_SIZE_OFFSET, HEADER_SIZE_OFFSET + 4)
  }

  function EntriesLba(h: seq<byte>): nat
    requires HEADER_MINIMUM <= |h|
  {
    Number(h, PENTRIES_OFFSET, PENTRIES_OFFSET + 8)
  }

  function OwnLba(h: seq<byte>): nat
    requires HEADER_MINIMUM <= |h|
  {
    Number(h, PRIMARY_HEADER_OFFSET, PRIMARY_HEADER_OFFSET + 8)
  }

  function EntrySize(h: seq<byte>): nat
    requires HEADER_MINIMUM <= |h|
  {
    Number(h, PENTRY_SIZE_OFFSET, PENTRY_SIZE_OFFSET + 4)
  }

  function EntryCount(h: seq<byte>): nat
    requires HEADER_MINIMUM <= |h|
  {
    Number(h, PARTITION_COUNT_OFFSET, PARTITION_COUNT_OFFSET + 4)
  }

  /** Bytes of the entry array: a 32-bit product. */
  function ArraySize(h: seq<byte>): nat
    requires HEADER_MINIMUM <= |h|
  {
    Product(EntryCount(h), EntrySize(h)) % 0x1_0000_0000
  }

  /** Byte offset of the entry array: a 64-bit product. */
  function ArrayStart(h: seq<byte>, blk: nat): nat
    requires HEADER_MINIMUM <= |h|
  {
    Product(EntriesLba(h), blk) % 0x1_0000_0000_0000_0000
  }

  function ArrayCrc(h: seq<byte>): word
    requires HEADER_MINIMUM <= |h|
  {
    Get4(h, PARTITION_CRC_OFFSET)
  }

  /** A block the CRC routine can run over without leaving it. */
  predicate WellFormed(h: seq<byte>) {
    HEADER_MINIMUM <= |h| && HeaderSize(h) <= |h|
  }

  /** The header CRC: over the header's own size, with the CRC field cleared. */
  function ComputedCrc(h: seq<byte>): word
    requires WellFormed(h)
  {
    Crc(Put4(h, HEADER_CRC_OFFSET, 0)[..HeaderSize(h)])
  }

  /** gpt_get_state on the header block: a CRC mismatch overrides a signature mismatch. */
  function State(h: seq<byte>): GptState
    requires WellFormed(h)
  {
    if ComputedCrc(h) != Get4(h, HEADER_CRC_OFFSET) then BadCrc
    else if h[..9] != GPT_SIGNATURE then BadSignature
    else Ok
  }

  /** A header with its CRC recomputed over `n` bytes. */
  function SealOver(h: seq<byte>, n: nat): (r: seq<byte>)
    requires HEADER_MINIMUM <= |h| && n <= |h|
    ensures |r| == |h|
  {
    Put4(h, HEADER_CRC_OFFSET, Crc(Put4(h, HEADER_CRC_OFFSET, 0)[..n]))
  }

  /** A header with its CRC recomputed over its own size. */
  function Seal(h: seq<byte>): seq<byte>
    requires WellFormed(h)
  {
    Put4(h, HEADER_CRC_OFFSET, ComputedCrc(h))
  }

  /** Signature written whole, or its first byte cleared. */
  function Signed(h: seq<byte>, good: bool): seq<byte>
    requires HEADER_MINIMUM <= |h|
  {
    if good then GPT_SIGNATURE + h[9..] else h[0 := 0]
  }

  lemma SameSize(h: seq<byte>, g: seq<byte>)
    requires HEADER_MINIMUM <= |h| == |g| && forall i :: 12 <= i < 16 ==> h[i] == g[i]
    ensures HeaderSize(h) == HeaderSize(g)
  {
    SameNumber(h, g, HEADER_SIZE_OFFSET, HEADER_SIZE_OFFSET + 4);
  }

  /** gpt_set_state on the header block, for the two states it accepts. */
  function SetState(h: seq<byte>, good: bool): seq<byte>
    requires WellFormed(h)
  {
    SameSize(h, Signed(h, good));
    Seal(Signed(h, good))
  }

  /** The header edit of gpt2_set_boot_chain: a new array CRC under a new header CRC. */
  function SetArrayCrc(h: seq<byte>, crc: word): seq<byte>
    requires WellFormed(h)
  {
    SameSize(h, Put4(h, PARTITION_CRC_OFFSET, crc));
    Seal(Put4(h, PARTITION_CRC_OFFSET, crc))
  }

  /** The bytes that place a header, its array and itself on the disk. */
  ghost predicate SameGeometry(h: seq<byte>, g: seq<byte>) {
    HEADER_MINIMUM <= |h| == |g| && h[12..16] == g[12..16] && h[24..88] == g[24..88]
  }

  lemma SameNumberInRun(h: seq<byte>, g: seq<byte>, lo: nat, hi: nat, from: nat, to: nat)
    requires lo <= from <= to <= hi <= |h| && hi <= |g| && h[lo..hi] == g[lo..hi]
    ensures Number(h, from, to) == Number(g, from, to)
  {
    forall i | from <= i < to ensures h[i] == g[i] {
      assert h[lo..hi][i - lo] == g[lo..hi][i - lo];
    }
    SameNumber(h, g, from, to);
  }

  lemma GeometryFields(h: seq<byte>, g: seq<byte>, blk: nat)
    requires SameGeometry(h, g)
    ensures HeaderSize(h) == HeaderSize(g) && OwnLba(h) == OwnLba(g)
    ensures EntrySize(h) == EntrySize(g) && EntryCount(h) == EntryCount(g)
    ensures ArraySize(h) == ArraySize(g) && ArrayStart(h, blk) == ArrayStart(g, blk)
    ensures WellFormed(h) <==> WellFormed(g)
  {
    SameNumberInRun(h, g, 12, 16, HEADER_SIZE_OFFSET, HEADER_SIZE_OFFSET + 4);
    SameNumberInRun(h, g, 24, 88, PENTRIES_OFFSET, PENTRIES_OFFSET + 8);
    SameNumberInRun(h, g, 24, 88, PRIMARY_HEADER_OFFSET, PRIMARY_HEADER_OFFSET + 8);
    SameNumberInRun(h, g, 24, 88, PENTRY_SIZE_OFFSET, PENTRY_SIZE_OFFSET + 4);
    SameNumberInRun(h, g, 24, 88, PARTITION_COUNT_OFFSET, PARTITION_COUNT_OFFSET + 4);
  }
}
