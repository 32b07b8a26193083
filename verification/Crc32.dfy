/** CRC-32 as zlib's crc32 computes it, and the errors it is certain to detect. */
module Crc32 {
  import opened Bytes

  const POLYNOMIAL: word := 0xEDB88320
  const BITS_PER_BYTE: nat := 8

  /** Bitwise exclusive or. */
  function Xor(x: nat, y: nat): nat {
    if x == 0 then y else if y == 0 then x else 2 * Xor(x / 2, y / 2) + (x % 2 + y % 2) % 2
  }

  function Pow2(k: nat): nat {
    if k == 0 then 1 else 2 * Pow2(k - 1)
  }

  lemma {:induction false} XorBelow(x: nat, y: nat, k: nat)
    requires x < Pow2(k) && y < Pow2(k)
    ensures Xor(x, y) < Pow2(k)
  {
    if x == 0 || y == 0 {
    } else {
      XorBelow(x / 2, y / 2, k - 1);
    }
  }

  /** The leading bit survives an exclusive or with a shorter number. */
  lemma {:induction false} XorLeads(x: nat, y: nat, k: nat)
    requires x < Pow2(k) <= y < Pow2(k + 1)
    ensures Pow2(k) <= Xor(x, y)
  {
    if x == 0 {
    } else {
      XorLeads(x / 2, y / 2, k - 1);
    }
  }

  lemma XorParts(x: nat, y: nat)
    ensures Xor(x, y) / 2 == Xor(x / 2, y / 2) && Xor(x, y) % 2 == (x % 2 + y % 2) % 2
  {
  }

  lemma Parity(a: nat, b: nat, c: nat)
    requires a < 2 && b < 2 && c < 2 && (a + c) % 2 == (b + c) % 2
    ensures a == b
  {
  }

  lemma {:induction false} XorCancels(x: nat, y: nat, z: nat)
    requires Xor(x, z) == Xor(y, z)
    ensures x == y
    decreases z
  {
    if z == 0 {
    } else {
      XorParts(x, z);
      XorParts(y, z);
      XorCancels(x / 2, y / 2, z / 2);
      Parity(x % 2, y % 2, z % 2);
    }
  }

  lemma {:induction false} XorSymmetric(x: nat, y: nat)
    ensures Xor(x, y) == Xor(y, x)
  {
    if x == 0 || y == 0 {
    } else {
      XorSymmetric(x / 2, y / 2);
    }
  }

  lemma WordBits()
    ensures Pow2(31) == 0x8000_0000 && Pow2(32) == 0x1_0000_0000
  {
    assert Pow2(8) == 0x100;
    assert Pow2(16) == 0x1_0000;
    assert Pow2(24) == 0x100_0000;
  }

  function XorWord(x: word, y: word): word {
    WordBits();
    XorBelow(x, y, 32);
    Xor(x, y)
  }

  /** One bit of the reflected division. */
  function Round(c: word): word {
    if c % 2 == 1 then XorWord(c / 2, POLYNOMIAL) else c / 2
  }

  /** The register `c` before bit `k`, with the byte that starts there taken in, if one does. */
  function TakenIn(s: seq<byte>, k: nat, c: word): word
    requires k < BITS_PER_BYTE * |s|
  {
    if k % BITS_PER_BYTE == 0 then XorWord(c, s[k / BITS_PER_BYTE]) else c
  }

  /** The register after `k` bits of `s`, where each byte is taken in whole before its first bit. */
  function Register(s: seq<byte>, k: nat): word
    requires k <= BITS_PER_BYTE * |s|
    decreases |s|, k
  {
    if k == 0 then 0xffff_ffff else Round(TakenIn(s, k - 1, Register(s, k - 1)))
  }

  /** All ones before the first bit, and complemented after the last. */
  function Crc(s: seq<byte>): word {
    0xffff_ffff - Register(s, BITS_PER_BYTE * |s|)
  }

  // ----- detection

  lemma RoundInjective(c: word, d: word)
    requires Round(c) == Round(d)
    ensures c == d
  {
    WordBits();
    if c % 2 == 1 {
      XorLeads(c / 2, POLYNOMIAL, 31);
    }
    if d % 2 == 1 {
      XorLeads(d / 2, POLYNOMIAL, 31);
    }
    if c % 2 == 1 && d % 2 == 1 {
      XorCancels(c / 2, d / 2, POLYNOMIAL);
    }
  }

  /** Taking in a byte loses nothing about the register. */
  lemma TakenInInjective(s: seq<byte>, k: nat, x: word, y: word)
    requires k < BITS_PER_BYTE * |s| && TakenIn(s, k, x) == TakenIn(s, k, y)
    ensures x == y
  {
    if k % BITS_PER_BYTE == 0 {
      XorCancels(x, y, s[k / BITS_PER_BYTE]);
    }
  }

  /** Taking in a byte loses nothing about the byte. */
  lemma ByteMatters(x: word, a: byte, b: byte)
    requires XorWord(x, a) == XorWord(x, b)
    ensures a == b
  {
    XorSymmetric(x, a);
    XorSymmetric(x, b);
    XorCancels(a, b, x);
  }

  /** A register difference never heals: from the first bit of an unequal byte on the registers are unequal. */
  lemma {:induction false} DifferenceSurvives(s: seq<byte>, k: nat, i: nat, b: byte)
    requires k <= BITS_PER_BYTE * |s| && i < |s| && s[i] != b
    ensures Register(s[i := b], k) == Register(s, k) <==> k <= BITS_PER_BYTE * i
  {
    if k == 0 {
    } else {
      var t, j := s[i := b], k - 1;
      var x, y := Register(s, j), Register(t, j);
      DifferenceSurvives(s, j, i, b);
      if Round(TakenIn(t, j, y)) == Round(TakenIn(s, j, x)) {
        RoundInjective(TakenIn(t, j, y), TakenIn(s, j, x));
      }
      if j == BITS_PER_BYTE * i {
        if TakenIn(t, j, y) == TakenIn(s, j, x) {
          ByteMatters(x, s[i], b);
        }
      } else {
        assert j % BITS_PER_BYTE == 0 ==> t[j / BITS_PER_BYTE] == s[j / BITS_PER_BYTE];
        if TakenIn(t, j, y) == TakenIn(s, j, x) {
          TakenInInjective(s, j, x, y);
        }
      }
    }
  }

  /** Replacing exactly one byte always changes the CRC. */
  lemma SingleByteDetected(s: seq<byte>, i: nat, b: byte)
    requires i < |s| && s[i] != b
    ensures Crc(s[i := b]) != Crc(s)
  {
    DifferenceSurvives(s, BITS_PER_BYTE * |s|, i, b);
  }
}
