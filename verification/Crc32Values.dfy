/** What makes it CRC-32: the empty block, the check value and the residue, by a register of 32 bits. */
module Crc32Values {
  import opened Bytes
  import opened Crc32
  import opened Crc32Collisions

  // ----- a register of bits

  function Half(x: bv32): bv32 {
    x >> 1
  }

  function Mixed(x: bv32, y: bv32): bv32 {
    x ^ y
  }

  function Low(x: bv32): nat {
    if x & 1 == 1 then 1 else 0
  }

  lemma Smaller(x: bv32)
    requires x != 0
    ensures Half(x) < x
  {
  }

  /** The number the bits stand for. */
  function Nat(x: bv32): nat
    decreases x
  {
    if x == 0 then 0
    else
      Smaller(x);
      2 * Nat(Half(x)) + Low(x)
  }

  lemma NatParts(x: bv32)
    ensures Nat(x) == 2 * Nat(Half(x)) + Low(x) && Low(x) < 2
  {
  }

  lemma NatZero()
    ensures Nat(0) == 0
  {
  }

  function Sum(a: nat, b: nat): nat {
    if a == b then 0 else 1
  }

  lemma XorDoubles(x: nat, a: nat, y: nat, b: nat)
    requires a < 2 && b < 2
    ensures Xor(2 * x + a, 2 * y + b) == 2 * Xor(x, y) + Sum(a, b)
  {
    hide Xor;
    XorParts(2 * x + a, 2 * y + b);
    SameParts(Xor(2 * x + a, 2 * y + b), 2 * Xor(x, y) + Sum(a, b));
  }

  lemma MixedParts(x: bv32, y: bv32)
    ensures Half(Mixed(x, y)) == Mixed(Half(x), Half(y))
    ensures Low(x) < 2 && Low(y) < 2 && Low(Mixed(x, y)) == Sum(Low(x), Low(y))
  {
  }

  lemma JoinBit(x: bv32, y: bv32)
    requires Nat(Mixed(Half(x), Half(y))) == Xor(Nat(Half(x)), Nat(Half(y)))
    ensures Nat(Mixed(x, y)) == Xor(Nat(x), Nat(y))
  {
    hide Nat, Xor, Low, Sum, Half, Mixed;
    MixedParts(x, y);
    NatParts(Mixed(x, y));
    NatParts(x);
    NatParts(y);
    XorDoubles(Nat(Half(x)), Low(x), Nat(Half(y)), Low(y));
  }

  lemma MixedZero(y: bv32)
    ensures Mixed(0, y) == y
  {
  }

  /** The machine's exclusive or is that of the numbers. */
  lemma {:induction false} NatXor(x: bv32, y: bv32)
    ensures Nat(Mixed(x, y)) == Xor(Nat(x), Nat(y))
    decreases x
  {
    hide Low, Half, Mixed;
    if x == 0 {
      MixedZero(y);
    } else {
      Smaller(x);
      NatXor(Half(x), Half(y));
      JoinBit(x, y);
    }
  }

  /** `n` halvings leave nothing of `x`. */
  predicate Within(x: bv32, n: nat)
    decreases n
  {
    if n == 0 then x == 0 else Within(Half(x), n - 1)
  }

  lemma {:induction false} NatBelow(x: bv32, n: nat)
    requires Within(x, n)
    ensures Nat(x) < Pow2(n)
    decreases n
  {
    hide Half;
    if n == 0 {
    } else {
      NatBelow(Half(x), n - 1);
      NatParts(x);
    }
  }

  function Quarter(x: bv32): bv32 {
    Half(Half(Half(Half(x))))
  }

  lemma WithinFour(x: bv32, n: nat)
    requires Within(Quarter(x), n)
    ensures Within(x, n + 4)
  {
    hide Half;
    assert Within(Half(Half(Half(x))), n + 1);
    assert Within(Half(Half(x)), n + 2);
    assert Within(Half(x), n + 3);
  }

  lemma NothingLeft(x: bv32)
    ensures Quarter(Quarter(Quarter(Quarter(Quarter(Quarter(Quarter(Quarter(x)))))))) == 0
  {
  }

  lemma AllWithin(x: bv32)
    ensures Within(x, 32)
  {
    hide Quarter;
    NothingLeft(x);
    var y := Quarter(Quarter(Quarter(Quarter(x))));
    WithinFour(Quarter(Quarter(Quarter(y))), 0);
    WithinFour(Quarter(Quarter(y)), 4);
    WithinFour(Quarter(y), 8);
    WithinFour(y, 12);
    WithinFour(Quarter(Quarter(Quarter(x))), 16);
    WithinFour(Quarter(Quarter(x)), 20);
    WithinFour(Quarter(x), 24);
    WithinFour(x, 28);
  }

  function Number32(x: bv32): (n: word)
    ensures n == Nat(x)
  {
    AllWithin(x);
    NatBelow(x, 32);
    WordBits();
    Nat(x)
  }

  // ----- one byte

  function RoundOf(c: bv32): bv32 {
    if c & 1 == 1 then Mixed(Half(c), 0xEDB8_8320) else Half(c)
  }

  lemma Nibble(x: bv32)
    ensures Nat(x) == 16 * Nat(Half(Half(Half(Half(x)))))
                      + 8 * Low(Half(Half(Half(x)))) + 4 * Low(Half(Half(x))) + 2 * Low(Half(x)) + Low(x)
  {
    hide Nat, Low, Half;
    NatParts(x);
    NatParts(Half(x));
    NatParts(Half(Half(x)));
    NatParts(Half(Half(Half(x))));
  }

  lemma NatOfPolynomial()
    ensures Nat(0xEDB8_8320) == POLYNOMIAL
  {
    hide Nat;
    Nibble(0xEDB8_8320);
    Nibble(0xEDB_8832);
    Nibble(0xED_B883);
    Nibble(0xE_DB88);
    Nibble(0xEDB8);
    Nibble(0xEDB);
    Nibble(0xED);
    Nibble(0xE);
    NatZero();
  }

  lemma NatHalves(x: bv32)
    ensures Nat(x) / 2 == Nat(Half(x)) && Nat(x) % 2 == Low(x)
  {
    hide Nat, Low, Half;
    NatParts(x);
  }

  lemma RoundBits(c: bv32)
    ensures RoundOf(c) == if Low(c) == 1 then Mixed(Half(c), 0xEDB8_8320) else Half(c)
  {
  }

  lemma RoundNumber(c: bv32)
    ensures Number32(RoundOf(c)) == Round(Number32(c))
  {
    hide Nat, Low, Half, Mixed, RoundOf, Xor;
    RoundBits(c);
    NatHalves(c);
    NatOfPolynomial();
    NatXor(Half(c), 0xEDB8_8320);
  }

  function Eight(c: bv32): bv32 {
    RoundOf(RoundOf(RoundOf(RoundOf(RoundOf(RoundOf(RoundOf(RoundOf(c))))))))
  }

  lemma EightSteps(c: word)
    ensures Steps(c, 8) == Round(Round(Round(Round(Round(Round(Round(Round(c))))))))
  {
    hide Round;
    assert Steps(c, 1) == Round(Steps(c, 0));
    assert Steps(c, 2) == Round(Steps(c, 1));
    assert Steps(c, 3) == Round(Steps(c, 2));
    assert Steps(c, 4) == Round(Steps(c, 3));
    assert Steps(c, 5) == Round(Steps(c, 4));
    assert Steps(c, 6) == Round(Steps(c, 5));
    assert Steps(c, 7) == Round(Steps(c, 6));
  }

  lemma EightNumber(c: bv32)
    ensures Number32(Eight(c)) == Steps(Number32(c), 8)
  {
    hide RoundOf, Round, Nat;
    var d := RoundOf(RoundOf(RoundOf(RoundOf(c))));
    RoundNumber(c);
    RoundNumber(RoundOf(c));
    RoundNumber(RoundOf(RoundOf(c)));
    RoundNumber(RoundOf(RoundOf(RoundOf(c))));
    RoundNumber(d);
    RoundNumber(RoundOf(d));
    RoundNumber(RoundOf(RoundOf(d)));
    RoundNumber(RoundOf(RoundOf(RoundOf(d))));
    EightSteps(Number32(c));
  }

  /** The register after a byte: it is taken in whole, and eight rounds follow. */
  lemma {:induction false} RegisterByte(s: seq<byte>, i: nat, n: nat)
    requires i < |s| && n < BITS_PER_BYTE
    ensures Register(s, BITS_PER_BYTE * i + n + 1)
         == Steps(XorWord(Register(s, BITS_PER_BYTE * i), s[i]), n + 1)
  {
    hide Round, XorWord;
    var k := BITS_PER_BYTE * i + n;
    var c := XorWord(Register(s, BITS_PER_BYTE * i), s[i]);
    BitPlace(i, n);
    assert Register(s, k + 1) == Round(TakenIn(s, k, Register(s, k)));
    assert Steps(c, n + 1) == Round(Steps(c, n));
    if n == 0 {
      assert Steps(c, 0) == c;
    } else {
      RegisterByte(s, i, n - 1);
    }
  }

  /** One byte through the register of bits. */
  lemma ByteNumber(s: seq<byte>, i: nat, c: bv32, b: bv32)
    requires i < |s| && Register(s, BITS_PER_BYTE * i) == Number32(c) && s[i] == Number32(b)
    ensures Register(s, BITS_PER_BYTE * (i + 1)) == Number32(Eight(Mixed(c, b)))
  {
    hide Eight, Steps, Nat, Xor, Mixed;
    RegisterByte(s, i, 7);
    NatXor(c, b);
    EightNumber(Mixed(c, b));
  }

  // ----- the check value

  lemma Ones()
    ensures Number32(0xFFFF_FFFF) == 0xFFFF_FFFF
  {
    hide Nat;
    Nibble(0xFFFF_FFFF);
    Nibble(0xFFF_FFFF);
    Nibble(0xFF_FFFF);
    Nibble(0xF_FFFF);
    Nibble(0xFFFF);
    Nibble(0xFFF);
    Nibble(0xFF);
    Nibble(0xF);
    NatZero();
  }

  lemma DigitNumbers()
    ensures Number32(0x31) == 0x31 && Number32(0x32) == 0x32 && Number32(0x33) == 0x33 && Number32(0x34) == 0x34
    ensures Number32(0x35) == 0x35 && Number32(0x36) == 0x36 && Number32(0x37) == 0x37 && Number32(0x38) == 0x38
    ensures Number32(0x39) == 0x39
  {
    hide Nat;
    NatZero();
    Nibble(3);
    Nibble(0x31);
    Nibble(0x32);
    Nibble(0x33);
    Nibble(0x34);
    Nibble(0x35);
    Nibble(0x36);
    Nibble(0x37);
    Nibble(0x38);
    Nibble(0x39);
  }

  lemma LastNumber()
    ensures Number32(0x340B_C6D9) == 0x340B_C6D9
  {
    hide Nat;
    Nibble(0x340B_C6D9);
    Nibble(0x340_BC6D);
    Nibble(0x34_0BC6);
    Nibble(0x3_40BC);
    Nibble(0x340B);
    Nibble(0x340);
    Nibble(0x34);
    Nibble(0x3);
    NatZero();
  }

  /** The register of bits after each of the nine digits. */
  lemma NineDigits()
    ensures Eight(Mixed(0xFFFF_FFFF, 0x31)) == 0x7C23_1048
    ensures Eight(Mixed(0x7C23_1048, 0x32)) == 0xB0AC_BB32
    ensures Eight(Mixed(0xB0AC_BB32, 0x33)) == 0x77B7_9C2D
    ensures Eight(Mixed(0x77B7_9C2D, 0x34)) == 0x641C_1F5C
    ensures Eight(Mixed(0x641C_1F5C, 0x35)) == 0x340A_C5E3
    ensures Eight(Mixed(0x340A_C5E3, 0x36)) == 0xF68D_2C9E
    ensures Eight(Mixed(0xF68D_2C9E, 0x37)) == 0xAFFC_9660
    ensures Eight(Mixed(0xAFFC_9660, 0x38)) == 0x651F_2550
    ensures Eight(Mixed(0x651F_2550, 0x39)) == 0x340B_C6D9
  {
  }

  const DIGITS: seq<byte> := [0x31, 0x32, 0x33, 0x34, 0x35, 0x36, 0x37, 0x38, 0x39]

  lemma FirstRegister(s: seq<byte>)
    ensures Register(s, 0) == 0xFFFF_FFFF
  {
  }

  /** The check value of CRC-32: that of the digits from one to nine. */
  lemma CheckValue()
    ensures Crc(DIGITS) == 0xCBF4_3926
  {
    hide Nat, Eight, Mixed, Register;
    Ones();
    DigitNumbers();
    FirstRegister(DIGITS);
    NineDigits();
    ByteNumber(DIGITS, 0, 0xFFFF_FFFF, 0x31);
    ByteNumber(DIGITS, 1, 0x7C23_1048, 0x32);
    ByteNumber(DIGITS, 2, 0xB0AC_BB32, 0x33);
    ByteNumber(DIGITS, 3, 0x77B7_9C2D, 0x34);
    ByteNumber(DIGITS, 4, 0x641C_1F5C, 0x35);
    ByteNumber(DIGITS, 5, 0x340A_C5E3, 0x36);
    ByteNumber(DIGITS, 6, 0xF68D_2C9E, 0x37);
    ByteNumber(DIGITS, 7, 0xAFFC_9660, 0x38);
    ByteNumber(DIGITS, 8, 0x651F_2550, 0x39);
    LastNumber();
  }

  // ----- all ones, through four bytes of zeros

  lemma {:induction false} StepsAdd(c: word, m: nat, n: nat)
    ensures Steps(Steps(c, m), n) == Steps(c, m + n)
  {
    hide Round;
    if n == 0 {
    } else {
      StepsAdd(c, m, n - 1);
      assert Steps(c, m + n) == Round(Steps(c, m + n - 1));
    }
  }

  lemma OnesThrough()
    ensures Eight(0xFFFF_FFFF) == 0x2DFD_1072 && Eight(0x2DFD_1072) == 0xBE26_ED00
    ensures Eight(0xBE26_ED00) == 0x00BE_26ED && Eight(0x00BE_26ED) == 0xDEBB_20E3
  {
  }

  lemma ResidueNumber()
    ensures Number32(0xDEBB_20E3) == 0xDEBB_20E3
  {
    hide Nat;
    Nibble(0xDEBB_20E3);
    Nibble(0xDEB_B20E);
    Nibble(0xDE_BB20);
    Nibble(0xD_EBB2);
    Nibble(0xDEBB);
    Nibble(0xDEB);
    Nibble(0xDE);
    Nibble(0xD);
    NatZero();
  }

  lemma LastResidue()
    ensures Steps(0xFFFF_FFFF, 32) == 0xDEBB_20E3
  {
    hide Steps, Nat;
    Ones();
    OnesThrough();
    ResidueNumber();
    EightNumber(0xFFFF_FFFF);
    EightNumber(0x2DFD_1072);
    EightNumber(0xBE26_ED00);
    EightNumber(0x00BE_26ED);
    StepsAdd(0xFFFF_FFFF, 8, 8);
    StepsAdd(0xFFFF_FFFF, 16, 8);
    StepsAdd(0xFFFF_FFFF, 24, 8);
  }
}
