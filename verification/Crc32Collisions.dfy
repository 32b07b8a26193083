/** Errors CRC-32 cannot see: the register is linear, so the bytes of its generator can be mixed into any block. */
module Crc32Collisions {
  import opened Bytes
  import opened Crc32

  // ----- the algebra of exclusive or

  lemma ParityAssociates(a: nat, b: nat, c: nat)
    requires a < 2 && b < 2 && c < 2
    ensures ((a + b) % 2 + c) % 2 == (a + (b + c) % 2) % 2
  {
  }

  /** Equal halves and equal parities are equal numbers. */
  lemma SameParts(x: nat, y: nat)
    requires x / 2 == y / 2 && x % 2 == y % 2
    ensures x == y
  {
  }

  lemma LeftParts(x: nat, y: nat, z: nat)
    ensures Xor(Xor(x, y), z) / 2 == Xor(Xor(x / 2, y / 2), z / 2)
    ensures Xor(Xor(x, y), z) % 2 == ((x % 2 + y % 2) % 2 + z % 2) % 2
  {
    hide Xor;
    XorParts(x, y);
    XorParts(Xor(x, y), z);
  }

  lemma RightParts(x: nat, y: nat, z: nat)
    ensures Xor(x, Xor(y, z)) / 2 == Xor(x / 2, Xor(y / 2, z / 2))
    ensures Xor(x, Xor(y, z)) % 2 == (x % 2 + (y % 2 + z % 2) % 2) % 2
  {
    hide Xor;
    XorParts(y, z);
    XorParts(x, Xor(y, z));
  }

  lemma AssociatesByParts(x: nat, y: nat, z: nat)
    requires Xor(Xor(x / 2, y / 2), z / 2) == Xor(x / 2, Xor(y / 2, z / 2))
    ensures Xor(Xor(x, y), z) == Xor(x, Xor(y, z))
  {
    hide Xor;
    LeftParts(x, y, z);
    RightParts(x, y, z);
    ParityAssociates(x % 2, y % 2, z % 2);
    SameParts(Xor(Xor(x, y), z), Xor(x, Xor(y, z)));
  }

  lemma {:induction false} XorAssociates(x: nat, y: nat, z: nat)
    ensures Xor(Xor(x, y), z) == Xor(x, Xor(y, z))
  {
    if x == 0 || y == 0 || z == 0 {
    } else {
      XorAssociates(x / 2, y / 2, z / 2);
      AssociatesByParts(x, y, z);
    }
  }

  lemma {:induction false} XorSelf(x: nat)
    ensures Xor(x, x) == 0
  {
    if x == 0 {
    } else {
      XorSelf(x / 2);
    }
  }

  /** The last two operands can change places. */
  lemma XorExchanges(x: nat, y: nat, z: nat)
    ensures Xor(Xor(x, y), z) == Xor(Xor(x, z), y)
  {
    XorAssociates(x, y, z);
    XorAssociates(x, z, y);
    XorSymmetric(y, z);
  }

  /** An operand on both sides drops out. */
  lemma XorBoth(x: nat, y: nat, z: nat)
    ensures Xor(Xor(x, z), Xor(y, z)) == Xor(x, y)
  {
    XorAssociates(Xor(x, z), y, z);
    XorExchanges(x, z, y);
    XorAssociates(Xor(x, y), z, z);
    XorExchanges(Xor(x, z), y, z);
    XorAssociates(x, z, z);
    XorSelf(z);
  }

  /** One bit of the division distributes over exclusive or. */
  lemma RoundIsLinear(x: word, y: word)
    ensures Round(XorWord(x, y)) == XorWord(Round(x), Round(y))
  {
    hide Xor;
    XorParts(x, y);
    var a, b := x / 2, y / 2;
    if x % 2 == 1 && y % 2 == 1 {
      XorBoth(a, b, POLYNOMIAL);
    } else if x % 2 == 1 {
      XorExchanges(a, b, POLYNOMIAL);
    } else if y % 2 == 1 {
      XorAssociates(a, b, POLYNOMIAL);
    }
  }

  // ----- how a difference travels

  /** The difference two blocks leave in the register, when they differ by `e`. */
  function Deviation(e: seq<byte>, k: nat): word
    requires k <= BITS_PER_BYTE * |e|
    decreases |e|, k
  {
    if k == 0 then 0 else Round(TakenIn(e, k - 1, Deviation(e, k - 1)))
  }

  /** `t` is `s` with the bytes of `e` mixed in. */
  predicate DifferBy(s: seq<byte>, t: seq<byte>, e: seq<byte>) {
    |s| == |t| == |e| && forall i :: 0 <= i < |s| ==> t[i] == Xor(s[i], e[i])
  }

  lemma TakenInIsLinear(s: seq<byte>, t: seq<byte>, e: seq<byte>, k: nat, c: word, f: word)
    requires DifferBy(s, t, e) && k < BITS_PER_BYTE * |s|
    ensures TakenIn(t, k, XorWord(c, f)) == XorWord(TakenIn(s, k, c), TakenIn(e, k, f))
  {
    if k % BITS_PER_BYTE == 0 {
      var x, y := s[k / BITS_PER_BYTE], e[k / BITS_PER_BYTE];
      XorAssociates(Xor(c, f), x, y);
      XorExchanges(c, f, x);
      XorAssociates(Xor(c, x), f, y);
    }
  }

  /** The registers of two blocks differ by what their difference leaves in a register that starts at zero. */
  lemma {:induction false} RegisterDeviates(s: seq<byte>, t: seq<byte>, e: seq<byte>, k: nat)
    requires DifferBy(s, t, e) && k <= BITS_PER_BYTE * |s|
    ensures Register(t, k) == XorWord(Register(s, k), Deviation(e, k))
  {
    if k == 0 {
    } else {
      var j := k - 1;
      RegisterDeviates(s, t, e, j);
      TakenInIsLinear(s, t, e, j, Register(s, j), Deviation(e, j));
      RoundIsLinear(TakenIn(s, j, Register(s, j)), TakenIn(e, j, Deviation(e, j)));
    }
  }

  // ----- the generator

  /** The bits of the generator polynomial, lowest first: the polynomial with its leading one. */
  const GENERATOR: seq<byte> := [0x41, 0x06, 0x71, 0xDB, 0x01]

  /** The register after `n` bits with no byte taken in. */
  function Steps(c: word, n: nat): word {
    if n == 0 then c else Round(Steps(c, n - 1))
  }

  lemma BitPlace(i: nat, n: nat)
    requires n < BITS_PER_BYTE
    ensures (BITS_PER_BYTE * i + n) % BITS_PER_BYTE == n && (BITS_PER_BYTE * i + n) / BITS_PER_BYTE == i
  {
  }

  /** A byte is taken in whole, and the bits follow. */
  lemma {:induction false} WholeByte(e: seq<byte>, i: nat, n: nat)
    requires i < |e| && n < BITS_PER_BYTE
    ensures Deviation(e, BITS_PER_BYTE * i + n + 1)
         == Steps(XorWord(Deviation(e, BITS_PER_BYTE * i), e[i]), n + 1)
  {
    hide Round, XorWord;
    var k := BITS_PER_BYTE * i + n;
    var c := XorWord(Deviation(e, BITS_PER_BYTE * i), e[i]);
    BitPlace(i, n);
    assert Deviation(e, k + 1) == Round(TakenIn(e, k, Deviation(e, k)));
    assert Steps(c, n + 1) == Round(Steps(c, n));
    if n == 0 {
      assert Steps(c, 0) == c;
    } else {
      WholeByte(e, i, n - 1);
    }
  }

  lemma {:induction false} FirstStep(c: word, n: nat)
    ensures Steps(c, n + 1) == Steps(Round(c), n)
  {
    hide Round;
    if n == 0 {
      assert Steps(c, 1) == Round(Steps(c, 0));
    } else {
      FirstStep(c, n - 1);
    }
  }

  /** `c` with `n` clear bits below it. */
  function Shifted(c: nat, n: nat): nat {
    if n == 0 then c else 2 * Shifted(c, n - 1)
  }

  lemma {:induction false} ShiftedTwice(c: nat, n: nat)
    ensures Shifted(2 * c, n) == 2 * Shifted(c, n) && c <= Shifted(c, n)
  {
    if n == 0 {
    } else {
      ShiftedTwice(c, n - 1);
    }
  }

  /** A register whose lowest `n` bits are clear is only shifted. */
  lemma {:induction false} StepsShift(c: word, n: nat)
    requires Shifted(c, n) < 0x1_0000_0000
    ensures Steps(Shifted(c, n), n) == c
    decreases n
  {
    hide XorWord;
    if n == 0 {
    } else {
      ShiftedTwice(c, n - 1);
      ShiftedTwice(2 * c, n - 1);
      StepsShift(2 * c, n - 1);
    }
  }

  /** Mixing in the lowest bits of a number clears them. */
  lemma {:induction false} XorClears(c: nat, b: nat, n: nat)
    requires b < Pow2(n)
    ensures Xor(Shifted(c, n) + b, b) == Shifted(c, n)
    decreases n
  {
    if n == 0 {
    } else {
      var v := Shifted(c, n) + b;
      assert v / 2 == Shifted(c, n - 1) + b / 2 && v % 2 == b % 2;
      XorClears(c, b / 2, n - 1);
      XorParts(v, b);
    }
  }

  lemma OddRound()
    ensures Round(0x41) == 0xEDB88300
  {
    hide Xor;
    assert Shifted(0xEDB883, 8) == 0xEDB88300 && Pow2(8) == 0x100;
    XorClears(0xEDB883, 0x20, 8);
    XorSymmetric(0x20, POLYNOMIAL);
  }

  /** The first byte of the generator leaves the other four in the register. */
  lemma FirstByte()
    ensures Steps(0x41, 8) == 0x1DB7106
  {
    FirstStep(0x41, 7);
    OddRound();
    StepsShift(0x1DB7106, 7);
    hide Steps, Round, XorWord;
    assert Shifted(0x1DB7106, 7) == 0xEDB88300;
  }

  /** Every other byte clears the lowest byte of the register, which is then shifted out. */
  lemma NextByte(c: word, b: byte)
    requires Shifted(c, 8) + b < 0x1_0000_0000
    ensures Steps(XorWord(Shifted(c, 8) + b, b), 8) == c
  {
    hide Xor, Steps, Shifted;
    assert Pow2(8) == 0x100;
    XorClears(c, b, 8);
    StepsShift(c, 8);
  }

  /** `e` is the generator at byte `p` among zeros. */
  predicate GeneratorAt(e: seq<byte>, p: nat) {
    && p + 5 <= |e| && e[p..p + 5] == GENERATOR
    && forall i :: 0 <= i < |e| && !(p <= i < p + 5) ==> e[i] == 0
  }

  lemma GeneratorBytes(e: seq<byte>, p: nat)
    requires GeneratorAt(e, p)
    ensures e[p] == 0x41 && e[p + 1] == 0x06 && e[p + 2] == 0x71 && e[p + 3] == 0xDB && e[p + 4] == 0x01
  {
    var g := e[p..p + 5];
    assert e[p] == g[0] && e[p + 1] == g[1] && e[p + 2] == g[2] && e[p + 3] == g[3] && e[p + 4] == g[4];
  }

  lemma FirstDeviation(e: seq<byte>, i: nat)
    requires i < |e| && Deviation(e, BITS_PER_BYTE * i) == 0 && e[i] == 0x41
    ensures Deviation(e, BITS_PER_BYTE * (i + 1)) == 0x1DB7106
  {
    WholeByte(e, i, 7);
    FirstByte();
    hide Steps, Round;
  }

  lemma NextDeviation(e: seq<byte>, i: nat, c: word, b: byte)
    requires i < |e| && e[i] == b && Deviation(e, BITS_PER_BYTE * i) == Shifted(c, 8) + b
    ensures Deviation(e, BITS_PER_BYTE * (i + 1)) == c
  {
    WholeByte(e, i, 7);
    NextByte(c, b);
  }

  lemma ShiftedWords()
    ensures Shifted(0x1DB71, 8) == 0x1DB7100 && Shifted(0x1DB, 8) == 0x1DB00
    ensures Shifted(1, 8) == 0x100 && Shifted(0, 8) == 0
  {
  }

  /** Five bytes after a register without a difference the generator has left none. */
  lemma GeneratorVanishes(e: seq<byte>, p: nat)
    requires GeneratorAt(e, p) && Deviation(e, BITS_PER_BYTE * p) == 0
    ensures Deviation(e, BITS_PER_BYTE * (p + 5)) == 0
  {
    GeneratorBytes(e, p);
    ShiftedWords();
    hide Deviation, Shifted, GeneratorAt;
    FirstDeviation(e, p);
    NextDeviation(e, p + 1, 0x1DB71, 0x06);
    NextDeviation(e, p + 2, 0x1DB, 0x71);
    NextDeviation(e, p + 3, 1, 0xDB);
    NextDeviation(e, p + 4, 0, 1);
  }

  /** Where there is no difference, none appears. */
  lemma {:induction false} DeviationStays(e: seq<byte>, from: nat, k: nat)
    requires from <= k <= BITS_PER_BYTE * |e| && Deviation(e, from) == 0
    requires forall j :: from <= j < k && j % BITS_PER_BYTE == 0 ==> e[j / BITS_PER_BYTE] == 0
    ensures Deviation(e, k) == 0
  {
    if from == k {
    } else {
      DeviationStays(e, from, k - 1);
    }
  }

  // ----- blocks CRC-32 cannot tell apart

  function XorByte(x: byte, y: byte): byte {
    assert Pow2(8) == 0x100;
    XorBelow(x, y, 8);
    Xor(x, y)
  }

  /** `s` with the generator mixed in at byte `p`. */
  function Disguised(s: seq<byte>, p: nat): (t: seq<byte>)
    requires p + 5 <= |s|
    ensures |t| == |s|
    ensures forall i :: 0 <= i < |s| && !(p <= i < p + 5) ==> t[i] == s[i]
  {
    seq(|s|, i requires 0 <= i < |s| => if p <= i < p + 5 then XorByte(s[i], GENERATOR[i - p]) else s[i])
  }

  /** Five bytes of any block can be changed, all of them, without changing its CRC. */
  lemma GeneratorUndetected(s: seq<byte>, p: nat)
    requires p + 5 <= |s|
    ensures Crc(Disguised(s, p)) == Crc(s)
    ensures forall i :: p <= i < p + 5 ==> Disguised(s, p)[i] != s[i]
  {
    var t := Disguised(s, p);
    var e: seq<byte> := seq(|s|, i requires 0 <= i < |s| => if p <= i < p + 5 then GENERATOR[i - p] else 0);
    assert e[p..p + 5] == GENERATOR;
    DeviationStays(e, 0, BITS_PER_BYTE * p);
    GeneratorVanishes(e, p);
    DeviationStays(e, BITS_PER_BYTE * (p + 5), BITS_PER_BYTE * |e|);
    RegisterDeviates(s, t, e, BITS_PER_BYTE * |s|);
    forall i | p <= i < p + 5 ensures t[i] != s[i] {
      GeneratorBytes(e, p);
      assert e[i] != 0;
      if t[i] == s[i] {
        XorSymmetric(s[i], e[i]);
        XorCancels(e[i], 0, s[i]);
      }
    }
  }
}
