/** What CRC-32 does with blocks that carry their own CRC, and with damage inside four neighbouring bytes. */
module Crc32Residue {
  import opened Bytes
  import opened Crc32
  import opened Crc32Collisions
  import opened Crc32Values

  // ----- four bytes at once

  lemma {:induction false} StepsLinear(x: word, y: word, n: nat)
    ensures Steps(XorWord(x, y), n) == XorWord(Steps(x, n), Steps(y, n))
  {
    hide Round, XorWord;
    if n == 0 {
    } else {
      StepsLinear(x, y, n - 1);
      RoundIsLinear(Steps(x, n - 1), Steps(y, n - 1));
    }
  }

  lemma ShiftedByte(w: nat)
    ensures Shifted(w, 8) == 0x100 * w
  {
    assert Shifted(w, 1) == 2 * Shifted(w, 0);
    assert Shifted(w, 2) == 2 * Shifted(w, 1);
    assert Shifted(w, 3) == 2 * Shifted(w, 2);
    assert Shifted(w, 4) == 2 * Shifted(w, 3);
    assert Shifted(w, 5) == 2 * Shifted(w, 4);
    assert Shifted(w, 6) == 2 * Shifted(w, 5);
    assert Shifted(w, 7) == 2 * Shifted(w, 6);
  }

  /** What is mixed in behind eight steps could have been mixed in before them, eight bits further up. */
  lemma MixedBefore(y: word, w: nat)
    requires w < 0x100_0000
    ensures XorWord(Steps(y, 8), w) == Steps(XorWord(y, 0x100 * w), 8)
  {
    hide Steps, XorWord, Shifted;
    ShiftedByte(w);
    StepsShift(w, 8);
    StepsLinear(y, 0x100 * w, 8);
  }

  lemma XorZero(x: nat)
    ensures Xor(x, 0) == x
  {
  }

  lemma ByteBits()
    ensures Pow2(8) == 0x100
  {
  }

  /** Numbers without a bit in common are mixed by adding them. */
  lemma MixedIsSum(b: byte, m: nat)
    ensures Xor(b, 0x100 * m) == b + 0x100 * m
  {
    hide Xor, Shifted, Pow2;
    var v := 0x100 * m;
    ByteBits();
    ShiftedByte(m);
    XorClears(m, b, 8);
    assert Xor(v + b, b) == v;
    XorAssociates(v + b, b, b);
    XorSelf(b);
    XorZero(v + b);
    XorSymmetric(v, b);
  }

  lemma NumberBelow(s: seq<byte>, from: nat, to: nat)
    requires from <= to <= |s| && to - from <= 3
    ensures Number(s, from, to) < 0x100_0000
  {
    assert Number(s, to, to) == 0;
    if from < to {
      assert Number(s, to - 1, to) == s[to - 1] + 0x100 * Number(s, to, to);
    }
    if from + 1 < to {
      assert Number(s, to - 2, to) == s[to - 2] + 0x100 * Number(s, to - 1, to);
    }
    if from + 2 < to {
      assert Number(s, to - 3, to) == s[to - 3] + 0x100 * Number(s, to - 2, to);
    }
  }

  lemma NextNumber(s: seq<byte>, from: nat, to: nat)
    requires from < to <= |s|
    ensures Number(s, from, to) == s[from] + 0x100 * Number(s, from + 1, to)
  {
  }

  lemma NoBytes(s: seq<byte>, p: nat)
    requires p <= |s|
    ensures Number(s, p, p) == 0
    ensures forall c: word :: XorWord(c, 0) == c && Steps(c, 0) == c
  {
    forall c: word ensures XorWord(c, 0) == c {
      XorZero(c);
    }
  }

  /** Up to four bytes are taken in as the number they are. */
  lemma {:induction false} BytesAtOnce(s: seq<byte>, p: nat, n: nat)
    requires p + n <= |s| && n <= 4
    ensures Number(s, p, p + n) < 0x1_0000_0000
    ensures Register(s, BITS_PER_BYTE * (p + n))
         == Steps(XorWord(Register(s, BITS_PER_BYTE * p), Number(s, p, p + n)), BITS_PER_BYTE * n)
    decreases n
  {
    hide Register, Number, Xor, Steps;
    if n == 0 {
      NoBytes(s, p);
    } else {
      var r, rest := Register(s, BITS_PER_BYTE * p), Number(s, p + 1, p + n);
      BytesAtOnce(s, p + 1, n - 1);
      NumberBelow(s, p + 1, p + n);
      NextNumber(s, p, p + n);
      RegisterByte(s, p, 7);
      MixedBefore(XorWord(r, s[p]), rest);
      XorAssociates(r, s[p], 0x100 * rest);
      MixedIsSum(s[p], rest);
      StepsAdd(XorWord(r, Number(s, p, p + n)), 8, BITS_PER_BYTE * (n - 1));
    }
  }

  // ----- the residue

  /** A number and its complement make all ones. */
  lemma {:induction false} Complement(x: nat, k: nat)
    requires x < Pow2(k)
    ensures Xor(x, Pow2(k) - 1 - x) == Pow2(k) - 1
    decreases k
  {
    if k == 0 {
    } else {
      hide Xor;
      Complement(x / 2, k - 1);
      var y := Pow2(k) - 1 - x;
      assert y / 2 == Pow2(k - 1) - 1 - x / 2;
      XorParts(x, y);
    }
  }

  lemma {:induction false} SameRegister(s: seq<byte>, t: seq<byte>, k: nat)
    requires k <= BITS_PER_BYTE * |s| && k <= BITS_PER_BYTE * |t|
    requires forall i :: 0 <= i < |s| && i < |t| && BITS_PER_BYTE * i < k ==> s[i] == t[i]
    ensures Register(s, k) == Register(t, k)
    decreases k
  {
    if k == 0 {
    } else {
      SameRegister(s, t, k - 1);
    }
  }

  /** The four bytes of a CRC, the lowest first. */
  function Trailer(c: word): (t: seq<byte>)
    ensures |t| == 4
  {
    [c % 0x100, c / 0x100 % 0x100, c / 0x1_0000 % 0x100, c / 0x100_0000 % 0x100]
  }

  lemma TrailerNumber(s: seq<byte>, c: word)
    ensures Number(s + Trailer(c), |s|, |s| + 4) == c
  {
    hide Number;
    var t, n := s + Trailer(c), |s|;
    Octets(c);
    NoBytes(t, n + 4);
    NextNumber(t, n + 3, n + 4);
    NextNumber(t, n + 2, n + 4);
    NextNumber(t, n + 1, n + 4);
    NextNumber(t, n, n + 4);
  }

  /** The empty block has CRC zero, and any block followed by its CRC has the residue of CRC-32. */
  lemma Residue(s: seq<byte>)
    ensures Crc([]) == 0
    ensures Crc(s + Trailer(Crc(s))) == 0x2144_DF1C
  {
    hide Register, Steps, Xor, Trailer;
    var r, t := Register(s, BITS_PER_BYTE * |s|), s + Trailer(Crc(s));
    FirstRegister([]);
    SameRegister(s, t, BITS_PER_BYTE * |s|);
    TrailerNumber(s, Crc(s));
    BytesAtOnce(t, |s|, 4);
    WordBits();
    Complement(r, 32);
    LastResidue();
  }

  // ----- bursts

  lemma {:induction false} StepsInjective(x: word, y: word, n: nat)
    requires Steps(x, n) == Steps(y, n)
    ensures x == y
    decreases n
  {
    hide Round;
    if n == 0 {
    } else {
      RoundInjective(Steps(x, n - 1), Steps(y, n - 1));
      StepsInjective(x, y, n - 1);
    }
  }

  lemma MixInjective(c: word, x: word, y: word)
    requires XorWord(c, x) == XorWord(c, y)
    ensures x == y
  {
    hide Xor;
    XorSymmetric(c, x);
    XorSymmetric(c, y);
    XorCancels(x, y, c);
  }

  /** From where two blocks agree again, registers that differ stay different. */
  lemma {:induction false} StayDifferent(s: seq<byte>, t: seq<byte>, from: nat, k: nat)
    requires |s| == |t| && from <= k <= BITS_PER_BYTE * |s|
    requires forall i :: 0 <= i < |s| && from <= BITS_PER_BYTE * i ==> s[i] == t[i]
    requires Register(s, from) != Register(t, from)
    ensures Register(s, k) != Register(t, k)
    decreases k
  {
    hide Round, XorWord;
    if from == k {
    } else {
      var j := k - 1;
      StayDifferent(s, t, from, j);
      var x, y := Register(s, j), Register(t, j);
      assert TakenIn(t, j, y) == TakenIn(s, j, y);
      if Round(TakenIn(s, j, x)) == Round(TakenIn(t, j, y)) {
        RoundInjective(TakenIn(s, j, x), TakenIn(t, j, y));
        TakenInInjective(s, j, x, y);
      }
    }
  }

  /** Any damage inside four neighbouring bytes changes the CRC. */
  lemma BurstDetected(s: seq<byte>, t: seq<byte>, p: nat)
    requires |s| == |t| && p + 4 <= |s| && s != t
    requires forall i :: 0 <= i < |s| && !(p <= i < p + 4) ==> s[i] == t[i]
    ensures Crc(s) != Crc(t)
  {
    hide Register, Steps, Xor, Number;
    SameRegister(s, t, BITS_PER_BYTE * p);
    BytesAtOnce(s, p, 4);
    BytesAtOnce(t, p, 4);
    var c, x, y := Register(s, BITS_PER_BYTE * p), Number(s, p, p + 4), Number(t, p, p + 4);
    if Register(s, BITS_PER_BYTE * (p + 4)) == Register(t, BITS_PER_BYTE * (p + 4)) {
      StepsInjective(XorWord(c, x), XorWord(c, y), BITS_PER_BYTE * 4);
      MixInjective(c, x, y);
      SameField(s, t, p, p + 4);
      assert false;
    }
    StayDifferent(s, t, BITS_PER_BYTE * (p + 4), BITS_PER_BYTE * |s|);
  }
}
