/** Bytes in buffers: the GET_4_BYTES, GET_8_BYTES and PUT_4_BYTES macros, and regions of a byte image. */
module Bytes {

  type byte = x: int | 0 <= x < 0x100
  type word = x: int | 0 <= x < 0x1_0000_0000

  /** The little-endian number in the bytes from `from` up to `to`: the shifts and ORs of the GET macros. */
  function Number(h: seq<byte>, from: nat, to: nat): nat
    requires from <= to <= |h|
    decreases |h| - from
  {
    if from == to then 0 else h[from] + 0x100 * Number(h, from + 1, to)
  }

  lemma {:induction false} SameNumber(h: seq<byte>, g: seq<byte>, from: nat, to: nat)
    requires from <= to <= |h| && to <= |g| && forall i :: from <= i < to ==> h[i] == g[i]
    ensures Number(h, from, to) == Number(g, from, to)
    decreases |h| - from
  {
    if from == to {
    } else {
      SameNumber(h, g, from + 1, to);
    }
  }

  /** Equal fields are made of equal bytes. */
  lemma {:induction false} SameField(h: seq<byte>, g: seq<byte>, from: nat, to: nat)
    requires from <= to <= |h| && to <= |g| && Number(h, from, to) == Number(g, from, to)
    ensures forall i :: from <= i < to ==> h[i] == g[i]
    decreases |h| - from
  {
    if from == to {
    } else {
      SameField(h, g, from + 1, to);
    }
  }

  lemma FourBytes(h: seq<byte>, off: nat)
    requires off + 4 <= |h|
    ensures Number(h, off, off + 4) < 0x1_0000_0000
  {
    assert Number(h, off + 3, off + 4) == h[off + 3] + 0x100 * Number(h, off + 4, off + 4);
    assert Number(h, off + 2, off + 4) == h[off + 2] + 0x100 * Number(h, off + 3, off + 4);
    assert Number(h, off + 1, off + 4) == h[off + 1] + 0x100 * Number(h, off + 2, off + 4);
  }

  /** GET_4_BYTES. */
  function Get4(h: seq<byte>, off: nat): word
    requires off + 4 <= |h|
  {
    FourBytes(h, off);
    Number(h, off, off + 4)
  }

  /** The product, by repeated addition: proofs about layouts never need more of it. */
  function Product(x: nat, y: nat): nat {
    if x == 0 then 0 else y + Product(x - 1, y)
  }

  lemma {:induction false} ProductMeaning(x: nat, y: nat)
    ensures Product(x, y) == x * y
  {
    if x == 0 {
    } else {
      ProductMeaning(x - 1, y);
    }
  }

  lemma TimesGrows(x: int, y: int, unit: nat)
    requires x <= y
    ensures unit * x <= unit * y
  {
  }

  /** Octet `k` of `v`, counted from the least significant. */
  function Octet(v: nat, k: nat): byte
    decreases k, v
  {
    if k == 0 then v % 0x100 else Octet(v / 0x100, k - 1)
  }

  lemma OctetShifts(v: nat)
    ensures Octet(v, 0) == v % 0x100 && Octet(v, 1) == v / 0x100 % 0x100
    ensures Octet(v, 2) == v / 0x1_0000 % 0x100 && Octet(v, 3) == v / 0x100_0000 % 0x100
  {
    assert v / 0x1_0000 == v / 0x100 / 0x100 && v / 0x100_0000 == v / 0x1_0000 / 0x100;
    assert Octet(v, 2) == Octet(v / 0x100, 1) == Octet(v / 0x1_0000, 0);
    assert Octet(v, 3) == Octet(v / 0x100, 2) == Octet(v / 0x1_0000, 1) == Octet(v / 0x100_0000, 0);
  }

  function PutOctets(h: seq<byte>, off: nat, v: word): (r: seq<byte>)
    requires off + 4 <= |h|
    ensures |r| == |h|
    ensures forall i :: 0 <= i < |h| && !(off <= i < off + 4) ==> r[i] == h[i]
  {
    h[off := Octet(v, 0)][off + 1 := Octet(v, 1)][off + 2 := Octet(v, 2)][off + 3 := Octet(v, 3)]
  }

  lemma Octets(v: word)
    ensures v == v % 0x100 + 0x100 * (v / 0x100 % 0x100
                 + 0x100 * (v / 0x1_0000 % 0x100 + 0x100 * (v / 0x100_0000 % 0x100)))
  {
    var a, b, c := v / 0x100, v / 0x1_0000, v / 0x100_0000;
    assert b == a / 0x100;
    assert c == b / 0x100;
    assert c % 0x100 == c;
  }

  lemma PutThenGet(h: seq<byte>, off: nat, v: word)
    requires off + 4 <= |h|
    ensures Number(PutOctets(h, off, v), off, off + 4) == v
  {
    var r := PutOctets(h, off, v);
    OctetShifts(v);
    Octets(v);
    assert Number(r, off + 4, off + 4) == 0;
    assert Number(r, off + 3, off + 4) == r[off + 3] + 0x100 * Number(r, off + 4, off + 4);
    assert Number(r, off + 2, off + 4) == r[off + 2] + 0x100 * Number(r, off + 3, off + 4);
    assert Number(r, off + 1, off + 4) == r[off + 1] + 0x100 * Number(r, off + 2, off + 4);
  }

  /** Little-endian 32-bit store, as a function on the buffer. */
  function Put4(h: seq<byte>, off: nat, v: word): (r: seq<byte>)
    requires off + 4 <= |h|
    ensures |r| == |h|
    ensures forall i :: 0 <= i < |h| && !(off <= i < off + 4) ==> r[i] == h[i]
    ensures Get4(r, off) == v
  {
    PutThenGet(h, off, v);
    PutOctets(h, off, v)
  }

  /** Storing a field and another byte can be done in either order. */
  lemma PutElsewhere(h: seq<byte>, off: nat, v: word, n: nat, x: byte)
    requires off + 4 <= n < |h|
    ensures Put4(h[n := x], off, v) == Put4(h, off, v)[n := x]
  {
    var s, t := Put4(h[n := x], off, v), Put4(h, off, v)[n := x];
    SameNumber(Put4(h, off, v), t, off, off + 4);
    SameField(s, t, off, off + 4);
    assert forall i :: 0 <= i < |h| ==> s[i] == t[i];
  }

  /** The PUT_4_BYTES macro on a buffer. */
  method PutFour(a: array<byte>, off: nat, v: word)
    requires off + 4 <= a.Length
    modifies a
    ensures a[..] == Put4(old(a[..]), off, v)
  {
    OctetShifts(v);
    a[off] := v % 0x100;
    a[off + 1] := v / 0x100 % 0x100;
    a[off + 2] := v / 0x1_0000 % 0x100;
    a[off + 3] := v / 0x100_0000 % 0x100;
  }

  /** The `m` bytes at `p` and the `n` bytes at `q` are different bytes. */
  predicate Disjoint(p: nat, m: nat, q: nat, n: nat) {
    p + m <= q || q + n <= p
  }

  /** `s` with the bytes from `off` on replaced by `t`. */
  function Splice(s: seq<byte>, off: nat, t: seq<byte>): (r: seq<byte>)
    requires off + |t| <= |s|
    ensures |r| == |s|
    ensures forall i :: 0 <= i < |s| ==> r[i] == if off <= i < off + |t| then t[i - off] else s[i]
  {
    s[..off] + t + s[off + |t|..]
  }

  /** The `n` bytes of `s` from `p` on. */
  function Read(s: seq<byte>, p: nat, n: nat): (r: seq<byte>)
    requires p + n <= |s|
    ensures |r| == n
    decreases |s|, n
  {
    if n == 0 then [] else Read(s, p, n - 1) + [s[p + n - 1]]
  }

  lemma {:induction false} ReadIsSlice(s: seq<byte>, p: nat, n: nat)
    requires p + n <= |s|
    ensures Read(s, p, n) == s[p..p + n]
    decreases n
  {
    if n == 0 {
    } else {
      ReadIsSlice(s, p, n - 1);
    }
  }

  lemma SameRead(s: seq<byte>, t: seq<byte>, p: nat, n: nat)
    requires p + n <= |s| && p + n <= |t| && forall i :: p <= i < p + n ==> s[i] == t[i]
    ensures Read(s, p, n) == Read(t, p, n)
  {
    ReadIsSlice(s, p, n);
    ReadIsSlice(t, p, n);
    assert s[p..p + n] == t[p..p + n];
  }

  lemma ReadWritten(s: seq<byte>, p: nat, t: seq<byte>)
    requires p + |t| <= |s|
    ensures Read(Splice(s, p, t), p, |t|) == t
  {
    ReadIsSlice(Splice(s, p, t), p, |t|);
    assert Splice(s, p, t)[p..p + |t|] == t;
  }

  lemma ReadElsewhere(s: seq<byte>, off: nat, t: seq<byte>, p: nat, n: nat)
    requires off + |t| <= |s| && p + n <= |s|
    requires p + n <= off || off + |t| <= p
    ensures Read(Splice(s, off, t), p, n) == Read(s, p, n)
  {
    SameRead(s, Splice(s, off, t), p, n);
  }

  /** The memcpy of `n` bytes between buffers, or between places of one buffer that do not overlap. */
  method Memcpy(dst: array<byte>, to: nat, src: array<byte>, from: nat, n: nat)
    requires to + n <= dst.Length && from + n <= src.Length
    requires dst == src ==> to + n <= from || from + n <= to
    modifies dst
    ensures dst[..] == Splice(old(dst[..]), to, old(src[..])[from..from + n])
  {
    for i := 0 to n
      invariant forall k :: 0 <= k < dst.Length ==>
        dst[k] == if to <= k < to + i then old(src[from + (k - to)]) else old(dst[k])
      invariant forall k :: 0 <= k < src.Length && (dst != src || !(to <= k < to + i)) ==> src[k] == old(src[k])
    {
      dst[to + i] := src[from + i];
    }
  }
}
