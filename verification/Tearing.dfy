/** Array writes that are torn between blocks: each block of the device is written whole or not at all. Blocks of one
    byte are the tears of any kind. */
module Tearing {
  import opened Bytes
  import opened Disk

  /** The block of the device that byte `i` of bytes lying at `off` is in. */
  function BlockOf(off: nat, i: nat, unit: nat): nat
    requires unit > 0
  {
    (off + i) / unit
  }

  /** In block `k`, the bytes `t` that lie at `off` on the device are those of `s`. */
  ghost predicate Takes(s: seq<byte>, t: seq<byte>, off: nat, unit: nat, k: nat)
    requires unit > 0
  {
    |s| == |t| && forall i: nat :: i < |t| && BlockOf(off, i, unit) == k ==> t[i] == s[i]
  }

  /** In every block the bytes `t` are those of `a` or those of `b`. */
  ghost predicate Mixture(a: seq<byte>, b: seq<byte>, t: seq<byte>, off: nat, unit: nat)
    requires unit > 0
  {
    |a| == |b| == |t| && forall k: nat :: Takes(a, t, off, unit, k) || Takes(b, t, off, unit, k)
  }

  /** What an interrupted array write can leave when the device writes blocks of `unit` bytes whole. */
  ghost predicate TornBy(d: Disk, w: Write, r: Disk, unit: nat)
    requires unit > 0
  {
    !w.whole && r.blk == d.blk && Mixture(d.bytes, Apply(d, w).bytes, r.bytes, 0, unit)
  }

  /** What a power cut at any moment of a sequence of writes can leave on such a device. */
  ghost predicate CutBy(d: Disk, ws: seq<Write>, r: Disk, unit: nat)
    requires unit > 0
    decreases |ws|
  {
    || r == d
    || (ws != [] && (TornBy(d, ws[0], r, unit) || CutBy(Apply(d, ws[0]), ws[1..], r, unit)))
  }

  // ----- what holds byte by byte holds block by block

  lemma MixtureBytes(a: seq<byte>, b: seq<byte>, t: seq<byte>, off: nat, unit: nat)
    requires unit > 0 && Mixture(a, b, t, off, unit)
    ensures forall i :: 0 <= i < |t| ==> t[i] == a[i] || t[i] == b[i]
  {
    hide BlockOf;
    forall i | 0 <= i < |t| ensures t[i] == a[i] || t[i] == b[i] {
      var k := BlockOf(off, i, unit);
      assert Takes(a, t, off, unit, k) || Takes(b, t, off, unit, k);
    }
  }

  /** Every cut on a device with blocks is a cut as such: what every cut keeps, it keeps. */
  lemma {:induction false} CutByIsCut(d: Disk, ws: seq<Write>, r: Disk, unit: nat)
    requires unit > 0 && CutBy(d, ws, r, unit)
    ensures Cut(d, ws, r)
    decreases |ws|
  {
    if r == d {
    } else if TornBy(d, ws[0], r, unit) {
      MixtureBytes(d.bytes, Apply(d, ws[0]).bytes, r.bytes, 0, unit);
    } else {
      CutByIsCut(Apply(d, ws[0]), ws[1..], r, unit);
    }
  }

  lemma BytesMixture(a: seq<byte>, b: seq<byte>, t: seq<byte>, off: nat)
    requires |a| == |b| == |t| && forall i :: 0 <= i < |t| ==> t[i] == a[i] || t[i] == b[i]
    ensures Mixture(a, b, t, off, 1)
  {
    forall k: nat ensures Takes(a, t, off, 1, k) || Takes(b, t, off, 1, k) {
      assert forall i: nat :: i < |t| && BlockOf(off, i, 1) == k ==> i == k - off;
    }
  }

  /** With blocks of one byte nothing is excluded. */
  lemma {:induction false} CutIsCutByOne(d: Disk, ws: seq<Write>, r: Disk)
    requires Cut(d, ws, r)
    ensures CutBy(d, ws, r, 1)
    decreases |ws|
  {
    if r == d {
    } else if Torn(d, ws[0], r) {
      BytesMixture(d.bytes, Apply(d, ws[0]).bytes, r.bytes, 0);
    } else {
      CutIsCutByOne(Apply(d, ws[0]), ws[1..], r);
    }
  }

  // ----- mixtures of regions

  lemma SamePlace(p: nat, i: nat, unit: nat)
    requires unit > 0
    ensures BlockOf(0, p + i, unit) == BlockOf(p, i, unit)
  {
  }

  lemma TakesRegion(s: seq<byte>, u: seq<byte>, p: nat, n: nat, unit: nat, k: nat)
    requires unit > 0 && Takes(s, u, 0, unit, k) && p + n <= |s|
    ensures Takes(s[p..p + n], u[p..p + n], p, unit, k)
  {
    hide BlockOf;
    forall i: nat | i < n && BlockOf(p, i, unit) == k ensures u[p..p + n][i] == s[p..p + n][i] {
      SamePlace(p, i, unit);
      assert u[p + i] == s[p + i];
    }
  }

  /** A mixture of two disks is a mixture of each of their regions. */
  lemma MixtureOfRegions(s: seq<byte>, t: seq<byte>, u: seq<byte>, p: nat, n: nat, unit: nat)
    requires unit > 0 && Mixture(s, t, u, 0, unit) && p + n <= |s|
    ensures Mixture(Read(s, p, n), Read(t, p, n), Read(u, p, n), p, unit)
  {
    ReadIsSlice(s, p, n);
    ReadIsSlice(t, p, n);
    ReadIsSlice(u, p, n);
    hide Takes;
    var a, b, c := s[p..p + n], t[p..p + n], u[p..p + n];
    forall k: nat ensures Takes(a, c, p, unit, k) || Takes(b, c, p, unit, k) {
      if Takes(s, u, 0, unit, k) {
        TakesRegion(s, u, p, n, unit, k);
      } else {
        TakesRegion(t, u, p, n, unit, k);
      }
    }
  }

  /** What is taken inside a region is taken on the whole disk, if that is the same outside. */
  lemma TakesWhole(s: seq<byte>, t: seq<byte>, d: seq<byte>, e: seq<byte>, off: nat, unit: nat, k: nat)
    requires unit > 0 && off + |s| <= |d| == |e| && Takes(s, t, off, unit, k)
    requires d[off..off + |s|] == s && e[off..off + |s|] == t
    requires forall i :: 0 <= i < |d| && !(off <= i < off + |s|) ==> d[i] == e[i]
    ensures Takes(d, e, 0, unit, k)
  {
    hide BlockOf;
    forall i: nat | i < |e| && BlockOf(0, i, unit) == k ensures e[i] == d[i] {
      if off <= i < off + |s| {
        SamePlace(off, i - off, unit);
        assert d[off..off + |s|][i - off] == d[i] && e[off..off + |s|][i - off] == e[i];
      }
    }
  }

  /** A mixture written to its region is a torn write of that region. */
  lemma MixtureIsTorn(e: Disk, off: nat, a: seq<byte>, t: seq<byte>, unit: nat)
    requires unit > 0 && off + |a| <= |e.bytes| && Mixture(Read(e.bytes, off, |a|), a, t, off, unit)
    ensures TornBy(e, Write(off, a, false), Apply(e, Write(off, t, false)), unit)
  {
    ReadIsSlice(e.bytes, off, |a|);
    hide Takes;
    var was, f, r := e.bytes[off..off + |a|], Apply(e, Write(off, a, false)), Apply(e, Write(off, t, false));
    assert f.bytes[off..off + |a|] == a && r.bytes[off..off + |a|] == t;
    forall k: nat ensures Takes(e.bytes, r.bytes, 0, unit, k) || Takes(f.bytes, r.bytes, 0, unit, k) {
      if Takes(was, t, off, unit, k) {
        TakesWhole(was, t, e.bytes, r.bytes, off, unit, k);
      } else {
        TakesWhole(a, t, f.bytes, r.bytes, off, unit, k);
      }
    }
  }

  /** The two ends of a tear are mixtures. */
  lemma MixtureEnds(a: seq<byte>, b: seq<byte>, off: nat, unit: nat)
    requires unit > 0 && |a| == |b|
    ensures Mixture(a, b, a, off, unit) && Mixture(a, b, b, off, unit)
  {
    hide BlockOf;
    assert forall k: nat :: Takes(a, a, off, unit, k) && Takes(b, b, off, unit, k);
  }

  /** A mixture of a mixture and the new bytes is one of the old and the new. */
  lemma MixtureAgain(a: seq<byte>, b: seq<byte>, t: seq<byte>, u: seq<byte>, off: nat, unit: nat)
    requires unit > 0 && Mixture(a, b, t, off, unit) && Mixture(t, b, u, off, unit)
    ensures Mixture(a, b, u, off, unit)
  {
    hide BlockOf;
    forall k: nat ensures Takes(a, u, off, unit, k) || Takes(b, u, off, unit, k) {
      assert Takes(t, u, off, unit, k) || Takes(b, u, off, unit, k);
      assert Takes(a, t, off, unit, k) || Takes(b, t, off, unit, k);
    }
  }

  // ----- regions of one block and of several

  /** `n` bytes at `off` lie in one block of the device. */
  predicate InOneBlock(off: nat, n: nat, unit: nat)
    requires unit > 0
  {
    n == 0 || BlockOf(off, 0, unit) == BlockOf(off, n - 1, unit)
  }

  lemma BlocksGrow(off: nat, i: nat, j: nat, unit: nat)
    requires unit > 0 && i <= j
    ensures BlockOf(off, i, unit) <= BlockOf(off, j, unit)
  {
    var x, y := (off + i) / unit, (off + j) / unit;
    assert off + j < unit * (y + 1) && unit * x <= off + i;
    if y < x {
      TimesGrows(y + 1, x, unit);
    }
  }

  /** Bytes in one block are not torn. */
  lemma OneBlock(a: seq<byte>, b: seq<byte>, t: seq<byte>, off: nat, unit: nat)
    requires unit > 0 && Mixture(a, b, t, off, unit) && InOneBlock(off, |t|, unit)
    ensures t == a || t == b
  {
    hide BlockOf;
    var k := BlockOf(off, 0, unit);
    forall i: nat | i < |t| ensures BlockOf(off, i, unit) == k {
      BlocksGrow(off, 0, i, unit);
      BlocksGrow(off, i, |t| - 1, unit);
    }
    assert Takes(a, t, off, unit, k) || Takes(b, t, off, unit, k);
  }

  /** Five bytes from `p` on are in other blocks than byte `q`. */
  predicate Apart(off: nat, p: nat, q: nat, unit: nat)
    requires unit > 0
  {
    forall i: nat :: p <= i < p + 5 ==> BlockOf(off, i, unit) != BlockOf(off, q, unit)
  }

  /** A region of at least nine bytes in more than one block has such places: at its start, or behind its first byte. */
  lemma SomeApart(off: nat, n: nat, unit: nat) returns (p: nat, q: nat)
    requires unit > 0 && n >= 9 && !InOneBlock(off, n, unit)
    ensures p + 5 <= n && q < n && Apart(off, p, q, unit)
  {
    hide BlockOf;
    BlocksGrow(off, 4, n - 1, unit);
    BlocksGrow(off, 0, 4, unit);
    if BlockOf(off, 4, unit) < BlockOf(off, n - 1, unit) {
      p, q := 0, n - 1;
      forall i: nat | p <= i < p + 5 ensures BlockOf(off, i, unit) != BlockOf(off, q, unit) {
        BlocksGrow(off, i, 4, unit);
      }
    } else {
      p, q := 4, 0;
      forall i: nat | p <= i < p + 5 ensures BlockOf(off, i, unit) != BlockOf(off, q, unit) {
        BlocksGrow(off, 4, i, unit);
      }
    }
  }

  lemma BlockIs(m: nat, i: nat, unit: nat)
    requires i < unit
    ensures (unit * m + i) / unit == m
  {
    var x := unit * m + i;
    var y := x / unit;
    if y < m {
      TimesGrows(y + 1, m, unit);
    } else if y > m {
      TimesGrows(m + 1, y, unit);
    }
  }

  /** A region that starts with a block lies in one exactly when it is no longer than a block. */
  lemma WholeBlocks(off: nat, n: nat, unit: nat)
    requires unit > 0 && off % unit == 0
    ensures InOneBlock(off, n, unit) <==> n <= unit
  {
    var m := off / unit;
    assert off == unit * m;
    if 0 < n <= unit {
      assert (off + (n - 1)) / unit == m by {
        BlockIs(m, n - 1, unit);
      }
      BlockIs(m, 0, unit);
    } else if n > unit {
      BlockIs(m, 0, unit);
      BlockIs(m + 1, 0, unit);
      assert unit * (m + 1) == off + unit;
      BlocksGrow(off, unit, n - 1, unit);
    }
  }
}
