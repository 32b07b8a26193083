/** The boot-chain swap: what it does to every entry, and that it undoes itself. */
module EntriesProofs {
  import opened Bytes
  import opened Entries
  import opened Wrappers

  /** No entry can be called by both names. */
  predicate Apart(x: string, y: string) {
    x != y && x != y + BAK_PTN_NAME_EXT && y != x + BAK_PTN_NAME_EXT
  }

  predicate Distinguishable(names: seq<string>) {
    forall i, j :: 0 <= i < j < |names| ==> Apart(names[i], names[j])
  }

  /** Length, first and last letter, mixed so that no two names of the swap list agree. */
  function Fingerprint(s: string): int {
    if s == [] then 0 else 11 * |s| + s[0] as int - s[|s| - 1] as int
  }

  const FINGERPRINTS: seq<int> := [
    45, 127, 110, 38, 16, 36, 22, 25, 84, 92, 67, 137, 135, 57, 29, 63, 48, 94, 52, 41, 107, 21, 18, 49, 87, 33, 64, 32,
    121, 125, 115]

  lemma FingerprintsOfSwapList()
    ensures |FINGERPRINTS| == |PTN_SWAP_LIST|
    ensures forall i :: 0 <= i < |PTN_SWAP_LIST| ==> Fingerprint(PTN_SWAP_LIST[i]) == FINGERPRINTS[i]
  {
  }

  lemma FingerprintsDiffer()
    ensures forall i, j :: 0 <= i < j < |FINGERPRINTS| ==> FINGERPRINTS[i] != FINGERPRINTS[j]
  {
  }

  /** No name of the swap list ends as a backup name does. */
  lemma SwapListEndings()
    ensures forall i :: 0 <= i < |PTN_SWAP_LIST| ==>
      var s := PTN_SWAP_LIST[i]; s != [] && s[|s| - 1] != 'k' && NoNul(s)
  {
  }

  lemma KeysAndEndings(x: string, y: string)
    requires x != [] && x[|x| - 1] != 'k' && y != [] && y[|y| - 1] != 'k'
    requires Fingerprint(x) != Fingerprint(y)
    ensures Apart(x, y)
  {
    assert (x + BAK_PTN_NAME_EXT)[|x| + 2] == 'k' && (y + BAK_PTN_NAME_EXT)[|y| + 2] == 'k';
  }

  lemma SwapListIsDistinguishable()
    ensures Distinguishable(PTN_SWAP_LIST)
  {
    FingerprintsOfSwapList();
    FingerprintsDiffer();
    SwapListEndings();
    forall i, j | 0 <= i < j < |PTN_SWAP_LIST|
      ensures Apart(PTN_SWAP_LIST[i], PTN_SWAP_LIST[j])
    {
      KeysAndEndings(PTN_SWAP_LIST[i], PTN_SWAP_LIST[j]);
    }
  }

  // ----- one swap

  /** Whether an entry is named depends on its first 128 bytes only. */
  lemma NamedBySelf(a: seq<byte>, p: nat, b: seq<byte>, q: nat, name: string)
    requires p + PTN_ENTRY_SIZE <= |a| && q + PTN_ENTRY_SIZE <= |b|
    requires a[p..p + PTN_ENTRY_SIZE] == b[q..q + PTN_ENTRY_SIZE]
    ensures Named(a, p, name) == Named(b, q, name)
  {
    forall i | 0 <= i < 36 ensures a[p + PARTITION_NAME_OFFSET + 2 * i] == b[q + PARTITION_NAME_OFFSET + 2 * i] {
      var k := PARTITION_NAME_OFFSET + 2 * i;
      assert a[p..p + PTN_ENTRY_SIZE][k] == b[q..q + PTN_ENTRY_SIZE][k];
    }
    assert NameBuffer(a, p) == NameBuffer(b, q);
  }

  lemma SuffixCancels(x: string, y: string, e: string)
    ensures x + e == y + e ==> x == y
  {
    if x + e == y + e {
      assert x == (x + e)[..|x|] && y == (y + e)[..|y|];
    }
  }

  /** An entry named by one of two names that are apart is not named by the other. */
  lemma NamedOnce(a: seq<byte>, p: nat, x: string, y: string)
    requires p + PTN_ENTRY_SIZE <= |a| && Apart(x, y) && Named(a, p, x)
    ensures !Named(a, p, y)
  {
    SuffixCancels(x, y, BAK_PTN_NAME_EXT);
  }

  /** Two arrays of one size where the same slots are named `name`. */
  ghost predicate SameNamed(a: seq<byte>, b: seq<byte>, size: nat, name: string)
    requires PTN_ENTRY_SIZE <= size && |a| == |b|
  {
    forall p: nat :: Slot(|a|, size, p) ==> Named(a, p, name) == Named(b, p, name)
  }

  lemma SameSeek(a: seq<byte>, b: seq<byte>, size: nat, p: nat, name: string)
    requires PTN_ENTRY_SIZE <= size && |a| == |b| && p <= |a| && Multiple(|a| - p, size)
    requires SameNamed(a, b, size, name)
    ensures Seek(a, size, p, name) == Seek(b, size, p, name)
  {
    var f, g := Seek(a, size, p, name), Seek(b, size, p, name);
    if f.Some? {
      assert Named(b, f.value, name);
    }
    if g.Some? {
      assert Named(a, g.value, name);
    }
  }

  /** Two arrays of one size where every search for `name` ends alike. */
  ghost predicate SameSeeks(a: seq<byte>, b: seq<byte>, size: nat, name: string)
    requires PTN_ENTRY_SIZE <= size && |a| == |b|
  {
    forall p: nat :: p <= |a| && Multiple(|a| - p, size) ==> Seek(a, size, p, name) == Seek(b, size, p, name)
  }

  lemma SameFollowing(a: seq<byte>, b: seq<byte>, size: nat, p: nat, name: string)
    requires PTN_ENTRY_SIZE <= size && |a| == |b| && Slot(|a|, size, p)
    requires SameSeeks(a, b, size, name)
    ensures Following(a, size, p, name) == Following(b, size, p, name)
  {
    assert Seek(a, size, p + size, name) == Seek(b, size, p + size, name);
  }

  lemma SamePair(a: seq<byte>, b: seq<byte>, size: nat, name: string)
    requires PTN_ENTRY_SIZE <= size && |a| == |b| && Multiple(|a|, size)
    requires SameSeeks(a, b, size, name)
    ensures Pair(a, size, name) == Pair(b, size, name)
  {
    var f := Seek(a, size, 0, name);
    assert f == Seek(b, size, 0, name);
    if f.Some? {
      SameFollowing(a, b, size, f.value, name);
    }
  }

  lemma PairFacts(a: seq<byte>, size: nat, name: string)
    requires PTN_ENTRY_SIZE <= size && Multiple(|a|, size)
    ensures var r := Pair(a, size, name);
      r.Some? ==> && Slot(|a|, size, r.value.0) && Slot(|a|, size, r.value.1)
                  && Named(a, r.value.0, name) && Named(a, r.value.1, name)
  {
  }

  /** What exchanging does to the slots of the grid. */
  lemma ExchangeSlots(a: seq<byte>, size: nat, p: nat, q: nat, r: nat)
    requires PTN_ENTRY_SIZE <= size && Slot(|a|, size, p) && Slot(|a|, size, q) && Slot(|a|, size, r) && p < q
    ensures p + size <= q
    ensures var s := if r == p then q else if r == q then p else r;
      Exchange(a, p, q)[r..r + PTN_ENTRY_SIZE] == a[s..s + PTN_ENTRY_SIZE]
  {
    SlotsApart(|a|, size, p, q);
    if r < p { SlotsApart(|a|, size, r, p); }
    if p < r { SlotsApart(|a|, size, p, r); }
    if r < q { SlotsApart(|a|, size, r, q); }
    if q < r { SlotsApart(|a|, size, q, r); }
  }

  /** A swap moves entries only among the slots of its own name. */
  lemma SwapOneKeepsNames(a: seq<byte>, size: nat, name: string, other: string)
    requires PTN_ENTRY_SIZE <= size && Multiple(|a|, size)
    requires name == other || Apart(name, other)
    ensures SameNamed(a, SwapOne(a, size, name), size, other)
    ensures Pair(SwapOne(a, size, name), size, other) == Pair(a, size, other)
  {
    var b := SwapOne(a, size, name);
    PairFacts(a, size, name);
    var r := Pair(a, size, name);
    forall s: nat | Slot(|a|, size, s) ensures Named(a, s, other) == Named(b, s, other) {
      if r.Some? {
        var p, q := r.value.0, r.value.1;
        ExchangeSlots(a, size, p, q, s);
        var from := if s == p then q else if s == q then p else s;
        NamedBySelf(b, s, a, from, other);
        if name != other {
          NamedOnce(a, p, name, other);
          NamedOnce(a, q, name, other);
        }
      }
    }
    forall p: nat | p <= |a| && Multiple(|a| - p, size)
      ensures Seek(a, size, p, other) == Seek(b, size, p, other)
    {
      SameSeek(a, b, size, p, other);
    }
    SamePair(a, b, size, other);
  }

  lemma ExchangeTwice(a: seq<byte>, p: nat, q: nat)
    requires p + PTN_ENTRY_SIZE <= q && q + PTN_ENTRY_SIZE <= |a|
    ensures Exchange(Exchange(a, p, q), p, q) == a
  {
  }

  lemma SwapOneTwice(a: seq<byte>, size: nat, name: string)
    requires PTN_ENTRY_SIZE <= size && Multiple(|a|, size)
    ensures SwapOne(SwapOne(a, size, name), size, name) == a
  {
    SwapOneKeepsNames(a, size, name, name);
    var r := Pair(a, size, name);
    if r.Some? {
      ExchangeTwice(a, r.value.0, r.value.1);
    }
  }

  /** The first 128 bytes of the entries at `p` and `q` are different bytes. */
  predicate EntriesApart(p: nat, q: nat) {
    Disjoint(p, PTN_ENTRY_SIZE, q, PTN_ENTRY_SIZE)
  }

  lemma ExchangesCommute(a: seq<byte>, p: nat, q: nat, r: nat, s: nat)
    requires p + PTN_ENTRY_SIZE <= q && q + PTN_ENTRY_SIZE <= |a|
    requires r + PTN_ENTRY_SIZE <= s && s + PTN_ENTRY_SIZE <= |a|
    requires EntriesApart(p, r) && EntriesApart(p, s) && EntriesApart(q, r) && EntriesApart(q, s)
    ensures Exchange(Exchange(a, p, q), r, s) == Exchange(Exchange(a, r, s), p, q)
  {
  }

  lemma SlotsClear(n: nat, size: nat, p: nat, q: nat)
    requires PTN_ENTRY_SIZE <= size && Slot(n, size, p) && Slot(n, size, q) && p != q
    ensures EntriesApart(p, q)
  {
    if p < q { SlotsApart(n, size, p, q); } else { SlotsApart(n, size, q, p); }
  }

  lemma SwapsCommute(a: seq<byte>, size: nat, x: string, y: string)
    requires PTN_ENTRY_SIZE <= size && Multiple(|a|, size) && Apart(x, y)
    ensures SwapOne(SwapOne(a, size, x), size, y) == SwapOne(SwapOne(a, size, y), size, x)
  {
    SwapOneKeepsNames(a, size, x, y);
    SwapOneKeepsNames(a, size, y, x);
    PairFacts(a, size, x);
    PairFacts(a, size, y);
    var f, g := Pair(a, size, x), Pair(a, size, y);
    if f.Some? && g.Some? {
      var p, q, r, s := f.value.0, f.value.1, g.value.0, g.value.1;
      NamedOnce(a, p, x, y);
      NamedOnce(a, q, x, y);
      SlotsClear(|a|, size, p, r);
      SlotsClear(|a|, size, p, s);
      SlotsClear(|a|, size, q, r);
      SlotsClear(|a|, size, q, s);
      ExchangesCommute(a, p, q, r, s);
    }
  }

  // ----- the whole boot chain

  lemma {:induction false} SwapOnePastAll(a: seq<byte>, size: nat, x: string, names: seq<string>)
    requires PTN_ENTRY_SIZE <= size && Multiple(|a|, size)
    requires forall i :: 0 <= i < |names| ==> Apart(x, names[i])
    ensures SwapOne(SwapAll(a, size, names), size, x) == SwapAll(SwapOne(a, size, x), size, names)
    decreases |names|
  {
    if names == [] {
    } else {
      SwapOnePastAll(SwapOne(a, size, names[0]), size, x, names[1..]);
      SwapsCommute(a, size, x, names[0]);
    }
  }

  /** The boot-chain swap is its own inverse. */
  lemma {:induction false} SwapAllTwice(a: seq<byte>, size: nat, names: seq<string>)
    requires PTN_ENTRY_SIZE <= size && Multiple(|a|, size) && Distinguishable(names)
    ensures SwapAll(SwapAll(a, size, names), size, names) == a
    decreases |names|
  {
    if names == [] {
    } else {
      var x, rest, b := names[0], names[1..], SwapOne(a, size, names[0]);
      SwapOnePastAll(b, size, x, rest);
      SwapOneTwice(a, size, x);
      SwapAllTwice(a, size, rest);
    }
  }

  /** Where the swap takes the entry at `p` from: decided by the array before any exchange. */
  function Partner(a: seq<byte>, size: nat, names: seq<string>, p: nat): nat
    requires PTN_ENTRY_SIZE <= size && Multiple(|a|, size)
  {
    if names == [] then p
    else match Pair(a, size, names[0])
      case Some((x, y)) => if p == x then y else if p == y then x else Partner(a, size, names[1..], p)
      case None => Partner(a, size, names[1..], p)
  }

  /** An entry whose name is apart from every listed name stays where it is, and none comes to its place. */
  lemma {:induction false} UnlistedStays(a: seq<byte>, size: nat, names: seq<string>, p: nat, x: string)
    requires PTN_ENTRY_SIZE <= size && Multiple(|a|, size) && Slot(|a|, size, p)
    requires forall i :: 0 <= i < |names| ==> Apart(x, names[i])
    ensures Slot(|a|, size, Partner(a, size, names, p))
    ensures Named(a, p, x) || Named(a, Partner(a, size, names, p), x) ==> Partner(a, size, names, p) == p
  {
    if names == [] {
    } else {
      PairFacts(a, size, names[0]);
      UnlistedStays(a, size, names[1..], p, x);
      var r := Pair(a, size, names[0]);
      if r.Some? {
        NamedOnce(a, r.value.0, names[0], x);
        NamedOnce(a, r.value.1, names[0], x);
      }
    }
  }

  /** The swap is a permutation of the slots that pairs them off. */
  lemma {:induction false} PartnerTwice(a: seq<byte>, size: nat, names: seq<string>, p: nat)
    requires PTN_ENTRY_SIZE <= size && Multiple(|a|, size) && Slot(|a|, size, p) && Distinguishable(names)
    ensures Slot(|a|, size, Partner(a, size, names, p))
    ensures Partner(a, size, names, Partner(a, size, names, p)) == p
  {
    if names == [] {
    } else {
      PairFacts(a, size, names[0]);
      PartnerTwice(a, size, names[1..], p);
      UnlistedStays(a, size, names[1..], p, names[0]);
    }
  }

  /** Swapping one name leaves every pair of a distinguishable list where it was. */
  lemma {:induction false} SwapAllKeepsPairs(a: seq<byte>, size: nat, names: seq<string>, x: string)
    requires PTN_ENTRY_SIZE <= size && Multiple(|a|, size)
    requires forall i :: 0 <= i < |names| ==> names[i] == x || Apart(names[i], x)
    ensures Pair(SwapAll(a, size, names), size, x) == Pair(a, size, x)
    decreases |names|
  {
    if names == [] {
    } else {
      SwapOneKeepsNames(a, size, names[0], x);
      SwapAllKeepsPairs(SwapOne(a, size, names[0]), size, names[1..], x);
    }
  }

  lemma {:induction false} PartnerKept(a: seq<byte>, size: nat, x: string, names: seq<string>, p: nat)
    requires PTN_ENTRY_SIZE <= size && Multiple(|a|, size)
    requires forall i :: 0 <= i < |names| ==> Apart(x, names[i])
    ensures Partner(SwapOne(a, size, x), size, names, p) == Partner(a, size, names, p)
  {
    if names == [] {
    } else {
      SwapOneKeepsNames(a, size, x, names[0]);
      PartnerKept(a, size, x, names[1..], p);
    }
  }

  lemma PartnerAcross(a: seq<byte>, size: nat, names: seq<string>, p: nat, x: nat, y: nat)
    requires PTN_ENTRY_SIZE <= size && Multiple(|a|, size) && Slot(|a|, size, p) && names != []
    requires Pair(a, size, names[0]) == Some((x, y)) && Slot(|a|, size, x) && Slot(|a|, size, y)
    requires Named(a, x, names[0]) && Named(a, y, names[0])
    requires forall i :: 1 <= i < |names| ==> Apart(names[0], names[i])
    ensures var s, q := Partner(a, size, names[1..], p), Partner(a, size, names, p);
      && Slot(|a|, size, s) && q == (if s == x then y else if s == y then x else s)
  {
    UnlistedStays(a, size, names[1..], p, names[0]);
  }

  lemma PartnerExchanged(a: seq<byte>, size: nat, names: seq<string>, p: nat, x: nat, y: nat)
    requires PTN_ENTRY_SIZE <= size && Multiple(|a|, size) && Slot(|a|, size, p) && names != []
    requires Pair(a, size, names[0]) == Some((x, y)) && Slot(|a|, size, x) && Slot(|a|, size, y)
    requires Named(a, x, names[0]) && Named(a, y, names[0])
    requires forall i :: 1 <= i < |names| ==> Apart(names[0], names[i])
    ensures var s, q := Partner(a, size, names[1..], p), Partner(a, size, names, p);
      && Slot(|a|, size, s) && Slot(|a|, size, q)
      && Exchange(a, x, y)[s..s + PTN_ENTRY_SIZE] == a[q..q + PTN_ENTRY_SIZE]
  {
    hide Multiple, Named, Pair, Apart, Partner;
    PartnerAcross(a, size, names, p, x, y);
    ExchangeSlots(a, size, x, y, Partner(a, size, names[1..], p));
  }

  /** How the first name of a list acts: its pair changes places, or nothing does. */
  lemma FirstName(a: seq<byte>, size: nat, names: seq<string>, p: nat)
    requires PTN_ENTRY_SIZE <= size && Multiple(|a|, size) && names != []
    ensures SwapAll(a, size, names) == SwapAll(SwapOne(a, size, names[0]), size, names[1..])
    ensures Pair(a, size, names[0]) == None
      ==> SwapOne(a, size, names[0]) == a && Partner(a, size, names, p) == Partner(a, size, names[1..], p)
    ensures forall x, y :: Pair(a, size, names[0]) == Some((x, y)) ==> SwapOne(a, size, names[0]) == Exchange(a, x, y)
  {
  }

  lemma RestIsDistinguishable(names: seq<string>)
    requires names != [] && Distinguishable(names)
    ensures Distinguishable(names[1..])
    ensures forall i :: 0 <= i < |names[1..]| ==> Apart(names[0], names[1..][i])
    ensures forall i :: 1 <= i < |names| ==> Apart(names[0], names[i])
  {
  }

  /** What the rest of the list does to the array the first name left, the whole list does to the array as it was. */
  lemma PartnerBehind(a: seq<byte>, size: nat, names: seq<string>, p: nat)
    requires PTN_ENTRY_SIZE <= size && Multiple(|a|, size) && Slot(|a|, size, p)
    requires names != [] && Distinguishable(names)
    requires var b := SwapOne(a, size, names[0]); var s := Partner(b, size, names[1..], p);
      && Slot(|b|, size, s)
      && SwapAll(b, size, names[1..])[p..p + PTN_ENTRY_SIZE] == b[s..s + PTN_ENTRY_SIZE]
    ensures var q := Partner(a, size, names, p);
      Slot(|a|, size, q) && SwapAll(a, size, names)[p..p + PTN_ENTRY_SIZE] == a[q..q + PTN_ENTRY_SIZE]
  {
    hide Multiple, Distinguishable, Apart, Named, Pair, Partner, SwapOne, SwapAll, Exchange;
    RestIsDistinguishable(names);
    PartnerKept(a, size, names[0], names[1..], p);
    FirstName(a, size, names, p);
    var r := Pair(a, size, names[0]);
    if r.Some? {
      PairFacts(a, size, names[0]);
      PartnerExchanged(a, size, names, p, r.value.0, r.value.1);
    }
  }

  /** The sequential swap is the pairing: every slot receives the 128 bytes of its partner in the array as it was
      before the first exchange, so exactly the first two entries of each listed name change places. */
  lemma {:induction false} SwapAllIsPartner(a: seq<byte>, size: nat, names: seq<string>, p: nat)
    requires PTN_ENTRY_SIZE <= size && Multiple(|a|, size) && Slot(|a|, size, p) && Distinguishable(names)
    ensures var q := Partner(a, size, names, p);
      Slot(|a|, size, q) && SwapAll(a, size, names)[p..p + PTN_ENTRY_SIZE] == a[q..q + PTN_ENTRY_SIZE]
    decreases |names|
  {
    hide Multiple, Apart, Pair, SwapOne;
    if names == [] {
    } else {
      SwapAllIsPartner(SwapOne(a, size, names[0]), size, names[1..], p);
      PartnerBehind(a, size, names, p);
    }
  }

  /** Bytes of an entry past its first 128 never move. */
  lemma {:induction false} SwapAllKeepsTails(a: seq<byte>, size: nat, names: seq<string>, p: nat, i: nat)
    requires PTN_ENTRY_SIZE <= size && Multiple(|a|, size) && Slot(|a|, size, p)
    requires p + PTN_ENTRY_SIZE <= i < p + size
    ensures p + size <= |a| && SwapAll(a, size, names)[i] == a[i]
    decreases |names|
  {
    if names == [] {
    } else {
      SwapAllKeepsTails(SwapOne(a, size, names[0]), size, names[1..], p, i);
      PairFacts(a, size, names[0]);
      var r := Pair(a, size, names[0]);
      if r.Some? {
        var x, y := r.value.0, r.value.1;
        if x < p { SlotsApart(|a|, size, x, p); }
        if p < x { SlotsApart(|a|, size, p, x); }
        if y < p { SlotsApart(|a|, size, y, p); }
        if p < y { SlotsApart(|a|, size, p, y); }
      }
    }
  }

  // ----- the lists in use

  lemma {:induction false} ActiveIsSublist(names: seq<string>, ufs: bool)
    ensures forall x :: x in Active(names, ufs) ==> x in names
    ensures Distinguishable(names) ==> Distinguishable(Active(names, ufs))
  {
    if names == [] {
    } else {
      ActiveIsSublist(names[1..], ufs);
      if Distinguishable(names) {
        assert forall x :: x in names[1..] ==> Apart(names[0], x);
      }
    }
  }

  lemma SwapListTwice(a: seq<byte>, size: nat, names: seq<string>)
    requires PTN_ENTRY_SIZE <= size && Multiple(|a|, size) && Distinguishable(names)
    ensures var b := SwapAll(a, size, names);
      SwapAll(b, size, names) == a && HasBackup(b, size, names) == HasBackup(a, size, names)
  {
    hide Pair;
    SwapAllTwice(a, size, names);
    forall x | x in names
      ensures Pair(SwapAll(a, size, names), size, x) == Pair(a, size, x)
    {
      SwapAllKeepsPairs(a, size, names, x);
    }
  }

  lemma SwapListDistinguishable(ufs: bool)
    ensures Distinguishable(SwapList(ufs))
  {
    SwapListIsDistinguishable();
    ActiveIsSublist(PTN_SWAP_LIST, ufs);
  }

  /** On every platform the swap undoes itself, and finds the same backup pairs before and after. */
  lemma BootChainSwapTwice(a: seq<byte>, size: nat, ufs: bool)
    requires PTN_ENTRY_SIZE <= size && Multiple(|a|, size)
    ensures var b := SwapAll(a, size, SwapList(ufs));
      SwapAll(b, size, SwapList(ufs)) == a && HasBackup(b, size, SwapList(ufs)) == HasBackup(a, size, SwapList(ufs))
  {
    SwapListDistinguishable(ufs);
    SwapListTwice(a, size, SwapList(ufs));
  }
}
