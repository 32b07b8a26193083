/** The boot-chain swap told by slots and names alone: which entries change places, and which stay. */
module SwapMeaning {
  import opened Bytes
  import opened Entries
  import opened EntriesProofs
  import opened Wrappers

  // ----- names

  /** The bytes of the entry at `p` spell `s`: the low bytes of its name's 16-bit units, up to a unit whose low byte is
      zero or to the last. */
  predicate Spells(a: seq<byte>, p: nat, s: string)
    requires p + PTN_ENTRY_SIZE <= |a|
  {
    && |s| <= 36 && NoNul(s)
    && (forall i :: 0 <= i < |s| ==> a[p + 56 + 2 * i] as char == s[i])
    && (|s| < 36 ==> a[p + 56 + 2 * |s|] == 0)
  }

  lemma NameUnit(a: seq<byte>, p: nat, i: nat)
    requires p + PTN_ENTRY_SIZE <= |a| && i < 72
    ensures NameBuffer(a, p)[i] == if i < 36 then a[p + 56 + 2 * i] as char else '\0'
  {
  }

  lemma {:induction false} CStringIs(t: string, s: string)
    requires |s| < |t| && t[..|s|] == s && NoNul(s) && t[|s|] == '\0'
    ensures CString(t) == s
  {
    CStringSplit(t, |s|);
    assert CString(t[|s|..]) == [];
  }

  lemma ByteOfNul(b: byte)
    ensures b as char == '\0' <==> b == 0
  {
  }

  /** A C string in a buffer whose second half is NULs lies in the first. */
  lemma NameInside(t: string, s: string)
    requires |t| == 72 && s <= t && NoNul(s) && t[36] == '\0'
    ensures |s| <= 36
  {
    assert forall i {:trigger t[i]} :: 0 <= i < |s| ==> t[i] == s[i];
  }

  /** The name of an entry is what its bytes spell. */
  lemma NameFromBytes(a: seq<byte>, p: nat, s: string)
    requires p + PTN_ENTRY_SIZE <= |a|
    ensures EntryName(a, p) == s <==> Spells(a, p, s)
  {
    hide NameBuffer, CString;
    var t := NameBuffer(a, p);
    forall i: nat | i < 72 ensures t[i] == if i < 36 then a[p + 56 + 2 * i] as char else '\0' {
      NameUnit(a, p, i);
    }
    if Spells(a, p, s) {
      assert t[|s|] == '\0';
      assert t[..|s|] == s;
      CStringIs(t, s);
    }
    if EntryName(a, p) == s {
      CStringPrefix(t);
      NameInside(t, s);
      assert forall i :: 0 <= i < |s| ==> t[i] == s[i];
      if |s| < 36 {
        assert t[|s|] == '\0';
        ByteOfNul(a[p + 56 + 2 * |s|]);
      }
    }
  }

  lemma {:induction false} ActiveMeaning(names: seq<string>, ufs: bool, name: string)
    ensures name in Active(names, ufs) <==> name in names && !(ufs && "xbl" <= name)
  {
    if names == [] {
    } else {
      ActiveMeaning(names[1..], ufs, name);
      assert name in names <==> name == names[0] || name in names[1..];
    }
  }

  /** The names acted on: all of the list, or on UFS those of it that do not start with "xbl". */
  lemma SwapListMeaning(ufs: bool, name: string)
    ensures name in SwapList(ufs) <==> name in PTN_SWAP_LIST && !(ufs && "xbl" <= name)
  {
    ActiveMeaning(PTN_SWAP_LIST, ufs, name);
  }

  // ----- slots

  lemma Remainder(q: int, r: nat, n: nat, size: nat)
    requires r < size && n == size * q + r
    ensures n % size == r
  {
    var p := n / size;
    assert n == size * p + n % size;
    if p < q {
      TimesGrows(p + 1, q, size);
    } else if p > q {
      TimesGrows(q + 1, p, size);
    }
  }

  lemma OneLess(n: nat, size: nat)
    requires 0 < size <= n
    ensures (n - size) % size == n % size
  {
    var q, r := n / size, n % size;
    assert n == size * q + r;
    assert n - size == size * (q - 1) + r;
    Remainder(q - 1, r, n - size, size);
  }

  lemma {:induction false} MultipleIs(n: nat, size: nat)
    requires 0 < size
    ensures Multiple(n, size) <==> n % size == 0
  {
    if n == 0 {
    } else if size <= n {
      MultipleIs(n - size, size);
      OneLess(n, size);
    } else {
      assert n % size == n;
    }
  }

  /** In an array of whole entries the slots are the offsets that are multiples of the entry size. */
  lemma SlotIs(n: nat, size: nat, p: nat)
    requires 0 < size && n % size == 0
    ensures Slot(n, size, p) <==> p < n && p % size == 0
  {
    if p < n {
      MultipleIs(n - p, size);
      var q, r := n / size, p / size;
      assert n == size * q && p == size * r + p % size;
      if p % size == 0 {
        assert n - p == size * (q - r);
        Remainder(q - r, 0, n - p, size);
      } else {
        assert n - p == size * (q - r - 1) + (size - p % size);
        Remainder(q - r - 1, size - p % size, n - p, size);
      }
    }
  }

  // ----- the first two entries of a name

  /** Two entries are called `name` or its backup twin. */
  predicate TwoNamed(a: seq<byte>, size: nat, name: string, x: nat, y: nat)
    requires PTN_ENTRY_SIZE <= size
  {
    x < y && Slot(|a|, size, x) && Slot(|a|, size, y) && Named(a, x, name) && Named(a, y, name)
  }

  /** They are the first two that are. */
  ghost predicate FirstTwo(a: seq<byte>, size: nat, name: string, x: nat, y: nat)
    requires PTN_ENTRY_SIZE <= size
  {
    && TwoNamed(a, size, name, x, y)
    && forall p: nat :: Slot(|a|, size, p) && p < y && p != x ==> !Named(a, p, name)
  }

  /** What the two searches find. */
  lemma PairSeeks(a: seq<byte>, size: nat, name: string)
    requires PTN_ENTRY_SIZE <= size && Multiple(|a|, size)
    ensures var f := Seek(a, size, 0, name);
      && (f == None ==> Pair(a, size, name) == None)
      && (f.Some? ==>
           && Slot(|a|, size, f.value)
           && f.value + size <= |a| && Multiple(|a| - (f.value + size), size)
           && var g := Seek(a, size, f.value + size, name);
              && (g == None ==> Pair(a, size, name) == None)
              && (g.Some? ==> Pair(a, size, name) == Some((f.value, g.value))))
  {
  }

  /** Between a slot and the next there is none. */
  lemma NextSlot(n: nat, size: nat, p: nat)
    requires Slot(n, size, p)
    ensures forall q: nat :: Slot(n, size, q) && p < q ==> p + size <= q
  {
    forall q: nat | Slot(n, size, q) && p < q ensures p + size <= q {
      SlotsApart(n, size, p, q);
    }
  }

  /** The pair that is exchanged is the first two entries of the name; there is none exactly when no two have it. */
  lemma PairMeaning(a: seq<byte>, size: nat, name: string, x: nat, y: nat)
    requires PTN_ENTRY_SIZE <= size && Multiple(|a|, size)
    ensures Pair(a, size, name) == Some((x, y)) <==> FirstTwo(a, size, name, x, y)
    ensures Pair(a, size, name) == None ==> !TwoNamed(a, size, name, x, y)
  {
    hide Pair, Named, Multiple;
    PairSeeks(a, size, name);
    var f := Seek(a, size, 0, name);
    if f.Some? {
      NextSlot(|a|, size, f.value);
      var g := Seek(a, size, f.value + size, name);
    }
  }

  /** There is a backup exactly when some listed name has two entries. */
  lemma HasBackupMeaning(a: seq<byte>, size: nat, names: seq<string>)
    requires PTN_ENTRY_SIZE <= size && Multiple(|a|, size)
    ensures HasBackup(a, size, names) <==> exists name, x, y :: name in names && TwoNamed(a, size, name, x, y)
  {
    hide Pair, TwoNamed, Multiple;
    if HasBackup(a, size, names) {
      var name :| name in names && Pair(a, size, name).Some?;
      var r := Pair(a, size, name).value;
      PairMeaning(a, size, name, r.0, r.1);
      assert name in names && TwoNamed(a, size, name, r.0, r.1);
    }
    if name, x, y :| name in names && TwoNamed(a, size, name, x, y) {
      PairMeaning(a, size, name, x, y);
    }
  }

  // ----- what the swap exchanges

  lemma {:induction false} PartnerOfPair(a: seq<byte>, size: nat, names: seq<string>, name: string, x: nat, y: nat)
    requires PTN_ENTRY_SIZE <= size && Multiple(|a|, size) && Distinguishable(names) && name in names
    requires Pair(a, size, name) == Some((x, y))
    ensures Partner(a, size, names, x) == y && Partner(a, size, names, y) == x
    decreases |names|
  {
    hide Multiple, Pair, Named;
    if names[0] == name {
    } else {
      PartnerOfPair(a, size, names[1..], name, x, y);
      PairFacts(a, size, names[0]);
      PairFacts(a, size, name);
      var r := Pair(a, size, names[0]);
      if r.Some? {
        NamedOnce(a, r.value.0, names[0], name);
        NamedOnce(a, r.value.1, names[0], name);
      }
    }
  }

  lemma {:induction false} PartnerOfOther(a: seq<byte>, size: nat, names: seq<string>, p: nat)
    requires PTN_ENTRY_SIZE <= size && Multiple(|a|, size)
    requires forall name :: name in names && Pair(a, size, name).Some? ==>
      Pair(a, size, name).value.0 != p && Pair(a, size, name).value.1 != p
    ensures Partner(a, size, names, p) == p
    decreases |names|
  {
    hide Multiple, Pair;
    if names == [] {
    } else {
      PartnerOfOther(a, size, names[1..], p);
    }
  }

  /** The first two entries of every listed name change places, as they were before the first exchange. */
  lemma FirstTwoChangePlaces(a: seq<byte>, size: nat, names: seq<string>, name: string, x: nat, y: nat)
    requires PTN_ENTRY_SIZE <= size && Multiple(|a|, size) && Distinguishable(names) && name in names
    requires FirstTwo(a, size, name, x, y)
    ensures var b := SwapAll(a, size, names);
      && b[x..x + PTN_ENTRY_SIZE] == a[y..y + PTN_ENTRY_SIZE]
      && b[y..y + PTN_ENTRY_SIZE] == a[x..x + PTN_ENTRY_SIZE]
  {
    hide Pair, SwapAll, Multiple, Named, Distinguishable;
    PairMeaning(a, size, name, x, y);
    PartnerOfPair(a, size, names, name, x, y);
    SwapAllIsPartner(a, size, names, x);
    SwapAllIsPartner(a, size, names, y);
  }

  /** Every other entry stays where it is. */
  lemma OthersStay(a: seq<byte>, size: nat, names: seq<string>, p: nat)
    requires PTN_ENTRY_SIZE <= size && Multiple(|a|, size) && Distinguishable(names) && Slot(|a|, size, p)
    requires forall name, x, y :: name in names && FirstTwo(a, size, name, x, y) ==> p != x && p != y
    ensures SwapAll(a, size, names)[p..p + PTN_ENTRY_SIZE] == a[p..p + PTN_ENTRY_SIZE]
  {
    hide Pair, SwapAll, Multiple, Named, Distinguishable, FirstTwo;
    forall name | name in names && Pair(a, size, name).Some?
      ensures Pair(a, size, name).value.0 != p && Pair(a, size, name).value.1 != p
    {
      var r := Pair(a, size, name).value;
      PairMeaning(a, size, name, r.0, r.1);
    }
    PartnerOfOther(a, size, names, p);
    SwapAllIsPartner(a, size, names, p);
  }
}
