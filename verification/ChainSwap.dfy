/** The swap of the boot chain as it runs: in place, name after name, over the entry buffer. */
module ChainSwap {
  import opened Bytes
  import opened Entries
  import opened EntriesProofs
  import opened Wrappers

  lemma ExchangeBySplices(a: seq<byte>, p: nat, q: nat)
    requires p + PTN_ENTRY_SIZE <= q && q + PTN_ENTRY_SIZE <= |a|
    ensures Splice(Splice(a, p, a[q..q + PTN_ENTRY_SIZE]), q, a[p..p + PTN_ENTRY_SIZE]) == Exchange(a, p, q)
  {
    var b := Splice(a, p, a[q..q + PTN_ENTRY_SIZE]);
    var c := Splice(b, q, a[p..p + PTN_ENTRY_SIZE]);
    assert forall i :: 0 <= i < |a| ==> c[i] == Exchange(a, p, q)[i];
  }

  /** The three copies through a 128-byte temporary. */
  method SwapEntries(a: array<byte>, p: nat, q: nat)
    requires p + PTN_ENTRY_SIZE <= q && q + PTN_ENTRY_SIZE <= a.Length
    modifies a
    ensures a[..] == Exchange(old(a[..]), p, q)
  {
    hide Exchange, Splice;
    ghost var was := a[..];
    var ptnSwap := new byte[PTN_ENTRY_SIZE];
    Memcpy(ptnSwap, 0, a, p, PTN_ENTRY_SIZE);
    ghost var saved := ptnSwap[..];
    assert saved[0..PTN_ENTRY_SIZE] == was[p..p + PTN_ENTRY_SIZE];
    Memcpy(a, p, a, q, PTN_ENTRY_SIZE);
    assert ptnSwap[..] == saved;
    Memcpy(a, q, ptnSwap, 0, PTN_ENTRY_SIZE);
    ExchangeBySplices(was, p, q);
  }

  lemma BackupStep(a: seq<byte>, size: nat, names: seq<string>)
    requires PTN_ENTRY_SIZE <= size && Multiple(|a|, size) && names != [] && Distinguishable(names)
    ensures HasBackup(a, size, names)
      <==> Pair(a, size, names[0]).Some? || HasBackup(SwapOne(a, size, names[0]), size, names[1..])
  {
    var b := SwapOne(a, size, names[0]);
    forall x | x in names[1..] ensures Pair(b, size, x) == Pair(a, size, x) {
      SwapOneKeepsNames(a, size, names[0], x);
    }
    if HasBackup(a, size, names) && !Pair(a, size, names[0]).Some? {
      var x :| x in names && Pair(a, size, x).Some?;
      assert x in names[1..];
    }
  }

  lemma ActiveStep(names: seq<string>, i: nat, ufs: bool)
    requires i < |names|
    ensures names[i..][0] == names[i] && names[i..][1..] == names[i + 1..]
    ensures Active(names[i..], ufs) ==
      if ufs && PTN_XBL <= names[i] then Active(names[i + 1..], ufs) else [names[i]] + Active(names[i + 1..], ufs)
  {
  }

  /** One turn of the loop: seek the entry, seek its twin behind it, and swap the two. */
  method SwapName(name: string, a: array<byte>, size: nat) returns (swapped: bool)
    requires PTN_ENTRY_SIZE <= size && Multiple(a.Length, size) && NoNul(name)
    modifies a
    ensures a[..] == SwapOne(old(a[..]), size, name)
    ensures swapped == Pair(old(a[..]), size, name).Some?
  {
    hide Exchange, Seek, Named;
    ghost var was := a[..];
    assert a[..a.Length] == was;
    var entry := GptPentrySeek(name, a, 0, a.Length, size);
    if entry == None {
      assert Pair(was, size, name) == None;
      return false;
    }
    var bakEntry := GptPentrySeek(name, a, entry.value + size, a.Length, size);
    if bakEntry == None {
      assert Pair(was, size, name) == Following(was, size, entry.value, name) == None;
      return false;
    }
    assert Pair(was, size, name) == Following(was, size, entry.value, name) == Some((entry.value, bakEntry.value));
    SwapEntries(a, entry.value, bakEntry.value);
    return true;
  }

  method SwapNames(names: seq<string>, a: array<byte>, size: nat, ufs: bool) returns (backupNotFound: int)
    requires PTN_ENTRY_SIZE <= size && Multiple(a.Length, size)
    requires Distinguishable(names) && forall i :: 0 <= i < |names| ==> NoNul(names[i])
    modifies a
    ensures a[..] == SwapAll(old(a[..]), size, Active(names, ufs))
    ensures backupNotFound == if HasBackup(old(a[..]), size, Active(names, ufs)) then 0 else 1
  {
    backupNotFound := 1;
    ghost var was := a[..];
    assert names[0..] == names;
    for i := 0 to |names|
      invariant SwapAll(a[..], size, Active(names[i..], ufs)) == SwapAll(was, size, Active(names, ufs))
      invariant backupNotFound == 0 || backupNotFound == 1
      invariant HasBackup(was, size, Active(names, ufs))
        <==> backupNotFound == 0 || HasBackup(a[..], size, Active(names[i..], ufs))
    {
      ActiveStep(names, i, ufs);
      if ufs && PTN_XBL <= names[i] {
        continue;
      }
      ActiveIsSublist(names[i..], ufs);
      BackupStep(a[..], size, Active(names[i..], ufs));
      var swapped := SwapName(names[i], a, size);
      if swapped {
        backupNotFound := 0;
      }
    }
  }

  /** gpt_boot_chain_swap: 0 when some listed name had a backup, 1 when none had and nothing moved. */
  method GptBootChainSwap(a: array<byte>, size: nat, ufs: bool) returns (r: int)
    requires PTN_ENTRY_SIZE <= size && Multiple(a.Length, size)
    modifies a
    ensures a[..] == SwapAll(old(a[..]), size, SwapList(ufs))
    ensures r == if HasBackup(old(a[..]), size, SwapList(ufs)) then 0 else 1
  {
    SwapListIsDistinguishable();
    SwapListEndings();
    r := SwapNames(PTN_SWAP_LIST, a, size, ufs);
  }

  /** With no backup pair the swap is the identity. */
  lemma {:induction false} NoBackupNoChange(a: seq<byte>, size: nat, names: seq<string>)
    requires PTN_ENTRY_SIZE <= size && Multiple(|a|, size) && !HasBackup(a, size, names)
    ensures SwapAll(a, size, names) == a
    decreases |names|
  {
    if names == [] {
    } else {
      assert names[0] in names;
      NoBackupNoChange(a, size, names[1..]);
    }
  }
}
