/** The partition entry array: seeking entries by name and swapping the boot chain. */
module Entries {
  import opened Bytes
  import opened Wrappers

  const PTN_ENTRY_SIZE: nat := 128
  const PARTITION_NAME_OFFSET: nat := 56
  const MAX_GPT_NAME_SIZE: nat := 72
  const BAK_PTN_NAME_EXT: string := "bak"
  const PTN_XBL: string := "xbl"

  const PTN_SWAP_LIST: seq<string> := [
    "xbl", "xbl_config", "sbl1", "rpm", "tz", "aboot", "abl", "hyp", "lksecapp", "keymaster", "cmnlib", "cmnlib32",
    "cmnlib64", "pmic", "apdp", "devcfg", "hosd", "keystore", "msadp", "mdtp", "mdtpsecapp", "dsp", "aop", "qupfw",
    "vbmeta", "dtbo", "imagefv", "ImageFv", "multiimgoem", "multiimgqti", "uefisecapp"]

  // ----- names

  function Char(b: byte): char {
    b as char
  }

  /** The C string held in a buffer: what comes before the first NUL. */
  function CString(s: string): string {
    if s == [] || s[0] == '\0' then [] else [s[0]] + CString(s[1..])
  }

  predicate NoNul(s: string) {
    forall i :: 0 <= i < |s| ==> s[i] != '\0'
  }

  /** The 72-byte name buffer: the low bytes of 36 UTF-16 units, then NULs. */
  function NameBuffer(a: seq<byte>, p: nat): (r: string)
    requires p + PTN_ENTRY_SIZE <= |a|
    ensures |r| == MAX_GPT_NAME_SIZE
  {
    seq(MAX_GPT_NAME_SIZE, i requires 0 <= i =>
      if i < 36 then Char(a[p + PARTITION_NAME_OFFSET + 2 * i]) else '\0')
  }

  /** The name of the entry at `p`. */
  function EntryName(a: seq<byte>, p: nat): string
    requires p + PTN_ENTRY_SIZE <= |a|
  {
    CString(NameBuffer(a, p))
  }

  /** The entry at `p` is called `name`, or is the backup twin of `name`. */
  predicate Named(a: seq<byte>, p: nat, name: string)
    requires p + PTN_ENTRY_SIZE <= |a|
  {
    EntryName(a, p) == name || EntryName(a, p) == name + BAK_PTN_NAME_EXT
  }

  /** The comparison as the code makes it: strncmp, then a NUL or a strcmp with the extension. */
  predicate NameTest(name: string, name8: string)
    requires |name8| == MAX_GPT_NAME_SIZE && name8[36..] == seq(36, _ => '\0') && NoNul(name)
  {
    && |name| < |name8| && name8[..|name|] == name
    && (name8[|name|] == '\0' || CString(name8[|name|..]) == BAK_PTN_NAME_EXT)
  }

  lemma {:induction false} CStringSplit(s: string, n: nat)
    requires n <= |s| && NoNul(s[..n])
    ensures CString(s) == s[..n] + CString(s[n..])
  {
    if n == 0 {
      assert s[0..] == s;
    } else {
      assert s[..n][0] == s[0];
      assert s[1..][..n - 1] == s[..n][1..];
      CStringSplit(s[1..], n - 1);
      assert s[1..][n - 1..] == s[n..];
    }
  }

  lemma {:induction false} CStringPrefix(s: string)
    ensures var c := CString(s); c <= s && NoNul(c) && (|c| < |s| ==> s[|c|] == '\0')
  {
    if s == [] || s[0] == '\0' {
    } else {
      CStringPrefix(s[1..]);
    }
  }

  /** The comparison finds exactly the names `name` and `name` + "bak". */
  lemma NameTestMeaning(name: string, name8: string)
    requires |name8| == MAX_GPT_NAME_SIZE && name8[36..] == seq(36, _ => '\0') && NoNul(name)
    ensures NameTest(name, name8) <==> (CString(name8) == name || CString(name8) == name + BAK_PTN_NAME_EXT)
  {
    var c, n := CString(name8), |name|;
    CStringPrefix(name8);
    assert name8[36..][0] == name8[36];
    if n < |name8| && name8[..n] == name {
      CStringSplit(name8, n);
      CStringPrefix(name8[n..]);
      assert c[n..] == CString(name8[n..]);
    }
  }

  // ----- the grid of entries

  /** `n` is a whole number of steps of `size`. */
  predicate Multiple(n: nat, size: nat)
    requires 0 < size
  {
    n == 0 || (size <= n && Multiple(n - size, size))
  }

  lemma {:induction false} ProductIsMultiple(k: nat, size: nat)
    requires 0 < size
    ensures Multiple(Product(k, size), size)
  {
    if k == 0 {
    } else {
      ProductIsMultiple(k - 1, size);
    }
  }

  /** `p` is where an entry of `size` bytes starts, in an array of `n` bytes. */
  predicate Slot(n: nat, size: nat, p: nat) {
    0 < size && p < n && Multiple(n - p, size)
  }

  lemma {:induction false} MultiplesApart(m: nat, n: nat, size: nat)
    requires 0 < size && Multiple(m, size) && Multiple(n, size) && m < n
    ensures size <= n - m
  {
    if m == 0 {
    } else {
      MultiplesApart(m - size, n - size, size);
    }
  }

  lemma SlotsApart(n: nat, size: nat, p: nat, q: nat)
    requires Slot(n, size, p) && Slot(n, size, q) && p < q
    ensures p + size <= q
  {
    MultiplesApart(n - q, n - p, size);
  }

  /** gpt_pentry_seek: the first entry at or after `p` that is called `name` or its backup twin. */
  function Seek(a: seq<byte>, size: nat, p: nat, name: string): (r: Option<nat>)
    requires PTN_ENTRY_SIZE <= size && p <= |a| && Multiple(|a| - p, size)
    ensures r.Some? ==> p <= r.value && Slot(|a|, size, r.value) && Named(a, r.value, name)
    ensures forall q: nat :: p <= q && Slot(|a|, size, q) && (r.Some? ==> q < r.value) ==> !Named(a, q, name)
    decreases |a| - p
  {
    if p == |a| then None
    else
      if Named(a, p, name) then Some(p)
      else
        var r := Seek(a, size, p + size, name);
        assert forall q: nat :: p < q && Slot(|a|, size, q) ==> p + size <= q by {
          forall q: nat | p < q && Slot(|a|, size, q) ensures p + size <= q {
            SlotsApart(|a|, size, p, q);
          }
        }
        r
  }

  /** Fills the name buffer with the low bytes of the 36 name units of the entry at `p`. */
  method LoadName(a: array<byte>, p: nat, name8: array<char>)
    requires p + PTN_ENTRY_SIZE <= a.Length && name8.Length == MAX_GPT_NAME_SIZE
    requires forall k :: 36 <= k < MAX_GPT_NAME_SIZE ==> name8[k] == '\0'
    modifies name8
    ensures name8[..] == NameBuffer(a[..], p)
  {
    for i := 0 to 36
      invariant forall k :: 0 <= k < i ==> name8[k] == Char(a[p + PARTITION_NAME_OFFSET + 2 * k])
      invariant forall k :: 36 <= k < MAX_GPT_NAME_SIZE ==> name8[k] == '\0'
    {
      name8[i] := Char(a[p + PARTITION_NAME_OFFSET + 2 * i]);
    }
    name8[36] := '\0';
  }

  /** The name test on the loaded buffer decides whether the entry is named. */
  lemma TestDecides(a: seq<byte>, p: nat, name: string)
    requires p + PTN_ENTRY_SIZE <= |a| && NoNul(name)
    ensures NameBuffer(a, p)[36..] == seq(36, _ => '\0')
    ensures NameTest(name, NameBuffer(a, p)) <==> Named(a, p, name)
  {
    assert NameBuffer(a, p)[36..] == seq(36, _ => '\0');
    NameTestMeaning(name, NameBuffer(a, p));
  }

  method TestEntry(name: string, a: array<byte>, p: nat, name8: array<char>) returns (found: bool)
    requires p + PTN_ENTRY_SIZE <= a.Length && name8.Length == MAX_GPT_NAME_SIZE && NoNul(name)
    requires forall k :: 36 <= k < MAX_GPT_NAME_SIZE ==> name8[k] == '\0'
    modifies name8
    ensures forall k :: 36 <= k < MAX_GPT_NAME_SIZE ==> name8[k] == '\0'
    ensures found == Named(a[..], p, name)
  {
    LoadName(a, p, name8);
    TestDecides(a[..], p, name);
    assert forall k :: 36 <= k < MAX_GPT_NAME_SIZE ==> name8[k] == name8[..][k];
    found := NameTest(name, name8[..]);
  }

  /** The name of an entry is the same whatever follows the array. */
  lemma NamedInPrefix(a: seq<byte>, end: nat, p: nat, name: string)
    requires p + PTN_ENTRY_SIZE <= end <= |a|
    ensures Named(a[..end], p, name) == Named(a, p, name)
  {
    assert NameBuffer(a[..end], p) == NameBuffer(a, p);
  }

  method GptPentrySeek(name: string, a: array<byte>, start: nat, end: nat, size: nat) returns (r: Option<nat>)
    requires PTN_ENTRY_SIZE <= size && start <= end <= a.Length && Multiple(end - start, size)
    requires NoNul(name)
    ensures r == Seek(a[..end], size, start, name)
  {
    hide Named, Slot, NoNul;
    var name8 := new char[MAX_GPT_NAME_SIZE](_ => '\0');
    ghost var c := a[..end];
    var p := start;
    while p + PARTITION_NAME_OFFSET < end
      invariant start <= p <= end && Multiple(end - p, size)
      invariant Seek(c, size, start, name) == Seek(c, size, p, name)
      invariant forall k :: 36 <= k < MAX_GPT_NAME_SIZE ==> name8[k] == '\0'
      decreases end - p
    {
      var found := TestEntry(name, a, p, name8);
      NamedInPrefix(a[..], end, p, name);
      assert a[..][..end] == c;
      if found {
        return Some(p);
      }
      p := p + size;
    }
    return None;
  }

  // ----- the swap

  /** The entry at `p` with the next one for `name`. */
  function Following(a: seq<byte>, size: nat, p: nat, name: string): (r: Option<(nat, nat)>)
    requires PTN_ENTRY_SIZE <= size && Slot(|a|, size, p)
    ensures r.Some? ==> r.value.0 == p && p + size <= r.value.1 && r.value.1 + size <= |a|
  {
    var second := Seek(a, size, p + size, name);
    if second == None then None else Some((p, second.value))
  }

  /** The first two entries for `name`, when there are two. */
  function Pair(a: seq<byte>, size: nat, name: string): (r: Option<(nat, nat)>)
    requires PTN_ENTRY_SIZE <= size && Multiple(|a|, size)
    ensures r.Some? ==> r.value.0 + size <= r.value.1 && r.value.1 + size <= |a|
  {
    var first := Seek(a, size, 0, name);
    if first == None then None else Following(a, size, first.value, name)
  }

  /** The first 128 bytes of the entries at `p` and `q` exchanged. */
  function Exchange(a: seq<byte>, p: nat, q: nat): (r: seq<byte>)
    requires p + PTN_ENTRY_SIZE <= q && q + PTN_ENTRY_SIZE <= |a|
    ensures |r| == |a|
  {
    seq(|a|, i requires 0 <= i < |a| =>
      if p <= i < p + PTN_ENTRY_SIZE then a[i - p + q]
      else if q <= i < q + PTN_ENTRY_SIZE then a[i - q + p]
      else a[i])
  }

  function SwapOne(a: seq<byte>, size: nat, name: string): (r: seq<byte>)
    requires PTN_ENTRY_SIZE <= size && Multiple(|a|, size)
    ensures |r| == |a|
  {
    match Pair(a, size, name)
    case None => a
    case Some(pq) => Exchange(a, pq.0, pq.1)
  }

  /** The names of the swap list that are acted on: the xbl images are switched elsewhere on UFS. */
  function Active(names: seq<string>, ufs: bool): seq<string> {
    if names == [] then []
    else if ufs && PTN_XBL <= names[0] then Active(names[1..], ufs)
    else [names[0]] + Active(names[1..], ufs)
  }

  function SwapList(ufs: bool): seq<string> {
    Active(PTN_SWAP_LIST, ufs)
  }

  function SwapAll(a: seq<byte>, size: nat, names: seq<string>): (r: seq<byte>)
    requires PTN_ENTRY_SIZE <= size && Multiple(|a|, size)
    ensures |r| == |a|
    decreases |names|
  {
    if names == [] then a else SwapAll(SwapOne(a, size, names[0]), size, names[1..])
  }

  /** Some name of the list has two entries. */
  predicate HasBackup(a: seq<byte>, size: nat, names: seq<string>)
    requires PTN_ENTRY_SIZE <= size && Multiple(|a|, size)
  {
    exists name :: name in names && Pair(a, size, name).Some?
  }
}
