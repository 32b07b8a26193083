/** The linked list of active hints: nodes behind a sentinel head, newest first. */
module HintList {

  /** What a node carries: the hint it was made for and the lock taken for it. */
  datatype HintData = HintData(hintId: int, handle: int)

  /** The position of the first entry for `id`, or the length of the list. */
  function IndexOf(list: seq<HintData>, id: int): (k: nat)
    ensures k <= |list|
    ensures k < |list| ==> list[k].hintId == id
    ensures forall i :: 0 <= i < k ==> list[i].hintId != id
  {
    if list == [] || list[0].hintId == id then 0 else 1 + IndexOf(list[1..], id)
  }

  function Without(list: seq<HintData>, k: nat): seq<HintData>
    requires k < |list|
  {
    list[..k] + list[k + 1..]
  }

  class ListNode {
    var next: ListNode?
    const data: HintData

    constructor (data: HintData, next: ListNode?)
      ensures this.data == data && this.next == next
    {
      this.data, this.next := data, next;
    }
  }

  function DataOf(nodes: seq<ListNode>): (c: seq<HintData>)
    ensures |c| == |nodes|
    ensures forall i :: 0 <= i < |nodes| ==> c[i] == nodes[i].data
  {
    seq(|nodes|, i requires 0 <= i < |nodes| => nodes[i].data)
  }

  /** The node behind position `i`, if any. */
  function After(nodes: seq<ListNode>, i: nat): ListNode? {
    if i + 1 < |nodes| then nodes[i + 1] else null
  }

  lemma AfterBypass(was: seq<ListNode>, k: nat)
    requires k + 1 < |was|
    ensures var s := was[..k + 1] + was[k + 2..];
      && (forall i :: 0 <= i < k ==> After(s, i) == After(was, i))
      && After(s, k) == After(was, k + 1)
      && (forall i :: k < i < |s| ==> After(s, i) == After(was, i + 1))
  {
  }

  lemma DataWithout(was: seq<ListNode>, k: nat)
    requires k + 1 < |was|
    ensures DataOf((was[..k + 1] + was[k + 2..])[1..]) == Without(DataOf(was[1..]), k)
  {
    var a, b := DataOf((was[..k + 1] + was[k + 2..])[1..]), Without(DataOf(was[1..]), k);
    assert |a| == |b|;
    assert forall i :: 0 <= i < |a| ==> a[i] == b[i];
  }

  lemma {:induction false} FirstIs(list: seq<HintData>, id: int, k: nat)
    requires k <= |list| && (k < |list| ==> list[k].hintId == id)
    requires forall i :: 0 <= i < k ==> list[i].hintId != id
    ensures IndexOf(list, id) == k
  {
    if k == 0 {
    } else {
      FirstIs(list[1..], id, k - 1);
    }
  }

  class NodeList {
    const head: ListNode
    /** The head and the nodes behind it, in link order. */
    ghost var spine: seq<ListNode>

    ghost predicate Valid()
      reads this, spine
    {
      && spine != [] && spine[0] == head
      && (forall i, j :: 0 <= i < j < |spine| ==> spine[i] != spine[j])
      && (forall i :: 0 <= i < |spine| ==> spine[i].next == After(spine, i))
    }

    ghost function Contents(): (c: seq<HintData>)
      requires spine != []
      reads this
      ensures |c| == |spine| - 1
    {
      DataOf(spine[1..])
    }

    constructor ()
      ensures Valid() && Contents() == [] && fresh(spine)
    {
      head := new ListNode(HintData(0, 0), null);
      new;
      spine := [head];
    }

    /** add_list_node: links a new node right behind the head; without memory nothing happens. */
    method AddListNode(data: HintData, memory: bool) returns (node: ListNode?)
      requires Valid()
      modifies this, head
      ensures Valid() && fresh(set n | n in spine && n !in old(spine))
      ensures node == null <==> !memory
      ensures Contents() == if memory then [data] + old(Contents()) else old(Contents())
    {
      if !memory {
        return null;
      }
      var n := new ListNode(data, head.next);
      head.next := n;
      ghost var was := spine;
      spine := [head, n] + spine[1..];
      assert spine[1..] == [n] + was[1..];
      assert DataOf(spine[1..]) == [data] + DataOf(was[1..]);
      return n;
    }

    /** find_node: the first node for `id`, walking the links from the head. */
    method FindNode(id: int) returns (node: ListNode?)
      requires Valid()
      ensures node == null <==> IndexOf(Contents(), id) == |Contents()|
      ensures node != null ==> IndexOf(Contents(), id) + 1 < |spine| && node == spine[IndexOf(Contents(), id) + 1]
    {
      node := head.next;
      ghost var k := 0;
      while node != null
        invariant k <= |Contents()|
        invariant node == if k < |Contents()| then spine[k + 1] else null
        invariant forall i :: 0 <= i < k ==> Contents()[i].hintId != id
        decreases |Contents()| - k
      {
        if node.data.hintId == id {
          FirstIs(Contents(), id, k);
          return;
        }
        assert spine[k + 1].next == After(spine, k + 1);
        node := node.next;
        k := k + 1;
      }
      FirstIs(Contents(), id, k);
    }

    /** The pointer update: the node behind position `k` is bypassed. */
    method Unlink(saved: ListNode, current: ListNode, ghost k: nat)
      requires Valid() && k + 1 < |spine| && saved == spine[k] && current == spine[k + 1]
      modifies this, saved
      ensures Valid() && spine == old(spine)[..k + 1] + old(spine)[k + 2..]
      ensures Contents() == Without(old(Contents()), k)
    {
      ghost var was := spine;
      saved.next := current.next;
      spine := was[..k + 1] + was[k + 2..];
      AfterBypass(was, k);
      DataWithout(was, k);
      forall i | 0 <= i < |spine| ensures spine[i].next == After(spine, i) {
        var j := if i <= k then i else i + 1;
        assert spine[i] == was[j];
      }
    }

    /** remove_list_node: unlinks the node if it is in the list, and says -1 if it is not. */
    method RemoveListNode(node: ListNode?, ghost at: nat) returns (r: int)
      requires Valid()
      requires node != null ==> node in spine[1..] ==> at + 1 < |spine| && spine[at + 1] == node
      modifies this, spine
      ensures Valid() && (forall n :: n in spine ==> n in old(spine))
      ensures r == if node != null && node in old(spine)[1..] then 0 else -1
      ensures r == 0 ==> at < |old(Contents())| && Contents() == Without(old(Contents()), at)
      ensures r == -1 ==> Contents() == old(Contents()) && spine == old(spine)
    {
      if head.next == null {
        assert spine[0].next == After(spine, 0);
        return -1;
      }
      var saved, current := head, head.next;
      ghost var k := 0;
      while current != null && current != node
        invariant 0 <= k < |spine| && saved == spine[k]
        invariant current == if k + 1 < |spine| then spine[k + 1] else null
        invariant forall i :: 1 <= i <= k ==> spine[i] != node
        decreases |spine| - k
      {
        assert spine[k + 1].next == After(spine, k + 1);
        saved, current := current, current.next;
        k := k + 1;
      }
      if current == null {
        assert forall i :: 0 <= i < |spine[1..]| ==> spine[1..][i] != node;
        return -1;
      }
      assert current == spine[1..][k];
      assert k == at;
      Unlink(saved, current, k);
      return 0;
    }
  }
}
