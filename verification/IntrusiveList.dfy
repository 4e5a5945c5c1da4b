/** The circular list with a sentinel (src/common/list.c) behind the free list and the replacer. */
module IntrusiveList {

  class ListNode {
    var prev: ListNode?
    var next: ListNode?

    constructor ()
      ensures prev == null && next == null
    {
      prev, next := null, null;
    }
  }

  /** The node at a place of the ring; the sentinel is at both ends. */
  ghost function At(sentinel: ListNode, spine: seq<ListNode>, i: int): ListNode {
    if 0 <= i < |spine| then spine[i] else sentinel
  }

  /** The `i`-th node is linked to its neighbours, as is the sentinel (-1 and the length). */
  ghost predicate LinkedAt(sentinel: ListNode, spine: seq<ListNode>, i: int)
    reads sentinel, spine
  {
    && (i < |spine| ==> At(sentinel, spine, i).next == At(sentinel, spine, i + 1))
    && (i >= 0 ==> At(sentinel, spine, i).prev == At(sentinel, spine, i - 1))
  }

  ghost predicate Distinct(sentinel: ListNode, spine: seq<ListNode>) {
    && sentinel !in spine
    && forall i, j {:trigger spine[i], spine[j]} :: 0 <= i < j < |spine| ==> spine[i] != spine[j]
  }

  class List {
    const sentinel: ListNode
    var size: nat
    /** The nodes from front to back. */
    ghost var spine: seq<ListNode>

    ghost predicate Valid()
      reads this, sentinel, spine
    {
      && size == |spine| && Distinct(sentinel, spine)
      && forall i {:trigger LinkedAt(sentinel, spine, i)} :: -1 <= i <= |spine| ==> LinkedAt(sentinel, spine, i)
    }

    constructor ()
      ensures Valid() && spine == [] && fresh(sentinel)
    {
      sentinel := new ListNode();
      size, spine := 0, [];
      new;
      sentinel.prev, sentinel.next := sentinel, sentinel;
    }

    method PushFront(node: ListNode)
      requires Valid() && node != sentinel && node !in spine
      modifies this, node, sentinel, spine
      ensures Valid() && spine == [node] + old(spine)
    {
      assert LinkedAt(sentinel, spine, -1) && LinkedAt(sentinel, spine, 0);
      node.next := sentinel.next;
      node.prev := sentinel;
      sentinel.next.prev := node;
      sentinel.next := node;
      size := size + 1;
      spine := [node] + spine;
      forall i {:trigger LinkedAt(sentinel, spine, i)} | -1 <= i <= |spine| ensures LinkedAt(sentinel, spine, i) {
        assert i > 0 ==> old(LinkedAt(sentinel, spine, i - 1));
      }
    }

    method PushBack(node: ListNode)
      requires Valid() && node != sentinel && node !in spine
      modifies this, node, sentinel, spine
      ensures Valid() && spine == old(spine) + [node]
    {
      assert LinkedAt(sentinel, spine, |spine|) && LinkedAt(sentinel, spine, |spine| - 1);
      node.prev := sentinel.prev;
      node.next := sentinel;
      sentinel.prev.next := node;
      sentinel.prev := node;
      size := size + 1;
      spine := spine + [node];
      forall i {:trigger LinkedAt(sentinel, spine, i)} | -1 <= i <= |spine| ensures LinkedAt(sentinel, spine, i) {
        assert i < |spine| - 1 ==> old(LinkedAt(sentinel, spine, i));
      }
    }

    /** list_remove_from for the node at place `k`. */
    method RemoveFrom(node: ListNode, ghost k: nat)
      requires Valid() && k < |spine| && node == spine[k]
      modifies this, node, sentinel, spine
      ensures Valid() && spine == old(spine)[..k] + old(spine)[k + 1..]
      ensures node.prev == null && node.next == null
    {
      assert LinkedAt(sentinel, spine, k - 1) && LinkedAt(sentinel, spine, k) && LinkedAt(sentinel, spine, k + 1);
      ghost var s := spine;
      node.prev.next := node.next;
      node.next.prev := node.prev;
      node.prev, node.next := null, null;
      size := size - 1;
      spine := s[..k] + s[k + 1..];
      forall i {:trigger LinkedAt(sentinel, spine, i)} | -1 <= i <= |spine| ensures LinkedAt(sentinel, spine, i) {
        assert old(LinkedAt(sentinel, spine, if i < k then i else i + 1));
      }
    }

    method PopFront() returns (node: ListNode?)
      requires Valid()
      modifies this, sentinel, spine
      ensures Valid()
      ensures old(spine) == [] ==> node == null && spine == []
      ensures old(spine) != [] ==> node == old(spine)[0] && spine == old(spine)[1..] && node.prev == null && node.next == null
    {
      if size == 0 {
        return null;
      }
      assert LinkedAt(sentinel, spine, -1);
      node := sentinel.next;
      RemoveFrom(node, 0);
    }

    method PopBack() returns (node: ListNode?)
      requires Valid()
      modifies this, sentinel, spine
      ensures Valid()
      ensures old(spine) == [] ==> node == null && spine == []
      ensures old(spine) != [] ==>
                && node == old(spine)[|old(spine)| - 1] && spine == old(spine)[..|old(spine)| - 1]
                && node.prev == null && node.next == null
    {
      if size == 0 {
        return null;
      }
      assert LinkedAt(sentinel, spine, |spine|);
      node := sentinel.prev;
      RemoveFrom(node, |spine| - 1);
    }
  }
}
