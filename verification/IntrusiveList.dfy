/** The circular intrusive lists of include/intrusive_list.h and the FIFO of include/intrusive_queue.h. */
module IntrusiveList {
  import opened Common

  /** A node inside an object of type T; a list head is inside none. */
  class ListNode<T> {
    var next: ListNode?<T>
    var prev: ListNode?<T>
    /** The object around the node: what LIST_ITEM computes from the node's address. */
    var item: Option<T>
    /** Which of the lists an object can be on this node is for. */
    ghost const role: nat

    /** list_init. */
    constructor (ghost role: nat)
      ensures item == None && this.role == role && Ring(this, [])
    {
      this.item, this.role := None, role;
      new;
      next, prev := this, this;
    }
  }

  /** The nodes in the order of the next pointers, from the head back to the head. */
  ghost function Cycle<T>(head: ListNode<T>, s: seq<ListNode<T>>): seq<ListNode<T>> {
    [head] + s + [head]
  }

  ghost function Nodes<T>(head: ListNode<T>, s: seq<ListNode<T>>): set<ListNode<T>> {
    {head} + Elems(s)
  }

  ghost predicate Adjacent<T>(a: ListNode<T>, b: ListNode<T>)
    reads a, b
  {
    a.next == b && b.prev == a
  }

  /** The list at head holds exactly the nodes s, in this order, and its pointers close a circle. */
  ghost predicate Ring<T>(head: ListNode<T>, s: seq<ListNode<T>>)
    reads Nodes(head, s)
  {
    && Distinct(s) && head !in s
    && (forall x | x in s :: x.role == head.role)
    && var c := Cycle(head, s);
       forall i {:trigger c[i]} :: 0 <= i <= |s| ==> Adjacent(c[i], c[i + 1])
  }

  /** The neighbours of the gap in front of position k. */
  ghost function Before<T>(head: ListNode<T>, s: seq<ListNode<T>>, k: nat): ListNode<T>
    requires k <= |s|
  {
    if k == 0 then head else s[k - 1]
  }

  ghost function From<T>(head: ListNode<T>, s: seq<ListNode<T>>, k: nat): ListNode<T>
    requires k <= |s|
  {
    if k == |s| then head else s[k]
  }

  lemma CycleAt<T>(head: ListNode<T>, s: seq<ListNode<T>>, k: nat)
    requires k <= |s|
    ensures Cycle(head, s)[k] == Before(head, s, k) && Cycle(head, s)[k + 1] == From(head, s, k)
  {
  }

  lemma RingAt<T>(head: ListNode<T>, s: seq<ListNode<T>>, k: nat)
    requires Ring(head, s) && k <= |s|
    ensures Adjacent(Before(head, s, k), From(head, s, k))
  {
    CycleAt(head, s, k);
  }

  /** A ring from its gaps. */
  lemma RingIs<T>(head: ListNode<T>, s: seq<ListNode<T>>)
    requires Distinct(s) && head !in s && forall x | x in s :: x.role == head.role
    requires forall k {:trigger Before(head, s, k)} :: 0 <= k <= |s| ==> Adjacent(Before(head, s, k), From(head, s, k))
    ensures Ring(head, s)
  {
    var c := Cycle(head, s);
    forall i | 0 <= i <= |s| ensures Adjacent(c[i], c[i + 1]) {
      CycleAt(head, s, i);
    }
  }

  /** list_is_empty. */
  method ListIsEmpty<T>(head: ListNode<T>, ghost s: seq<ListNode<T>>) returns (empty: bool)
    requires Ring(head, s)
    ensures empty <==> s == []
  {
    RingAt(head, s, 0);
    RingAt(head, s, |s|);
    empty := head.next == head && head.prev == head;
  }

  lemma InsertGaps<T>(head: ListNode<T>, s: seq<ListNode<T>>, k: nat, item: ListNode<T>, j: nat)
    requires k <= |s| && j <= |s| + 1
    ensures var t := Insert(s, k, item);
      && Before(head, t, j) == (if j <= k then Before(head, s, j) else if j == k + 1 then item else Before(head, s, j - 1))
      && From(head, t, j) == (if j < k then From(head, s, j) else if j == k then item else From(head, s, j - 1))
  {
  }

  lemma WithoutGaps<T>(head: ListNode<T>, s: seq<ListNode<T>>, k: nat, j: nat)
    requires k < |s| && j < |s|
    ensures var t := Without(s, k);
      && Before(head, t, j) == (if j <= k then Before(head, s, j) else Before(head, s, j + 1))
      && From(head, t, j) == (if j < k then From(head, s, j) else From(head, s, j + 1))
  {
  }

  lemma GapsDiffer<T>(head: ListNode<T>, s: seq<ListNode<T>>, j: nat, k: nat)
    requires Distinct(s) && head !in s && j <= |s| && k <= |s| && j != k
    ensures Before(head, s, j) != Before(head, s, k) && From(head, s, j) != From(head, s, k)
    ensures Before(head, s, j) in Nodes(head, s) && From(head, s, j) in Nodes(head, s)
  {
  }

  /** list_add_before; k is the position of node in s, |s| if node is the head. */
  method ListAddBefore<T>(node: ListNode<T>, item: ListNode<T>, ghost head: ListNode<T>, ghost s: seq<ListNode<T>>, ghost k: nat)
    requires Ring(head, s) && k <= |s| && node == From(head, s, k)
    requires item !in Nodes(head, s) && item.role == head.role
    modifies item`next, item`prev, Nodes(head, s)`next, Nodes(head, s)`prev
    ensures Ring(head, Insert(s, k, item))
  {
    RingAt(head, s, k);
    item.next := node;
    item.prev := node.prev;
    node.prev.next := item;
    node.prev := item;
    forall j | 0 <= j <= |s| && j != k ensures Adjacent(Before(head, s, j), From(head, s, j)) {
      CycleAt(head, s, j);
      GapsDiffer(head, s, j, k);
    }
    Inserted(head, s, k, item);
  }

  /** list_add_after; k - 1 is the position of node in s, -1 for the head. */
  method ListAddAfter<T>(node: ListNode<T>, item: ListNode<T>, ghost head: ListNode<T>, ghost s: seq<ListNode<T>>, ghost k: nat)
    requires Ring(head, s) && k <= |s| && node == Before(head, s, k)
    requires item !in Nodes(head, s) && item.role == head.role
    modifies item`next, item`prev, Nodes(head, s)`next, Nodes(head, s)`prev
    ensures Ring(head, Insert(s, k, item))
  {
    RingAt(head, s, k);
    item.prev := node;
    item.next := node.next;
    node.next.prev := item;
    node.next := item;
    forall j | 0 <= j <= |s| && j != k ensures Adjacent(Before(head, s, j), From(head, s, j)) {
      CycleAt(head, s, j);
      GapsDiffer(head, s, j, k);
    }
    Inserted(head, s, k, item);
  }

  /** All gaps but k are as in s, and gap k leads through item. */
  lemma Inserted<T>(head: ListNode<T>, s: seq<ListNode<T>>, k: nat, item: ListNode<T>)
    requires Distinct(s) && head !in s && k <= |s| && item !in Nodes(head, s)
    requires item.role == head.role && forall x | x in s :: x.role == head.role
    requires Adjacent(Before(head, s, k), item) && Adjacent(item, From(head, s, k))
    requires forall j {:trigger Before(head, s, j)} | 0 <= j <= |s| && j != k :: Adjacent(Before(head, s, j), From(head, s, j))
    ensures Ring(head, Insert(s, k, item))
  {
    var t := Insert(s, k, item);
    InsertIsDistinct(s, k, item);
    forall j | 0 <= j <= |t| ensures Adjacent(Before(head, t, j), From(head, t, j)) {
      InsertGaps(head, s, k, item, j);
      assert j > k + 1 ==> Before(head, s, j - 1) == Before(head, t, j);
    }
    RingIs(head, t);
  }

  /** list_remove. */
  method ListRemove<T>(item: ListNode<T>, ghost head: ListNode<T>, ghost s: seq<ListNode<T>>, ghost k: nat)
    requires Ring(head, s) && k < |s| && item == s[k]
    modifies Nodes(head, s)`next, Nodes(head, s)`prev
    ensures Ring(head, Without(s, k)) && item.next == null && item.prev == null
  {
    RingAt(head, s, k);
    RingAt(head, s, k + 1);
    item.prev.next := item.next;
    item.next.prev := item.prev;
    item.next := null;
    item.prev := null;
    forall j | 0 <= j <= |s| && j != k && j != k + 1 ensures Adjacent(Before(head, s, j), From(head, s, j)) {
      CycleAt(head, s, j);
      GapsDiffer(head, s, j, k);
      GapsDiffer(head, s, j, k + 1);
    }
    Removed(head, s, k);
  }

  lemma Removed<T>(head: ListNode<T>, s: seq<ListNode<T>>, k: nat)
    requires Distinct(s) && head !in s && k < |s| && forall x | x in s :: x.role == head.role
    requires Adjacent(Before(head, s, k), From(head, s, k + 1))
    requires forall j {:trigger Before(head, s, j)} | 0 <= j <= |s| && j != k && j != k + 1 ::
      Adjacent(Before(head, s, j), From(head, s, j))
    ensures Ring(head, Without(s, k))
  {
    var t := Without(s, k);
    WithoutIsDistinct(s, k);
    forall j | 0 <= j <= |t| ensures Adjacent(Before(head, t, j), From(head, t, j)) {
      WithoutGaps(head, s, k, j);
      assert j > k ==> Before(head, s, j + 1) == Before(head, t, j);
    }
    RingIs(head, t);
  }

  /** enqueue: at the end. */
  method Enqueue<T>(head: ListNode<T>, item: ListNode<T>, ghost s: seq<ListNode<T>>)
    requires Ring(head, s) && item !in Nodes(head, s) && item.role == head.role
    modifies item`next, item`prev, Nodes(head, s)`next, Nodes(head, s)`prev
    ensures Ring(head, s + [item])
  {
    ListAddBefore(head, item, head, s, |s|);
    assert Insert(s, |s|, item) == s + [item];
  }

  /** dequeue: from the front, null when the queue is empty. */
  method Dequeue<T>(head: ListNode<T>, ghost s: seq<ListNode<T>>) returns (node: ListNode?<T>)
    requires Ring(head, s)
    modifies Nodes(head, s)`next, Nodes(head, s)`prev
    ensures node == if s == [] then null else s[0]
    ensures Ring(head, if s == [] then s else s[1..])
  {
    RingAt(head, s, 0);
    if head.next == head {
      return null;
    }
    node := head.next;
    ListRemove(head.next, head, s, 0);
    assert Without(s, 0) == s[1..];
  }
}
