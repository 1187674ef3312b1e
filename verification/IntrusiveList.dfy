// include/collections/list.h: the circular doubly linked list.
//
// A node is embedded in the structure it links; `entry` plays the part of the
// `list_entry` pointer arithmetic that leads from a node to that structure. The
// list itself is a head node, with no entry, that closes the ring.

module IntrusiveList {
  import opened Bytes

  class ListHead<T> {
    var next: ListHead<T>
    var prev: ListHead<T>
    const entry: Option<T>

    // INIT_LIST_HEAD
    constructor (entry: Option<T>)
      ensures this.entry == entry
      ensures IsRing(this, [])
    {
      this.entry := entry;
      next, prev := this, this;
    }
  }

  /** `nodes` is what a walk along `next` from `head` meets before it is back at `head`,
      and `prev` is the inverse of `next` all the way round. */
  ghost predicate IsRing<T>(head: ListHead<T>, nodes: seq<ListHead<T>>)
    reads head, nodes
  {
    && head !in nodes
    && (forall i, j :: 0 <= i < j < |nodes| ==> nodes[i] != nodes[j])
    && head.next == (if nodes == [] then head else nodes[0])
    && head.prev == (if nodes == [] then head else nodes[|nodes| - 1])
    && (forall i {:trigger nodes[i].next} :: 0 <= i < |nodes| ==>
          nodes[i].next == if i + 1 < |nodes| then nodes[i + 1] else head)
    && (forall i {:trigger nodes[i].prev} :: 0 <= i < |nodes| ==>
          nodes[i].prev == if i > 0 then nodes[i - 1] else head)
  }

  // A ring determines its node sequence, so `nodes` is a function of the heap.
  lemma {:induction false} RingIsUnique<T>(head: ListHead<T>, a: seq<ListHead<T>>, b: seq<ListHead<T>>, k: nat)
    requires IsRing(head, a) && IsRing(head, b)
    requires k <= |a|
    ensures k <= |b| && a[..k] == b[..k]
    ensures k == |a| ==> a == b
  {
    if k > 0 {
      RingIsUnique(head, a, b, k - 1);
      assert a[k - 1] == if k == 1 then head.next else a[k - 2].next;
      assert k == 1 || a[..k - 1][k - 2] == b[..k - 1][k - 2];
    }
    if k == |a| && k > 0 {
      assert a[..k][k - 1] == b[..k][k - 1];
      assert a[k - 1].next == head;
    }
  }

  // list_empty
  method ListEmpty<T>(head: ListHead<T>, ghost nodes: seq<ListHead<T>>) returns (empty: bool)
    requires IsRing(head, nodes)
    ensures empty <==> nodes == []
  {
    empty := head.next == head;
  }

  // __list_add: the four pointer writes that put `n` between two neighbours.
  method ListAddBetween<T>(n: ListHead<T>, prev: ListHead<T>, next: ListHead<T>)
    requires n != prev && n != next
    modifies n`next, n`prev, prev`next, next`prev
    ensures next.prev == n && prev.next == n && n.next == next && n.prev == prev
  {
    next.prev := n;
    n.next := next;
    n.prev := prev;
    prev.next := n;
  }

  // list_add_tail
  method ListAddTail<T>(n: ListHead<T>, head: ListHead<T>, ghost nodes: seq<ListHead<T>>)
    requires IsRing(head, nodes)
    requires n != head && n !in nodes
    modifies n`next, n`prev, head`next, head`prev, nodes`next, nodes`prev
    ensures IsRing(head, nodes + [n])
  {
    ListAddBetween(n, head.prev, head);
  }

  // list_del, whose __list_del makes the two neighbours point at each other
  method ListDel<T>(entry: ListHead<T>, ghost head: ListHead<T>, ghost nodes: seq<ListHead<T>>, ghost k: nat)
    requires IsRing(head, nodes)
    requires k < |nodes| && nodes[k] == entry
    modifies head`next, head`prev, nodes`next, nodes`prev
    ensures IsRing(head, nodes[..k] + nodes[k + 1..])
  {
    entry.next.prev := entry.prev;
    entry.prev.next := entry.next;
  }

  // list_splice, used with `at` the last node of the other list: the nodes of
  // `list`, without its head, follow the others in order. `list` is left as it is.
  method ListSplice<T>(list: ListHead<T>, ghost ln: seq<ListHead<T>>,
                       at: ListHead<T>, ghost head: ListHead<T>, ghost nodes: seq<ListHead<T>>)
    requires IsRing(list, ln) && IsRing(head, nodes)
    requires at == if nodes == [] then head else nodes[|nodes| - 1]
    requires list != head && list !in nodes && head !in ln
    requires forall i, j :: 0 <= i < |ln| && 0 <= j < |nodes| ==> ln[i] != nodes[j]
    modifies ln`next, ln`prev, head`next, head`prev, nodes`next, nodes`prev
    ensures IsRing(head, nodes + ln)
  {
    if list.next != list {
      var first, last, after := list.next, list.prev, at.next;
      first.prev := at;
      at.next := first;
      last.next := after;
      after.prev := last;
    } else {
      assert nodes + ln == nodes;
    }
  }

  // list_for_each: the walk ends, and meets each node once, in order.
  method ListForEach<T>(head: ListHead<T>, ghost nodes: seq<ListHead<T>>) returns (visited: seq<ListHead<T>>)
    requires IsRing(head, nodes)
    ensures visited == nodes
  {
    visited := [];
    var pos := head.next;
    while pos != head
      invariant |visited| <= |nodes| && visited == nodes[..|visited|]
      invariant pos == if |visited| < |nodes| then nodes[|visited|] else head
      decreases |nodes| - |visited|
    {
      visited := visited + [pos];
      pos := pos.next;
    }
  }
}
