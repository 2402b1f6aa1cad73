/** queue.c: a bounded queue of cache nodes, as a circular doubly linked list with a sentinel
    and an index from ids to nodes. */
module Queues {
  import opened Blocks
  import opened Wrappers

  const QUEUE_MAX_LEN := 256

  // struct list
  class ListNode {
    const id: nat
    var refcnt: nat
    var dirty: bool
    var content: Option<Bytes>
    var prev: ListNode?
    var next: ListNode?

    constructor (id: nat)
      ensures this.id == id && refcnt == 1 && !dirty && content == None && prev == null && next == null
    {
      this.id := id;
      refcnt, dirty, content, prev, next := 1, false, None, null, null;
    }
  }

  // ---------- rings ----------

  ghost function At(h: ListNode, ns: seq<ListNode>, k: int): ListNode {
    if 1 <= k <= |ns| then ns[k - 1] else h
  }

  // Places k and k + 1 of the ring are joined in both directions.
  ghost predicate Joint(h: ListNode, ns: seq<ListNode>, k: int)
    reads h`prev, h`next, ns`prev, ns`next
  {
    At(h, ns, k).next == At(h, ns, k + 1) && At(h, ns, k + 1).prev == At(h, ns, k)
  }

  ghost predicate Distinct(ns: seq<ListNode>) {
    forall i, j :: 0 <= i < j < |ns| ==> ns[i] != ns[j]
  }

  ghost predicate Ring(h: ListNode, ns: seq<ListNode>)
    reads h`prev, h`next, ns`prev, ns`next
  {
    h !in ns && Distinct(ns) && forall k :: 0 <= k <= |ns| ==> Joint(h, ns, k)
  }

  // The index knows exactly the nodes of the list.
  ghost predicate Indexed(mp: map<nat, ListNode>, ns: seq<ListNode>) {
    (forall n :: n in ns ==> n.id in mp && mp[n.id] == n) &&
    forall id :: id in mp ==> mp[id] in ns && mp[id].id == id
  }

  ghost function IndexOf(ns: seq<ListNode>, n: ListNode): (j: nat)
    requires n in ns
    ensures j < |ns| && ns[j] == n
  {
    var j :| 0 <= j < |ns| && ns[j] == n;
    j
  }

  ghost function Drop(ns: seq<ListNode>, j: nat): (r: seq<ListNode>)
    requires j < |ns|
    ensures |r| == |ns| - 1
  {
    ns[..j] + ns[j + 1..]
  }

  ghost function Without(ns: seq<ListNode>, n: ListNode): seq<ListNode>
    requires n in ns
  {
    Drop(ns, IndexOf(ns, n))
  }

  lemma AtNode(h: ListNode, ns: seq<ListNode>, j: nat)
    requires j < |ns|
    ensures At(h, ns, j + 1) == ns[j]
    ensures forall k :: At(h, ns, k) == h || At(h, ns, k) in ns
  {
  }

  lemma DropAt(h: ListNode, ns: seq<ListNode>, j: nat, k: int)
    requires j < |ns| && 0 <= k <= |ns|
    ensures At(h, Drop(ns, j), k) == At(h, ns, if k <= j then k else k + 1)
  {
  }

  lemma DropMembers(ns: seq<ListNode>, j: nat)
    requires j < |ns| && Distinct(ns)
    ensures Distinct(Drop(ns, j)) && forall n :: n in Drop(ns, j) <==> n in ns && n != ns[j]
    ensures forall i :: 0 <= i < |ns| - 1 ==> Drop(ns, j)[i] in ns
  {
    var d := Drop(ns, j);
    forall n | n in ns && n != ns[j]
      ensures n in d
    {
      var i :| 0 <= i < |ns| && ns[i] == n;
      assert d[if i < j then i else i - 1] == n;
    }
  }

  lemma DropIndexed(mp: map<nat, ListNode>, ns: seq<ListNode>, j: nat)
    requires Indexed(mp, ns) && Distinct(ns) && j < |ns|
    ensures Indexed(mp - {ns[j].id}, Drop(ns, j))
  {
    DropMembers(ns, j);
    assert ns[j] in ns;
  }

  lemma Places(h: ListNode, ns: seq<ListNode>, i: int, k: int)
    requires h !in ns && Distinct(ns) && 0 <= i <= |ns| + 1 && 0 <= k <= |ns| + 1
    ensures At(h, ns, i) == At(h, ns, k) ==> i == k || {i, k} == {0, |ns| + 1}
  {
  }

  /** The oldest node that nobody holds: the last one in the list with no references. */
  ghost function OldestFree(ns: seq<ListNode>): (j: int)
    reads ns`refcnt
    ensures -1 <= j < |ns|
    ensures j >= 0 ==> ns[j].refcnt == 0
    ensures forall k :: j < k < |ns| ==> ns[k].refcnt > 0
  {
    if ns == [] then -1
    else if ns[|ns| - 1].refcnt == 0 then |ns| - 1
    else OldestFree(ns[..|ns| - 1])
  }

  /** The outcome of inserting n into list ns with index m, whose oldest free node is at j: the
      list grows, or that node leaves it, or nothing happens because there is none. */
  ghost predicate Inserted(ns: seq<ListNode>, m: map<nat, ListNode>, j: int, n: ListNode,
                           err: bool, out: ListNode?, ns': seq<ListNode>, m': map<nat, ListNode>)
    requires j < |ns|
  {
    if |ns| < QUEUE_MAX_LEN then !err && out == null && ns' == [n] + ns && m' == m[n.id := n]
    else if j < 0 then err && out == null && ns' == ns && m' == m
    else !err && out == ns[j] && ns' == [n] + Drop(ns, j) && m' == (m - {ns[j].id})[n.id := n]
  }

  // The list after inserting n, when the oldest free node is at j.
  ghost function AfterInsert(ns: seq<ListNode>, j: int, n: ListNode): seq<ListNode>
    requires j < |ns|
  {
    if |ns| < QUEUE_MAX_LEN then [n] + ns else if j < 0 then ns else [n] + Drop(ns, j)
  }

  lemma OldestUnique(ns: seq<ListNode>, j: int)
    requires -1 <= j < |ns| && (j >= 0 ==> ns[j].refcnt == 0) && forall k :: j < k < |ns| ==> ns[k].refcnt > 0
    ensures j == OldestFree(ns)
  {
  }

  lemma PushAt(h: ListNode, ns: seq<ListNode>, n: ListNode, k: int)
    requires 0 <= k <= |ns| + 2
    ensures At(h, [n] + ns, k) == if k == 0 then h else if k == 1 then n else At(h, ns, k - 1)
  {
  }

  lemma PushDistinct(ns: seq<ListNode>, n: ListNode)
    requires Distinct(ns) && n !in ns
    ensures Distinct([n] + ns)
  {
  }

  lemma IndexOfAt(ns: seq<ListNode>, j: nat)
    requires Distinct(ns) && j < |ns|
    ensures ns[j] in ns && IndexOf(ns, ns[j]) == j && Without(ns, ns[j]) == Drop(ns, j)
  {
  }

  lemma PushIndexed(mp: map<nat, ListNode>, ns: seq<ListNode>, n: ListNode)
    requires Indexed(mp, ns) && n.id !in mp
    ensures Indexed(mp[n.id := n], [n] + ns)
  {
    assert forall m :: m in [n] + ns ==> m == n || m in ns;
    assert n == ([n] + ns)[0];
  }

  class Queue {
    const head: ListNode
    var mp: map<nat, ListNode>
    var len: nat
    ghost var nodes: seq<ListNode>

    ghost predicate Valid()
      reads this, head`prev, head`next, nodes`prev, nodes`next
    {
      len == |nodes| <= QUEUE_MAX_LEN && Ring(head, nodes) && Indexed(mp, nodes)
    }

    lemma Parts()
      requires Valid()
      ensures Distinct(nodes) && Indexed(mp, nodes) && head !in nodes && len == |nodes| <= QUEUE_MAX_LEN
    {
    }

    /** queue_init */
    constructor ()
      ensures Valid() && nodes == [] && fresh(head)
    {
      var h := new ListNode(0);
      head, mp, len, nodes := h, map[], 0, [];
      new;
      head.next, head.prev := head, head;
    }

    // The pointer part of queue_evict.
    static method Unhook(evict: ListNode, ghost h: ListNode, ghost ns: seq<ListNode>, ghost j: nat)
      requires Ring(h, ns) && j < |ns| && ns[j] == evict && evict.prev != null && evict.next != null
      modifies h`prev, h`next, ns`prev, ns`next
      ensures Ring(h, Drop(ns, j))
    {
      hide At, Drop, Distinct;
      AtNode(h, ns, j);
      assert Joint(h, ns, j) && Joint(h, ns, j + 1);
      assert evict.prev == At(h, ns, j) && evict.next == At(h, ns, j + 2);
      evict.prev.next := evict.next;
      evict.next.prev := evict.prev;
      DropMembers(ns, j);
      forall k | 0 <= k <= |ns| - 1
        ensures Joint(h, Drop(ns, j), k)
      {
        ghost var i := if k <= j then k else k + 1;
        Places(h, ns, i, j);
        Places(h, ns, i + 1, j + 2);
        DropAt(h, ns, j, k);
        DropAt(h, ns, j, k + 1);
        assert old(Joint(h, ns, i)) && old(Joint(h, ns, j)) && old(Joint(h, ns, j + 1));
      }
    }

    /** queue_evict */
    method Evict(evict: ListNode) returns (err: bool)
      requires Valid() && evict in nodes
      modifies `mp, `len, `nodes, head`prev, head`next, nodes`prev, nodes`next
      ensures Valid() && !err && nodes == Without(old(nodes), evict) && evict.prev == null && evict.next == null
      ensures mp == old(mp) - {evict.id}
    {
      hide Drop;
      if len == 0 {
        return true;
      }
      ghost var ns, j := nodes, IndexOf(nodes, evict);
      assert Joint(head, ns, j) && Joint(head, ns, j + 1);
      DropMembers(ns, j);
      DropIndexed(mp, ns, j);
      Unhook(evict, head, nodes, j);
      len := len - 1;
      nodes := Drop(ns, j);
      if evict.id !in mp {
        return true;
      }
      mp := mp - {evict.id};
      evict.prev, evict.next := null, null;
      err := false;
    }

    /** queue_dieout: the oldest unpinned node leaves the queue, if there is one. */
    method DieOut() returns (evict: ListNode?)
      requires Valid()
      modifies `mp, `len, `nodes, head`prev, head`next, nodes`prev, nodes`next
      ensures Valid()
      ensures var j := OldestFree(old(nodes));
        (j < 0 ==> evict == null && nodes == old(nodes) && mp == old(mp)) &&
        (j >= 0 ==> evict == old(nodes)[j] && nodes == Drop(old(nodes), j) && mp == old(mp) - {evict.id})
    {
      hide Drop, Indexed;
      if len == 0 {
        return null;
      }
      ghost var k := |nodes|;
      assert Joint(head, nodes, k);
      var p := head.prev;
      while p != head && p.refcnt != 0
        invariant 0 <= k <= |nodes| && p == At(head, nodes, k)
        invariant forall m :: k <= m < |nodes| ==> nodes[m].refcnt > 0
        decreases k
      {
        assert Joint(head, nodes, k - 1);
        p, k := p.prev, k - 1;
      }
      OldestUnique(nodes, k - 1);
      if p == head {
        return null;
      }
      IndexOfAt(nodes, k - 1);
      var err := Evict(p);
      evict := p;
    }

    // The pointer part of queue_insert_to_head.
    static method Hook(h: ListNode, node: ListNode, ghost ns: seq<ListNode>)
      requires Ring(h, ns) && node !in ns && node != h && h.next != null
      modifies h`prev, h`next, ns`prev, ns`next, node`prev, node`next
      ensures Ring(h, [node] + ns)
    {
      assert Joint(h, ns, 0);
      h.next.prev := node;
      node.next := h.next;
      h.next := node;
      node.prev := h;
      PushDistinct(ns, node);
      forall k | 0 <= k <= |ns| + 1
        ensures Joint(h, [node] + ns, k)
      {
        hide At;
        PushAt(h, ns, node, k);
        PushAt(h, ns, node, k + 1);
        if k >= 1 {
          Places(h, ns, k - 1, 0);
          Places(h, ns, k, 1);
        }
        assert old(Joint(h, ns, k - 1)) || k == 0;
        assert old(Joint(h, ns, 0));
      }
    }

    // The node becomes the first of a queue that has room for it.
    method Push(node: ListNode) returns (err: bool)
      requires Valid() && |nodes| < QUEUE_MAX_LEN && node !in nodes && node != head && node.id !in mp
      modifies `mp, `len, `nodes, head`prev, head`next, nodes`prev, nodes`next, node`prev, node`next
      ensures Valid() && !err && nodes == [node] + old(nodes) && mp == old(mp)[node.id := node]
    {
      hide Indexed;
      assert Joint(head, nodes, 0);
      Hook(head, node, nodes);
      PushIndexed(mp, nodes, node);
      len := len + 1;
      nodes := [node] + nodes;
      if node.id in mp {
        return true;
      }
      mp := mp[node.id := node];
      err := false;
    }

    // A full queue gives up its oldest unpinned node.
    method MakeRoom(ghost id: nat) returns (err: bool, writeBack: ListNode?)
      requires Valid() && id !in mp
      modifies `mp, `len, `nodes, head`prev, head`next, nodes`prev, nodes`next
      ensures Valid() && id !in mp && (forall i :: 0 <= i < |nodes| ==> nodes[i] in old(nodes))
      ensures old(|nodes|) < QUEUE_MAX_LEN ==> !err && writeBack == null && nodes == old(nodes) && mp == old(mp)
      ensures old(|nodes|) == QUEUE_MAX_LEN ==> var j := OldestFree(old(nodes));
        (j < 0 ==> err && writeBack == null && nodes == old(nodes) && mp == old(mp)) &&
        (j >= 0 ==> !err && writeBack == old(nodes)[j] && nodes == Drop(old(nodes), j) && mp == old(mp) - {writeBack.id})
    {
      hide Drop, Indexed;
      err, writeBack := false, null;
      if len >= QUEUE_MAX_LEN {
        ghost var ns, j := nodes, OldestFree(nodes);
        writeBack := DieOut();
        if writeBack == null {
          return true, null;
        }
        DropMembers(ns, j);
      }
    }

    /** queue_insert_to_head: a full queue first gives up its oldest unpinned node; if all are
        pinned the queue stays as it is and the node is not inserted. */
    method InsertToHead(node: ListNode) returns (err: bool, writeBack: ListNode?)
      requires Valid() && node !in nodes && node != head && node.id !in mp
      modifies `mp, `len, `nodes, head`prev, head`next, nodes`prev, nodes`next, node`prev, node`next
      ensures Valid()
      ensures Inserted(old(nodes), old(mp), old(OldestFree(nodes)), node, err, writeBack, nodes, mp)
    {
      hide Drop, Indexed, Ring;
      err, writeBack := MakeRoom(node.id);
      if err {
        return;
      }
      err := Push(node);
    }

    /** queue_move_to_head: since the node leaves first, the queue cannot overflow. */
    method MoveToHead(node: ListNode) returns (err: bool, writeBack: ListNode?)
      requires Valid() && node in nodes
      modifies `mp, `len, `nodes, head`prev, head`next, nodes`prev, nodes`next
      ensures Valid() && !err && writeBack == null && nodes == [node] + Without(old(nodes), node) && mp == old(mp)
    {
      hide Drop;
      ghost var ns, m := nodes, mp;
      err := Evict(node);
      WithoutMembers(m, ns, node);
      StillAbsent(m, ns, mp, nodes, node);
      assert m == (m - {node.id})[node.id := node];
      err, writeBack := InsertToHead(node);
    }

    /** queue_search */
    method Search(id: nat) returns (res: ListNode?)
      requires Valid()
      ensures res == (if id in mp then mp[id] else null)
      ensures res != null ==> res in nodes && res.id == id
    {
      if len == 0 {
        return null;
      }
      res := if id in mp then mp[id] else null;
    }
  }

  // An id that was not indexed, or whose node has left, is not indexed afterwards.
  lemma StillAbsent(mp: map<nat, ListNode>, ns: seq<ListNode>, mp': map<nat, ListNode>, ns': seq<ListNode>, n: ListNode)
    requires Indexed(mp, ns) && Indexed(mp', ns') && n !in ns'
    requires forall m :: m in ns' ==> m in ns
    requires n.id in mp ==> mp[n.id] == n
    ensures n.id !in mp'
  {
  }

  lemma WithoutMembers(mp: map<nat, ListNode>, ns: seq<ListNode>, n: ListNode)
    requires Distinct(ns) && n in ns && Indexed(mp, ns)
    ensures |Without(ns, n)| == |ns| - 1 && forall m :: m in Without(ns, n) <==> m in ns && m != n
    ensures forall i :: 0 <= i < |ns| - 1 ==> Without(ns, n)[i] in ns
  {
    DropMembers(ns, IndexOf(ns, n));
  }
}
