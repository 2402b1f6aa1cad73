/** A run of the cache that loses an update. */
module CacheLosses {
  import opened Blocks
  import opened Queues
  import opened Caches
  import opened Wrappers

  // Blocks 0 to k - 1 have been accessed twice, and all of them are held.
  ghost predicate Piled(c: Cache, k: nat)
    reads c, c.fifo, c.lru, c.fifo.head, c.lru.head, c.fifo.nodes, c.lru.nodes
    reads (set i | i in c.fifo.mp :: c.fifo.mp[i])`content, (set i | i in c.lru.mp :: c.lru.mp[i])`content
  {
    c.Valid() && c.Filled() && c.fifo.nodes == [] && |c.lru.nodes| == k &&
    forall i :: 0 <= i < k ==> c.lru.nodes[i].refcnt > 0 && c.lru.nodes[i].id < k
  }

  // A block is loaded into the empty FIFO queue.
  method Enter(c: Cache, id: nat) returns (n: ListNode)
    requires c.Valid() && c.Filled() && c.fifo.nodes == [] && !c.Cached(id)
    modifies c`store, c`clock, c`born, c.fifo`mp, c.fifo`len, c.fifo`nodes, c.fifo.head`prev, c.fifo.head`next
    ensures fresh(n) && n.id == id && n.refcnt > 0 && c.Valid() && c.Filled() && c.fifo.nodes == [n] &&
      c.lru.nodes == old(c.lru.nodes)
    ensures c.Cached(id) && c.NodeOf(id) == n && c.View(id) == Source(c.store, id) && forall x :: c.View(x) == old(c.View(x))
  {
    hide Ring, OrderedIn, AllFresh, Cache.Valid, Cache.Apart;
    var r := c.InsertGet(id);
    n := r;
    c.Load(n);
  }

  // Nodes with smaller numbers only: k is not cached.
  lemma NotYet(c: Cache, k: nat)
    requires Piled(c, k)
    ensures forall id :: id >= k ==> !c.Cached(id)
  {
    c.Open();
    c.Shape();
  }

  // What a promotion needs to know about the only node of the FIFO queue.
  lemma OnlyNode(c: Cache, n: ListNode)
    requires c.Valid() && c.fifo.nodes == [n]
    ensures n.id in c.fifo.mp && c.fifo.mp[n.id] == n && n.id !in c.lru.mp && Without([n], n) == []
  {
    c.Open();
    c.Shape();
  }

  lemma Members(c: Cache)
    requires c.Valid()
    ensures forall i :: 0 <= i < |c.lru.nodes| ==> c.Cached(c.lru.nodes[i].id) && c.NodeOf(c.lru.nodes[i].id) == c.lru.nodes[i]
  {
    c.Open();
    c.Shape();
  }

  // Block k is loaded and accessed again.
  method Pile(c: Cache, k: nat)
    requires Piled(c, k) && k < QUEUE_MAX_LEN
    modifies c`store, c`clock, c`used, c`born, c.fifo`mp, c.fifo`len, c.fifo`nodes, c.lru`mp, c.lru`len, c.lru`nodes
    modifies c.fifo.head`prev, c.fifo.head`next, c.lru.head`prev, c.lru.head`next, c.lru.nodes`prev, c.lru.nodes`next
    modifies c.lru.nodes`refcnt
    ensures Piled(c, k + 1) && forall x :: c.View(x) == old(c.View(x))
    ensures forall i :: 0 <= i <= k ==> fresh(c.lru.nodes[i]) || c.lru.nodes[i] in old(c.lru.nodes)
  {
    hide Ring, OrderedIn, AllFresh, Cache.Valid, Cache.Apart, Indexed, Distinct, Source, Without, OldestFree, Seen;
    NotYet(c, k);
    var n := Enter(c, k);
    OnlyNode(c, n);
    Members(c);
    var r := c.TryGet(k, true);
    Members(c);
    assert c.fifo.nodes == [];
    assert c.lru.nodes == [n] + old(c.lru.nodes);
    assert c.Filled();
    assert forall i :: 0 <= i < k + 1 ==> c.lru.nodes[i].id < k + 1;
    assert forall i :: 0 <= i < k + 1 ==> c.lru.nodes[i].refcnt > 0;
  }

  lemma AllHeld(c: Cache, id: nat)
    requires c.Valid() && |c.lru.nodes| == QUEUE_MAX_LEN && id !in c.lru.mp
    requires forall i :: 0 <= i < |c.lru.nodes| ==> c.lru.nodes[i].refcnt > 0
    ensures c.Stuck(id)
  {
  }

  lemma PiledSize(c: Cache, k: nat)
    requires Piled(c, k)
    ensures |c.lru.nodes| == k
  {
  }

  // An empty cache is filled with blocks that are held.
  method PileUp() returns (c: Cache)
    ensures fresh(c) && fresh(c.fifo) && fresh(c.lru) && fresh(c.fifo.head) && fresh(c.lru.head)
    ensures Piled(c, QUEUE_MAX_LEN) && (forall i :: 0 <= i < |c.lru.nodes| ==> fresh(c.lru.nodes[i])) && forall x :: c.View(x) == []
  {
    c := new Cache(map[]);
    var k := 0;
    while k < QUEUE_MAX_LEN
      invariant 0 <= k <= QUEUE_MAX_LEN && fresh(c) && fresh(c.fifo) && fresh(c.lru) && fresh(c.fifo.head) &&
        fresh(c.lru.head)
      invariant Piled(c, k) && (forall i :: 0 <= i < k ==> fresh(c.lru.nodes[i])) && forall x :: c.View(x) == []
    {
      hide Piled, Seen, Source, Cache.View, Cache.Valid, Cache.Filled;
      PiledSize(c, k);
      Pile(c, k);
      PiledSize(c, k + 1);
      k := k + 1;
    }
  }

  /** From an empty cache on, through its own operations, into a state in which an update is about
      to be lost: 256 blocks have been accessed twice and are held, one more has been written, and
      the next access to it will fail and leave what the store holds. */
  method AboutToLose(data: Bytes) returns (c: Cache, id: nat)
    ensures fresh(c) && c.Valid() && c.Filled() && c.Cached(id) && c.Stuck(id)
    ensures c.View(id) == data && Source(c.store, id) == []
  {
    hide Ring, OrderedIn, AllFresh, Cache.Valid, Cache.Apart, Indexed, Distinct, Source, Seen, OldestFree;
    c := PileUp();
    id := QUEUE_MAX_LEN;
    NotYet(c, id);
    var n := Enter(c, id);
    OnlyNode(c, n);
    c.Put(id, data);
    OnlyNode(c, n);
    AllHeld(c, id);
  }
}
