/** cache.c: a write-back cache with pinning.  A node enters the FIFO queue when it is first
    loaded and moves to the LRU queue when it is next accessed. */
module Caches {
  import opened Blocks
  import opened Queues
  import opened Wrappers

  type Stamps = map<nat, nat>

  // Every node of the list has a time stamp before now, and the latest comes first.
  ghost predicate Latest(ns: seq<ListNode>, at: Stamps, now: nat) {
    (forall n :: n in ns ==> n.id in at && at[n.id] < now) &&
    forall i, j :: 0 <= i < j < |ns| ==> at[ns[i].id] > at[ns[j].id]
  }

  lemma DropLatest(ns: seq<ListNode>, j: nat, at: Stamps, now: nat)
    requires Latest(ns, at, now) && j < |ns|
    ensures Latest(Drop(ns, j), at, now)
  {
    assert forall n :: n in Drop(ns, j) ==> n in ns;
  }

  // The node stamped now goes first.
  lemma PushLatest(ns: seq<ListNode>, n: ListNode, at: Stamps, now: nat)
    requires Latest(ns, at, now) && forall m :: m in ns ==> m.id != n.id
    ensures Latest([n] + ns, at[n.id := now], now + 1)
  {
    var r, t := [n] + ns, at[n.id := now];
    assert forall i :: 0 < i < |r| ==> r[i] in ns;
  }

  /** The FIFO queue is ordered by insertion and the LRU queue by last access; a node in the LRU
      queue has been accessed after it was inserted. */
  ghost predicate OrderedIn(fs: seq<ListNode>, ls: seq<ListNode>, born: Stamps, used: Stamps, now: nat) {
    Latest(fs, born, now) && Latest(ls, used, now) &&
    forall n :: n in ls ==> n.id in born && n.id in used && born[n.id] < used[n.id]
  }

  // Every node of the second list is in the first, or is n.
  ghost predicate Within(ns: seq<ListNode>, ms: seq<ListNode>, n: ListNode) {
    forall m :: m in ms ==> m in ns || m == n
  }

  lemma TouchOrdered(fs: seq<ListNode>, mp: map<nat, ListNode>, ls: seq<ListNode>, n: ListNode, born: Stamps,
                     used: Stamps, now: nat)
    requires OrderedIn(fs, ls, born, used, now) && Distinct(ls) && n in ls && Indexed(mp, ls)
    ensures OrderedIn(fs, [n] + Without(ls, n), born, used[n.id := now], now + 1)
    ensures Within(ls, [n] + Without(ls, n), n)
  {
    WithoutMembers(mp, ls, n);
    DropLatest(ls, IndexOf(ls, n), used, now);
    PushLatest(Without(ls, n), n, used, now);
  }

  // What the caller would load for an id that is not cached.
  ghost function Source(st: map<nat, Bytes>, id: nat): Bytes {
    if id in st then st[id] else []
  }

  // A clean node holds what the store holds, if anything.
  ghost predicate Fresh(n: ListNode, st: map<nat, Bytes>)
    reads n`dirty, n`content
  {
    if n.dirty then n.content.Some? else n.content == None || n.content == Some(Source(st, n.id))
  }

  ghost predicate AllFresh(ns: seq<ListNode>, st: map<nat, Bytes>)
    reads ns`dirty, ns`content
  {
    forall n :: n in ns ==> Fresh(n, st)
  }

  lemma WithinFresh(ns: seq<ListNode>, ns': seq<ListNode>, n: ListNode, st: map<nat, Bytes>)
    requires AllFresh(ns, st) && Fresh(n, st) && Within(ns, ns', n)
    ensures AllFresh(ns', st)
  {
  }

  // The content of an id, given the indexes of both queues and the store.
  ghost function Seen(fm: map<nat, ListNode>, lm: map<nat, ListNode>, st: map<nat, Bytes>, id: nat): Bytes
    reads (set i | i in fm :: fm[i])`content, (set i | i in lm :: lm[i])`content
  {
    if id in lm then Held(lm[id], st, id)
    else if id in fm then Held(fm[id], st, id)
    else Source(st, id)
  }

  ghost function Held(n: ListNode, st: map<nat, Bytes>, id: nat): Bytes
    reads n`content
  {
    if n.content.Some? then n.content.value else Source(st, id)
  }

  // The content of an id, if one queue with index m is all that is cached.
  ghost function One(m: map<nat, ListNode>, st: map<nat, Bytes>, id: nat): Bytes
    reads (set i | i in m :: m[i])`content
  {
    if id in m then Held(m[id], st, id) else Source(st, id)
  }

  // Writing back the first node of a queue.
  lemma ExitStep(ns: seq<ListNode>, m: map<nat, ListNode>, st: map<nat, Bytes>)
    requires |ns| > 0 && Distinct(ns) && Indexed(m, ns) && AllFresh(ns, st)
    ensures Distinct(ns[1..]) && Indexed(m - {ns[0].id}, ns[1..]) && AllFresh(ns[1..], AfterFree(st, ns[0]))
    ensures ns[0].dirty ==> ns[0].content.Some?
    ensures forall id :: One(m - {ns[0].id}, AfterFree(st, ns[0]), id) == One(m, st, id)
  {
    hide Source, Fresh;
    var n, rest := ns[0], ns[1..];
    assert n in ns && Fresh(n, st);
    assert Drop(ns, 0) == rest;
    DropMembers(ns, 0);
    DropIndexed(m, ns, 0);
    assert forall x :: x in rest ==> x in ns && x.id in m - {n.id};
    FreeFresh(rest, n, st);
    forall id
      ensures One(m - {n.id}, AfterFree(st, n), id) == One(m, st, id)
    {
      FreeOne(m, n, st, id);
    }
  }

  lemma FreeOne(m: map<nat, ListNode>, n: ListNode, st: map<nat, Bytes>, id: nat)
    requires n.id in m && m[n.id] == n && Fresh(n, st)
    ensures One(m - {n.id}, AfterFree(st, n), id) == One(m, st, id)
  {
  }

  lemma ExitEnd(m: map<nat, ListNode>, ns: seq<ListNode>)
    requires Indexed(m, ns) && ns == []
    ensures m == map[]
  {
    assert forall id :: id !in m;
  }

  class Cache {
    const fifo: Queue
    const lru: Queue
    var store: map<nat, Bytes>
    ghost var clock: nat
    ghost var born: Stamps
    ghost var used: Stamps

    // The two queues share nothing.
    ghost predicate Apart()
      reads fifo, lru
    {
      fifo != lru && fifo.head != lru.head && fifo.head !in lru.nodes && lru.head !in fifo.nodes &&
      (forall i :: 0 <= i < |fifo.nodes| ==> fifo.nodes[i] !in lru.nodes) && forall id :: id in fifo.mp ==> id !in lru.mp
    }

    ghost predicate Frames()
      reads fifo, lru, fifo.head`prev, fifo.head`next, lru.head`prev, lru.head`next
      reads fifo.nodes`prev, fifo.nodes`next, lru.nodes`prev, lru.nodes`next
    {
      fifo.Valid() && lru.Valid() && Apart()
    }

    ghost predicate Ordered()
      reads this, fifo, lru
    {
      OrderedIn(fifo.nodes, lru.nodes, born, used, clock)
    }

    ghost predicate Valid()
      reads this, fifo, lru, fifo.head, lru.head, fifo.nodes, lru.nodes
    {
      Frames() && Ordered() && AllFresh(fifo.nodes, store) && AllFresh(lru.nodes, store)
    }

    ghost predicate Cached(id: nat)
      reads fifo, lru
    {
      id in lru.mp || id in fifo.mp
    }

    ghost function NodeOf(id: nat): ListNode
      requires Cached(id)
      reads fifo, lru
    {
      if id in lru.mp then lru.mp[id] else fifo.mp[id]
    }

    /** The content of an id: what is cached, or else what would be loaded. */
    ghost function View(id: nat): Bytes
      reads `store, fifo, lru, (set i | i in fifo.mp :: fifo.mp[i])`content, (set i | i in lru.mp :: lru.mp[i])`content
    {
      Seen(fifo.mp, lru.mp, store, id)
    }

    /** cache_init */
    constructor (store: map<nat, Bytes>)
      ensures Valid() && fifo.nodes == [] && lru.nodes == [] && this.store == store && fresh(fifo) && fresh(lru)
      ensures fresh(fifo.head) && fresh(lru.head)
    {
      fifo := new Queue();
      lru := new Queue();
      this.store := store;
      clock, born, used := 0, map[], map[];
    }

    /** node_free: a dirty node is written back. */
    method NodeFree(node: ListNode)
      requires node.dirty ==> node.content.Some?
      modifies `store
      ensures store == AfterFree(old(store), node)
    {
      if node.dirty {
        store := store[node.id := node.content.value];
      }
    }

    // Any free node that is cached nowhere.
    ghost predicate Outside(n: ListNode)
      reads fifo, lru
    {
      n !in fifo.nodes && n !in lru.nodes && n != fifo.head && n != lru.head && n.id !in fifo.mp && n.id !in lru.mp
    }

    // ---------- the queues, apart from what their nodes hold ----------

    method MoveInLru(res: ListNode) returns (err: bool, tofree: ListNode?)
      requires Frames() && res in lru.nodes
      modifies lru`mp, lru`len, lru`nodes, lru.head`prev, lru.head`next, lru.nodes`prev, lru.nodes`next
      ensures Frames() && !err && tofree == null && lru.nodes == [res] + Without(old(lru.nodes), res) &&
        lru.mp == old(lru.mp)
    {
      hide Drop, Ring, Indexed;
      lru.Parts();
      ghost var ns, m := lru.nodes, lru.mp;
      err, tofree := lru.MoveToHead(res);
      WithoutMembers(m, ns, res);
    }

    method LeaveFifo(res: ListNode) returns (err: bool)
      requires Frames() && res in fifo.nodes
      modifies fifo`mp, fifo`len, fifo`nodes, fifo.head`prev, fifo.head`next, fifo.nodes`prev, fifo.nodes`next
      ensures Frames() && !err && fifo.nodes == Without(old(fifo.nodes), res) && fifo.mp == old(fifo.mp) - {res.id}
      ensures Outside(res)
    {
      hide Drop, Ring;
      fifo.Parts();
      lru.Parts();
      ghost var ns, m := fifo.nodes, fifo.mp;
      err := fifo.Evict(res);
      WithoutMembers(m, ns, res);
    }

    method EnterLru(res: ListNode) returns (err: bool, tofree: ListNode?)
      requires Frames() && Outside(res)
      modifies lru`mp, lru`len, lru`nodes, lru.head`prev, lru.head`next, lru.nodes`prev, lru.nodes`next, res`prev,
        res`next
      ensures Frames() && Inserted(old(lru.nodes), old(lru.mp), old(OldestFree(lru.nodes)), res, err, tofree, lru.nodes, lru.mp)
    {
      hide Ring, Drop;
      fifo.Parts();
      lru.Parts();
      ghost var ns, m, j := lru.nodes, lru.mp, OldestFree(lru.nodes);
      err, tofree := lru.InsertToHead(res);
      InsertedWithin(ns, m, j, res, err, tofree, lru.nodes, lru.mp);
    }

    method EnterFifo(res: ListNode) returns (err: bool, tofree: ListNode?)
      requires Frames() && Outside(res)
      modifies fifo`mp, fifo`len, fifo`nodes, fifo.head`prev, fifo.head`next, fifo.nodes`prev, fifo.nodes`next,
        res`prev, res`next
      ensures Frames() && Inserted(old(fifo.nodes), old(fifo.mp), old(OldestFree(fifo.nodes)), res, err, tofree, fifo.nodes, fifo.mp)
    {
      hide Ring, Drop;
      fifo.Parts();
      lru.Parts();
      ghost var ns, m, j := fifo.nodes, fifo.mp, OldestFree(fifo.nodes);
      err, tofree := fifo.InsertToHead(res);
      InsertedWithin(ns, m, j, res, err, tofree, fifo.nodes, fifo.mp);
    }

    lemma Shape()
      requires Frames()
      ensures fifo.Valid() && lru.Valid() && fifo != lru && forall id :: id in fifo.mp ==> id !in lru.mp
      ensures Distinct(fifo.nodes) && Indexed(fifo.mp, fifo.nodes) && Distinct(lru.nodes) && Indexed(lru.mp, lru.nodes)
    {
      fifo.Parts();
      lru.Parts();
    }

    // A new node is outside both queues.
    lemma NewOutside(n: ListNode)
      requires Frames() && !Cached(n.id) && n !in fifo.nodes && n !in lru.nodes && n != fifo.head && n != lru.head
      ensures Outside(n) && forall x :: x in lru.nodes ==> x.id != n.id
    {
    }

    // ---------- cache_find ----------

    // A hit in the LRU queue with access: the node becomes the latest.
    method Touch(res: ListNode) returns (err: bool, tofree: ListNode?)
      requires Valid() && res in lru.nodes
      modifies `clock, `used, lru`mp, lru`len, lru`nodes, lru.head`prev, lru.head`next, lru.nodes`prev, lru.nodes`next
      ensures Valid() && !err && tofree == null && lru.nodes == [res] + Without(old(lru.nodes), res)
      ensures lru.mp == old(lru.mp)
    {
      hide Drop, Ring, Indexed, Latest, OrderedIn, Queue.Valid, Frames, Apart, Distinct, AllFresh, Within;
      Shape();
      ghost var ns := lru.nodes;
      assert Fresh(res, store) by { FreshMember(ns, res, store); }
      err, tofree := MoveInLru(res);
      TouchOrdered(fifo.nodes, old(lru.mp), ns, res, born, used, clock);
      WithinFresh(ns, lru.nodes, res, store);
      used, clock := used[res.id := clock], clock + 1;
    }

    // The queue part of a promotion.
    method Requeue(res: ListNode) returns (err: bool, tofree: ListNode?)
      requires Frames() && res in fifo.nodes
      modifies fifo`mp, fifo`len, fifo`nodes, lru`mp, lru`len, lru`nodes
      modifies fifo.head`prev, fifo.head`next, lru.head`prev, lru.head`next, fifo.nodes`prev, fifo.nodes`next,
        lru.nodes`prev, lru.nodes`next
      ensures Frames() && fifo.nodes == Without(old(fifo.nodes), res) && fifo.mp == old(fifo.mp) - {res.id}
      ensures Inserted(old(lru.nodes), old(lru.mp), old(OldestFree(lru.nodes)), res, err, tofree, lru.nodes, lru.mp)
    {
      hide Drop, Ring, Indexed, Queue.Valid, Distinct, Apart, Inserted, Frames;
      Shape();
      err := LeaveFifo(res);
      err, tofree := EnterLru(res);
    }

    // A hit in the FIFO queue with access: the node moves to the LRU queue.  If that is full
    // and everything in it is pinned, the node ends up in neither queue.
    method Promote(res: ListNode) returns (err: bool, tofree: ListNode?)
      requires Valid() && res in fifo.nodes
      modifies `store, `clock, `used, fifo`mp, fifo`len, fifo`nodes, lru`mp, lru`len, lru`nodes
      modifies fifo.head`prev, fifo.head`next, lru.head`prev, lru.head`next, fifo.nodes`prev, fifo.nodes`next,
        lru.nodes`prev, lru.nodes`next
      ensures Valid() && fifo.nodes == Without(old(fifo.nodes), res) && fifo.mp == old(fifo.mp) - {res.id}
      ensures Inserted(old(lru.nodes), old(lru.mp), old(OldestFree(lru.nodes)), res, err, tofree, lru.nodes, lru.mp)
      ensures store == AfterFree(old(store), tofree)
    {
      hide Drop, Ring, Indexed, Latest, OrderedIn, Queue.Valid, Distinct, Frames, Apart, Inserted, AllFresh, Within;
      Shape();
      ghost var fs, fm, ns, m, j := fifo.nodes, fifo.mp, lru.nodes, lru.mp, OldestFree(lru.nodes);
      assert res.id in fm by { MemberIndexed(fm, fs, res); }
      err, tofree := Requeue(res);
      PromoteOrdered(fs, fm, ns, m, j, res, err, tofree, lru.nodes, lru.mp, born, used, clock);
      PromoteFresh(fs, fm, ns, m, j, res, err, tofree, lru.nodes, lru.mp, store);
      if !err {
        used, clock := used[res.id := clock], clock + 1;
        if tofree != null {
          NodeFree(tofree);
        }
      }
    }

    // The second half of cache_find.
    method HitFifo(res: ListNode, access: bool) returns (err: bool)
      requires Valid() && res in fifo.nodes
      modifies `store, `clock, `used, fifo`mp, fifo`len, fifo`nodes, lru`mp, lru`len, lru`nodes
      modifies fifo.head`prev, fifo.head`next, lru.head`prev, lru.head`next, fifo.nodes`prev, fifo.nodes`next,
        lru.nodes`prev, lru.nodes`next
      ensures Valid() && (err <==> access && old(|lru.nodes| == QUEUE_MAX_LEN && OldestFree(lru.nodes) < 0))
      ensures err ==> store == old(store) && !Cached(res.id)
      ensures access ==> fifo.nodes == Without(old(fifo.nodes), res)
      ensures access ==> lru.nodes == AfterInsert(old(lru.nodes), old(OldestFree(lru.nodes)), res)
      ensures !err ==> Cached(res.id) && NodeOf(res.id) == res
      ensures forall id :: View(id) == if err && id == res.id then Source(store, id) else old(View(id))
      ensures forall id :: Cached(id) ==> old(Cached(id)) && NodeOf(id) == old(NodeOf(id))
      ensures forall id :: old(Cached(id) && NodeOf(id).refcnt > 0) && !(err && id == res.id) ==> Cached(id)
      ensures !access ==> store == old(store) && fifo.nodes == old(fifo.nodes) && lru.nodes == old(lru.nodes)
      ensures forall i :: 0 <= i < |fifo.nodes| ==> fifo.nodes[i] in old(fifo.nodes)
      ensures forall x :: Cached(x) || !old(Cached(x)) ==> Source(store, x) == old(Source(store, x))
    {
      hide Drop, Ring, Indexed, Latest, OrderedIn, Queue.Valid, Distinct, Frames, Apart, AllFresh, Seen, AfterFree;
      Shape();
      MemberIndexed(fifo.mp, fifo.nodes, res);
      err := false;
      if access {
        ghost var fm, ns, m, j, st := fifo.mp, lru.nodes, lru.mp, OldestFree(lru.nodes), store;
        ghost var fs := fifo.nodes;
        var tofree;
        err, tofree := Promote(res);
        WithoutMembers(fm, fs, res);
        forall id
          ensures View(id) == if err && id == res.id then Source(st, id) else old(View(id))
        {
          PromoteSeen(fm, ns, m, j, res, err, tofree, lru.nodes, lru.mp, st, id);
        }
        StoreLeaves(ns, m, j, res, err, tofree, lru.nodes, lru.mp, st);
        AfterNothing(st);
      }
    }

    // The first half of cache_find.
    method HitLru(res: ListNode, access: bool) returns (err: bool)
      requires Valid() && res in lru.nodes
      modifies `clock, `used, lru`mp, lru`len, lru`nodes, lru.head`prev, lru.head`next, lru.nodes`prev, lru.nodes`next
      ensures Valid() && !err && lru.mp == old(lru.mp)
      ensures lru.nodes == if access then [res] + Without(old(lru.nodes), res) else old(lru.nodes)
    {
      hide Drop, Ring, Indexed, Latest, OrderedIn, Queue.Valid, Distinct, Frames, Apart, AllFresh, Seen;
      err := false;
      if access {
        var tofree;
        err, tofree := Touch(res);
        assert tofree == null;
      }
    }

    // The id is not in the LRU queue.
    method FindFifo(id: nat, access: bool) returns (res: ListNode?)
      requires Valid() && id !in lru.mp
      modifies `store, `clock, `used, fifo`mp, fifo`len, fifo`nodes, lru`mp, lru`len, lru`nodes
      modifies fifo.head`prev, fifo.head`next, lru.head`prev, lru.head`next, fifo.nodes`prev, fifo.nodes`next,
        lru.nodes`prev, lru.nodes`next
      ensures Valid()
      ensures if old(Cached(id)) && !(access && old(Stuck(id))) then Cached(id) && res == old(NodeOf(id)) else res == null && !Cached(id)
      ensures forall x :: View(x) == if old(Cached(id)) && res == null && x == id then Source(store, id) else old(View(x))
      ensures old(Cached(id)) && res == null ==> store == old(store)
      ensures forall x :: Cached(x) ==> old(Cached(x)) && NodeOf(x) == old(NodeOf(x))
      ensures forall x :: old(Cached(x) && NodeOf(x).refcnt > 0) && !(res == null && x == id) ==> Cached(x)
      ensures !access ==> store == old(store) && fifo.nodes == old(fifo.nodes) && lru.nodes == old(lru.nodes)
      ensures forall i :: 0 <= i < |fifo.nodes| ==> fifo.nodes[i] in old(fifo.nodes)
      ensures access && id in old(fifo.mp) ==> fifo.nodes == Without(old(fifo.nodes), old(fifo.mp[id]))
      ensures access && id in old(fifo.mp) ==>
        lru.nodes == AfterInsert(old(lru.nodes), old(OldestFree(lru.nodes)), old(fifo.mp[id]))
      ensures !old(Cached(id)) ==> fifo.nodes == old(fifo.nodes) && lru.nodes == old(lru.nodes) && store == old(store)
      ensures forall x :: Cached(x) || !old(Cached(x)) ==> Source(store, x) == old(Source(store, x))
    {
      hide Drop, Ring, Indexed, Latest, OrderedIn, Queue.Valid, Distinct, Frames, Apart, AllFresh, Seen, Without,
        Valid, AfterInsert, Source;
      Shape() by { Open(); }
      res := fifo.Search(id);
      if res != null {
        var err := HitFifo(res, access);
        if err {
          res := null;
        }
      }
    }

    /** cache_find.  A node is found exactly if the id is cached, except that a promotion into a
        full LRU queue of pinned nodes loses it; no other content changes. */
    method Find(id: nat, access: bool) returns (res: ListNode?)
      requires Valid()
      modifies `store, `clock, `used, fifo`mp, fifo`len, fifo`nodes, lru`mp, lru`len, lru`nodes
      modifies fifo.head`prev, fifo.head`next, lru.head`prev, lru.head`next, fifo.nodes`prev, fifo.nodes`next,
        lru.nodes`prev, lru.nodes`next
      ensures Valid()
      ensures if old(Cached(id)) && !(access && old(Stuck(id))) then Cached(id) && res == old(NodeOf(id)) else res == null && !Cached(id)
      ensures forall x :: View(x) == if old(Cached(id)) && res == null && x == id then Source(store, id) else old(View(x))
      ensures old(Cached(id)) && res == null ==> store == old(store)
      ensures forall x :: Cached(x) ==> old(Cached(x)) && NodeOf(x) == old(NodeOf(x))
      ensures forall x :: old(Cached(x) && NodeOf(x).refcnt > 0) && !(res == null && x == id) ==> Cached(x)
      ensures !access ==> store == old(store) && fifo.nodes == old(fifo.nodes) && lru.nodes == old(lru.nodes)
      ensures forall i :: 0 <= i < |fifo.nodes| ==> fifo.nodes[i] in old(fifo.nodes)
      ensures access && id in old(lru.mp) ==>
        fifo.nodes == old(fifo.nodes) && lru.nodes == [res] + Without(old(lru.nodes), res)
      ensures access && id in old(fifo.mp) ==> fifo.nodes == Without(old(fifo.nodes), old(fifo.mp[id]))
      ensures access && id in old(fifo.mp) ==>
        lru.nodes == AfterInsert(old(lru.nodes), old(OldestFree(lru.nodes)), old(fifo.mp[id]))
      ensures !old(Cached(id)) ==> fifo.nodes == old(fifo.nodes) && lru.nodes == old(lru.nodes) && store == old(store)
      ensures forall x :: Cached(x) || !old(Cached(x)) ==> Source(store, x) == old(Source(store, x))
    {
      hide Drop, Ring, Indexed, Latest, OrderedIn, Queue.Valid, Distinct, Frames, Apart, AllFresh, Seen, Without,
        Valid, AfterInsert, Source;
      Shape() by { Open(); }
      res := lru.Search(id);
      if res != null {
        var err := HitLru(res, access);
        return if err then null else res;
      }
      res := FindFifo(id, access);
    }

    lemma Open()
      requires Valid()
      ensures Frames() && Ordered() && AllFresh(fifo.nodes, store) && AllFresh(lru.nodes, store)
    {
    }

    // The id waits in the FIFO queue while the LRU queue is full of pinned nodes.
    ghost predicate Stuck(id: nat)
      reads lru, lru.nodes`refcnt
    {
      id !in lru.mp && |lru.nodes| == QUEUE_MAX_LEN && OldestFree(lru.nodes) < 0
    }

    // A new node enters the FIFO queue.
    method Admit(node: ListNode) returns (err: bool, tofree: ListNode?)
      requires Valid() && Outside(node) && node.content == None && !node.dirty && forall x :: x in lru.nodes ==> x.id != node.id
      modifies `store, `clock, `born, fifo`mp, fifo`len, fifo`nodes
      modifies fifo.head`prev, fifo.head`next, fifo.nodes`prev, fifo.nodes`next, node`prev, node`next
      ensures Valid() && store == AfterFree(old(store), tofree)
      ensures Inserted(old(fifo.nodes), old(fifo.mp), old(OldestFree(fifo.nodes)), node, err, tofree, fifo.nodes, fifo.mp)
    {
      hide Drop, Ring, Indexed, Latest, OrderedIn, Queue.Valid, Distinct, Frames, Apart, AllFresh, Seen, Inserted;
      Shape();
      ghost var ns, m, j, st := fifo.nodes, fifo.mp, OldestFree(fifo.nodes), store;
      err, tofree := EnterFifo(node);
      InsertOrdered(ns, m, j, node, err, tofree, fifo.nodes, fifo.mp, lru.nodes, born, used, clock);
      InsertFresh(ns, m, j, node, err, tofree, fifo.nodes, fifo.mp, lru.nodes, lru.mp, store);
      if !err {
        born, clock := born[node.id := clock], clock + 1;
        if tofree != null {
          NodeFree(tofree);
        }
      }
    }

    /** cache_insert_get: a node for an id that is not cached, held once and still empty. */
    method InsertGet(id: nat) returns (res: ListNode?)
      requires Valid() && !Cached(id)
      modifies `store, `clock, `born, fifo`mp, fifo`len, fifo`nodes
      modifies fifo.head`prev, fifo.head`next, fifo.nodes`prev, fifo.nodes`next
      ensures Valid() && forall x :: View(x) == old(View(x))
      ensures res == null ==> !Cached(id) && fifo.nodes == old(fifo.nodes)
      ensures res == null <==> old(|fifo.nodes| == QUEUE_MAX_LEN && OldestFree(fifo.nodes) < 0)
      ensures res != null ==> fifo.nodes == AfterInsert(old(fifo.nodes), old(OldestFree(fifo.nodes)), res) && lru.nodes == old(lru.nodes)
      ensures res != null ==>
        fresh(res) && res.id == id && Cached(id) && NodeOf(id) == res && res.refcnt == 1 && !res.dirty && res.content == None
      ensures forall x :: Cached(x) && x != id ==> old(Cached(x)) && NodeOf(x) == old(NodeOf(x))
      ensures forall x :: old(Cached(x) && NodeOf(x).refcnt > 0) ==> Cached(x)
      ensures forall x :: Cached(x) || !old(Cached(x)) ==> Source(store, x) == old(Source(store, x))
    {
      hide Drop, Ring, Indexed, Latest, OrderedIn, Queue.Valid, Distinct, Apart, AllFresh, Seen, AfterFree;
      var node := new ListNode(id);
      NewOutside(node);
      Shape();
      ghost var ns, m, j, st := fifo.nodes, fifo.mp, OldestFree(fifo.nodes), store;
      var err, tofree := Admit(node);
      forall x
        ensures View(x) == old(View(x))
      {
        InsertSeen(ns, m, j, node, err, tofree, fifo.nodes, fifo.mp, lru.mp, st, x);
      }
      StoreLeaves(ns, m, j, node, err, tofree, fifo.nodes, fifo.mp, st);
      res := if err then null else node;
    }

    // Every cached node has been filled by the caller that inserted it.
    ghost predicate Filled()
      reads fifo, lru, (set i | i in fifo.mp :: fifo.mp[i])`content, (set i | i in lru.mp :: lru.mp[i])`content
    {
      forall id :: Cached(id) ==> NodeOf(id).content.Some?
    }

    lemma NodeIsListed(id: nat)
      requires Frames() && Cached(id)
      ensures NodeOf(id) in fifo.nodes || NodeOf(id) in lru.nodes
      ensures NodeOf(id).id == id
    {
    }

    /** cache_try_get: a node that is found is held once more. */
    method TryGet(id: nat, access: bool) returns (res: ListNode?)
      requires Valid()
      modifies `store, `clock, `used, fifo`mp, fifo`len, fifo`nodes, lru`mp, lru`len, lru`nodes
      modifies fifo.head`prev, fifo.head`next, lru.head`prev, lru.head`next, fifo.nodes`prev, fifo.nodes`next,
        lru.nodes`prev, lru.nodes`next
      modifies fifo.nodes`refcnt, lru.nodes`refcnt
      ensures Valid()
      ensures if old(Cached(id)) && !(access && old(Stuck(id))) then Cached(id) && res == old(NodeOf(id)) else res == null && !Cached(id)
      ensures forall x :: View(x) == if old(Cached(id)) && res == null && x == id then Source(store, id) else old(View(x))
      ensures old(Cached(id)) && res == null ==> store == old(store)
      ensures forall x :: Cached(x) ==> old(Cached(x)) && NodeOf(x) == old(NodeOf(x))
      ensures forall i :: 0 <= i < |fifo.nodes| ==> fifo.nodes[i] in old(fifo.nodes)
      ensures forall x :: Cached(x) ==> NodeOf(x).refcnt == old(NodeOf(x).refcnt) + (if x == id then 1 else 0)
      ensures forall x :: old(Cached(x) && NodeOf(x).refcnt > 0) && !(res == null && x == id) ==> Cached(x)
      ensures res == null ==> forall n :: n in old(fifo.nodes) ==> n.refcnt == old(n.refcnt)
      ensures !access || !old(Cached(id)) ==>
        store == old(store) && fifo.nodes == old(fifo.nodes) && lru.nodes == old(lru.nodes)
      ensures access && id in old(lru.mp) ==>
        fifo.nodes == old(fifo.nodes) && lru.nodes == [res] + Without(old(lru.nodes), res)
      ensures access && id in old(fifo.mp) ==> fifo.nodes == Without(old(fifo.nodes), old(fifo.mp[id]))
      ensures access && id in old(fifo.mp) ==>
        lru.nodes == AfterInsert(old(lru.nodes), old(OldestFree(lru.nodes)), old(fifo.mp[id]))
      ensures forall x :: Cached(x) || !old(Cached(x)) ==> Source(store, x) == old(Source(store, x))
    {
      hide Drop, Ring, Indexed, Latest, OrderedIn, Queue.Valid, Distinct, Frames, Apart, AllFresh, Seen;
      if Cached(id) { NodeIsListed(id); }
      res := Find(id, access);
      if res != null {
        forall x | Cached(x)
          ensures NodeOf(x).id == x
        {
          NodeIsListed(x);
        }
        res.refcnt := res.refcnt + 1;
      }
    }

    // The caller fills a node it has just inserted.
    method Load(res: ListNode)
      requires Valid() && Cached(res.id) && NodeOf(res.id) == res && res.content == None
      modifies res`content
      ensures Valid() && res.content == Some(Source(store, res.id)) && forall x :: View(x) == old(View(x))
    {
      hide Ring, Indexed, OrderedIn, Queue.Valid, Distinct, Frames, Apart;
      NodeIsListed(res.id);
      assert Fresh(res, store);
      res.content := Some(if res.id in store then store[res.id] else []);
      forall x
        ensures View(x) == old(View(x))
      {
        if Cached(x) { NodeIsListed(x); }
      }
    }

    // The part of bget_from_cache_lock for an id that is not cached.
    method BgetMiss(id: nat) returns (res: ListNode?)
      requires Valid() && Filled() && !Cached(id)
      modifies `store, `clock, `born, fifo`mp, fifo`len, fifo`nodes
      modifies fifo.head`prev, fifo.head`next, fifo.nodes`prev, fifo.nodes`next
      ensures Valid() && Filled() && forall x :: View(x) == old(View(x))
      ensures res != null ==> Cached(id) && NodeOf(id) == res && res.refcnt == 1 && res.content == Some(View(id))
      ensures res == null <==> old(|fifo.nodes| == QUEUE_MAX_LEN && OldestFree(fifo.nodes) < 0)
      ensures res == null ==> fifo.nodes == old(fifo.nodes)
      ensures res != null ==> fifo.nodes == AfterInsert(old(fifo.nodes), old(OldestFree(fifo.nodes)), res)
      ensures forall x :: Cached(x) || !old(Cached(x)) ==> Source(store, x) == old(Source(store, x))
      ensures forall x :: Cached(x) && x != id ==> old(Cached(x)) && NodeOf(x) == old(NodeOf(x))
      ensures forall x :: old(Cached(x) && NodeOf(x).refcnt > 0) && x != id ==> Cached(x)
    {
      hide Drop, Ring, Indexed, Latest, OrderedIn, Queue.Valid, Distinct, Frames, Apart, AllFresh, Source, Valid,
        AfterInsert, OldestFree, Held;
      res := InsertGet(id);
      if res != null {
        Load(res);
      }
    }

    /** bget_from_cache_lock: the node returned is held once more and has the current content of the
        id, unless the id had to be promoted while the LRU queue was stuck.  As for the other ids,
        nodes that are not held may leave, and the store changes for these only. */
    method Bget(id: nat) returns (res: ListNode?)
      requires Valid() && Filled()
      modifies `store, `clock, `used, `born, fifo`mp, fifo`len, fifo`nodes, lru`mp, lru`len, lru`nodes
      modifies fifo.head`prev, fifo.head`next, lru.head`prev, lru.head`next, fifo.nodes`prev, fifo.nodes`next,
        lru.nodes`prev, lru.nodes`next
      modifies fifo.nodes`refcnt, lru.nodes`refcnt
      ensures Valid() && Filled()
      ensures res == null <==> old(!Cached(id) && |fifo.nodes| == QUEUE_MAX_LEN && OldestFree(fifo.nodes) < 0)
      ensures res != null ==> Cached(id) && NodeOf(id) == res && res.content == Some(View(id))
      ensures res != null ==> res.refcnt == (if old(Cached(id) && !Stuck(id)) then old(NodeOf(id).refcnt) else 0) + 1
      ensures forall x :: View(x) == if old(Cached(id) && Stuck(id)) && x == id then old(Source(store, id)) else old(View(x))
      ensures forall x :: Cached(x) || !old(Cached(x)) ==> Source(store, x) == old(Source(store, x))
      ensures forall x :: Cached(x) && x != id ==>
        old(Cached(x)) && NodeOf(x) == old(NodeOf(x)) && NodeOf(x).refcnt == old(NodeOf(x).refcnt)
      ensures forall x :: old(Cached(x) && NodeOf(x).refcnt > 0) && x != id ==> Cached(x)
      ensures Shifted(old(fifo.nodes), old(fifo.mp), old(OldestFree(fifo.nodes)), old(lru.nodes), old(lru.mp),
        old(OldestFree(lru.nodes)), id, res, fifo.nodes, lru.nodes)
    {
      hide Drop, Ring, Indexed, Latest, OrderedIn, Queue.Valid, Distinct, Frames, Apart, AllFresh, Source, Valid,
        AfterInsert, Without, OldestFree, Shifted;
      ghost var fs, fm, j, ls, lm, k := fifo.nodes, fifo.mp, OldestFree(fifo.nodes), lru.nodes, lru.mp,
                                                                        OldestFree(lru.nodes);
      Listed(id);
      res := TryGet(id, true);
      ghost var fs1 := fifo.nodes;
      if res == null {
        SameOldest(fs1);
        ghost var j1 := OldestFree(fs1);
        res := BgetMiss(id);
        MissShifted(fs, fm, j, ls, lm, k, id, fs1, j1, lru.nodes, res, fifo.nodes);
      } else {
        HitShifted(fs, fm, j, ls, lm, k, id, res, fs1, lru.nodes);
      }
    }

    // Of an id in the FIFO queue: its node, and what happens to it when the id is stuck.
    lemma Listed(id: nat)
      requires Valid()
      ensures fifo != lru && |fifo.nodes| <= QUEUE_MAX_LEN && (id in lru.mp ==> lru.mp[id] in lru.nodes)
      ensures id in fifo.mp ==> fifo.mp[id] in fifo.nodes && id !in lru.mp && |Without(fifo.nodes, fifo.mp[id])| == |fifo.nodes| - 1
      ensures id in fifo.mp && Stuck(id) ==> AfterInsert(lru.nodes, OldestFree(lru.nodes), fifo.mp[id]) == lru.nodes
    {
      Open();
      Shape();
      fifo.Parts();
    }

    /** The holder of a node overwrites its content and calls cache_make_dirty. */
    method Put(id: nat, data: Bytes)
      requires Valid() && Filled() && Cached(id)
      modifies `store, `clock, `used, fifo`mp, fifo`len, fifo`nodes, lru`mp, lru`len, lru`nodes
      modifies fifo.head`prev, fifo.head`next, lru.head`prev, lru.head`next, fifo.nodes`prev, fifo.nodes`next,
        lru.nodes`prev, lru.nodes`next
      modifies NodeOf(id)`content, NodeOf(id)`dirty
      ensures Valid() && Filled() && Cached(id) && NodeOf(id).dirty
      ensures forall x :: View(x) == if x == id then data else old(View(x))
      ensures store == old(store) && fifo.nodes == old(fifo.nodes) && lru.nodes == old(lru.nodes)
    {
      hide Drop, Ring, Indexed, Latest, OrderedIn, Queue.Valid, Distinct, Frames, Apart, Source, Stuck;
      var node := Find(id, false);
      node.content, node.dirty := Some(data), true;
      forall x
        ensures View(x) == if x == id then data else old(View(x))
      {
        NodeIsListed(id);
        if Cached(x) { NodeIsListed(x); }
      }
    }

    /** cache_return */
    method Return(id: nat)
      requires Valid() && Cached(id) && NodeOf(id).refcnt > 0
      modifies `store, `clock, `used, fifo`mp, fifo`len, fifo`nodes, lru`mp, lru`len, lru`nodes
      modifies fifo.head`prev, fifo.head`next, lru.head`prev, lru.head`next, fifo.nodes`prev, fifo.nodes`next,
        lru.nodes`prev, lru.nodes`next
      modifies NodeOf(id)`refcnt
      ensures Valid() && Cached(id) && NodeOf(id) == old(NodeOf(id)) && NodeOf(id).refcnt == old(NodeOf(id).refcnt) - 1
      ensures forall x :: View(x) == old(View(x))
      ensures store == old(store) && fifo.nodes == old(fifo.nodes) && lru.nodes == old(lru.nodes)
    {
      hide Drop, Ring, Indexed, Latest, OrderedIn, Queue.Valid, Distinct, Frames, Apart, AllFresh, Seen, Source, Stuck;
      var node := Find(id, false);
      node.refcnt := node.refcnt - 1;
    }

    // Every node of a queue is written back, from the first to the last.
    method ExitQueue(q: Queue)
      requires q.Valid() && AllFresh(q.nodes, store)
      modifies `store
      ensures forall id :: Source(store, id) == One(q.mp, old(store), id)
    {
      hide Drop, Source, Fresh, Distinct, Indexed;
      q.Parts();
      ghost var ns, m, k := q.nodes, q.mp, 0;
      assert Joint(q.head, q.nodes, 0);
      var p := q.head.next;
      while p != q.head
        invariant 0 <= k <= |q.nodes| && ns == q.nodes[k..] && p == At(q.head, q.nodes, k + 1)
        invariant Distinct(ns) && Indexed(m, ns) && AllFresh(ns, store)
        invariant forall id :: One(m, store, id) == One(q.mp, old(store), id)
        decreases |ns|
      {
        assert Joint(q.head, q.nodes, k + 1);
        var tmp := p.next;
        ghost var st := store;
        ExitStep(ns, m, st);
        NodeFree(p);
        ns, m, k := ns[1..], m - {p.id}, k + 1;
        p := tmp;
      }
      ExitEnd(m, ns);
    }

    /** cache_exit: afterwards the store holds the current content of every id. */
    method Exit()
      requires Valid()
      modifies `store
      ensures forall id :: Source(store, id) == old(View(id))
    {
      hide Source, Fresh, Distinct, Indexed, Ring, AllFresh, OrderedIn;
      Shape();
      ghost var st := store;
      ExitQueue(fifo);
      FifoGone(st, store);
      ExitQueue(lru);
    }

    // Once the FIFO queue has been written back, the LRU queue is still in step with the store,
    // and the two together say what they said before.
    lemma FifoGone(st: map<nat, Bytes>, st': map<nat, Bytes>)
      requires Frames() && AllFresh(lru.nodes, st) && forall id :: Source(st', id) == One(fifo.mp, st, id)
      ensures AllFresh(lru.nodes, st') && forall id :: One(lru.mp, st', id) == Seen(fifo.mp, lru.mp, st, id)
    {
      hide Source;
    }
  }

  // An insertion into the FIFO queue keeps both orders.
  lemma InsertOrdered(fs: seq<ListNode>, fm: map<nat, ListNode>, j: int, n: ListNode, err: bool, out: ListNode?,
                      fs': seq<ListNode>, fm': map<nat, ListNode>, ls: seq<ListNode>, born: Stamps, used: Stamps, now: nat)
    requires OrderedIn(fs, ls, born, used, now) && Distinct(fs) && Indexed(fm, fs) && n.id !in fm
    requires j < |fs| && Inserted(fs, fm, j, n, err, out, fs', fm') && forall x :: x in ls ==> x.id != n.id
    ensures OrderedIn(fs', ls, if err then born else born[n.id := now], used, if err then now else now + 1)
  {
    InsertLatest(fs, fm, j, n, err, out, fs', fm', born, now);
    LaterLatest(ls, used, now);
  }

  lemma InsertFresh(fs: seq<ListNode>, fm: map<nat, ListNode>, j: int, n: ListNode, err: bool, out: ListNode?,
                    fs': seq<ListNode>, fm': map<nat, ListNode>, ls: seq<ListNode>, lm: map<nat, ListNode>, st: map<nat, Bytes>)
    requires Distinct(fs) && Indexed(fm, fs) && n.id !in fm && AllFresh(fs, st) && AllFresh(ls, st) && Fresh(n, st)
    requires j < |fs| && Inserted(fs, fm, j, n, err, out, fs', fm') && Indexed(lm, ls) && forall id :: id in fm ==> id !in lm
    ensures err ==> out == null && fs' == fs
    ensures AllFresh(fs', AfterFree(st, out)) && AllFresh(ls, AfterFree(st, out))
    ensures out != null && out.dirty ==> out.content.Some?
  {
    hide Drop, Source, Fresh;
    InsertedWithin(fs, fm, j, n, err, out, fs', fm');
    if out != null {
      Survivors(fs, fm, j, n, err, out, fs', fm');
      FreeFresh(fs', out, st);
      FreeFresh(ls, out, st);
    }
  }

  // Inserting an empty node for an id that is not cached changes no content.
  lemma InsertSeen(fs: seq<ListNode>, fm: map<nat, ListNode>, j: int, n: ListNode, err: bool, out: ListNode?,
                   fs': seq<ListNode>, fm': map<nat, ListNode>, lm: map<nat, ListNode>, st: map<nat, Bytes>, id: nat)
    requires Distinct(fs) && Indexed(fm, fs) && n.id !in fm && n.id !in lm && AllFresh(fs, st) && n.content == None
    requires j < |fs| && Inserted(fs, fm, j, n, err, out, fs', fm') && forall x :: x in fm ==> x !in lm
    ensures Seen(fm', lm, AfterFree(st, out), id) == Seen(fm, lm, st, id)
  {
    if out != null {
      Survivors(fs, fm, j, n, err, out, fs', fm');
      assert Fresh(out, st);
    }
  }

  lemma AfterNothing(st: map<nat, Bytes>)
    ensures AfterFree(st, null) == st
  {
  }

  /** A promotion that succeeds changes no content.  One that fails leaves the id uncached:
      its content reverts to what the store holds. */
  lemma PromoteSeen(fm: map<nat, ListNode>, ns: seq<ListNode>, m: map<nat, ListNode>, j: int, n: ListNode,
                    err: bool, out: ListNode?, ns': seq<ListNode>, m': map<nat, ListNode>, st: map<nat, Bytes>, id: nat)
    requires n.id in fm && fm[n.id] == n && n.id !in m && AllFresh(ns, st)
    requires j < |ns| && Distinct(ns) && Indexed(m, ns) && Inserted(ns, m, j, n, err, out, ns', m')
    requires forall x :: x in fm ==> x !in m
    ensures Seen(fm - {n.id}, m', AfterFree(st, out), id) ==
      if err && id == n.id then Source(st, id) else Seen(fm, m, st, id)
  {
    if out != null {
      Survivors(ns, m, j, n, err, out, ns', m');
      assert Fresh(out, st);
    }
  }

  /** So a failed promotion is harmless if and only if the node held what the store holds. */
  lemma LostPromotionIff(fm: map<nat, ListNode>, m: map<nat, ListNode>, n: ListNode, st: map<nat, Bytes>)
    requires n.id in fm && fm[n.id] == n && n.id !in m
    ensures (forall id :: Seen(fm - {n.id}, m, st, id) == Seen(fm, m, st, id)) <==>
      (n.content == None || n.content.value == Source(st, n.id))
    ensures Fresh(n, st) && !n.dirty ==> forall id :: Seen(fm - {n.id}, m, st, id) == Seen(fm, m, st, id)
  {
    assert Seen(fm - {n.id}, m, st, n.id) == Source(st, n.id);
    assert Seen(fm, m, st, n.id) == Held(n, st, n.id);
  }

  /** What an access to an id does to the FIFO list fs, whose oldest free node is at j, and to the LRU
      list ls, whose oldest free node is at k: res is the node that is returned. */
  ghost predicate Shifted(fs: seq<ListNode>, fm: map<nat, ListNode>, j: int, ls: seq<ListNode>, lm: map<nat, ListNode>,
                          k: int, id: nat, res: ListNode?, fs': seq<ListNode>, ls': seq<ListNode>)
    requires j < |fs| && k < |ls|
  {
    if id in lm then lm[id] in ls && res == lm[id] && fs' == fs && ls' == [lm[id]] + Without(ls, lm[id])
    else if id in fm && |ls| == QUEUE_MAX_LEN && k < 0 then
      fm[id] in fs && res != null && fs' == [res] + Without(fs, fm[id]) && ls' == ls
    else if id in fm then fm[id] in fs && res == fm[id] && fs' == Without(fs, fm[id]) && ls' == AfterInsert(ls, k, fm[id])
    else ls' == ls && fs' == if res == null then fs else AfterInsert(fs, j, res)
  }

  // A hit.
  lemma HitShifted(fs: seq<ListNode>, fm: map<nat, ListNode>, j: int, ls: seq<ListNode>, lm: map<nat, ListNode>,
                   k: int, id: nat, res: ListNode, fs': seq<ListNode>, ls': seq<ListNode>)
    requires j < |fs| && k < |ls| && (id in lm || (id in fm && !(|ls| == QUEUE_MAX_LEN && k < 0)))
    requires id in lm ==> lm[id] in ls && res == lm[id] && fs' == fs && ls' == [res] + Without(ls, lm[id])
    requires id in fm && id !in lm ==>
      fm[id] in fs && res == fm[id] && fs' == Without(fs, fm[id]) && ls' == AfterInsert(ls, k, fm[id])
    ensures Shifted(fs, fm, j, ls, lm, k, id, res, fs', ls')
  {
  }

  // A miss, or a promotion that has failed: the list fs1 is left, and the node enters it again.
  lemma MissShifted(fs: seq<ListNode>, fm: map<nat, ListNode>, j: int, ls: seq<ListNode>, lm: map<nat, ListNode>,
                    k: int, id: nat, fs1: seq<ListNode>, j1: int, ls': seq<ListNode>, res: ListNode?, fs': seq<ListNode>)
    requires j < |fs| <= QUEUE_MAX_LEN && k < |ls| && j1 < |fs1| && id !in lm
    requires id in fm ==> |ls| == QUEUE_MAX_LEN && k < 0 && fm[id] in fs && fs1 == Without(fs, fm[id]) && ls' == AfterInsert(ls, k, fm[id])
    requires id !in fm ==> fs1 == fs && ls' == ls && j1 == j
    requires fs' == if res == null then fs1 else AfterInsert(fs1, j1, res)
    requires res == null <==> |fs1| == QUEUE_MAX_LEN && j1 < 0
    ensures Shifted(fs, fm, j, ls, lm, k, id, res, fs', ls')
    ensures res == null <==> id !in fm && |fs| == QUEUE_MAX_LEN && j < 0
  {
  }

  // The oldest free node is the same as long as nobody takes or returns a node of the list.
  twostate lemma SameOldest(ns: seq<ListNode>)
    requires forall n :: n in ns ==> n.refcnt == old(n.refcnt)
    ensures OldestFree(ns) == old(OldestFree(ns))
  {
    OldestUnique(ns, old(OldestFree(ns)));
  }

  // What node_free leaves in the store.
  ghost function AfterFree(st: map<nat, Bytes>, out: ListNode?): map<nat, Bytes>
    reads if out == null then {} else {out}
  {
    if out != null && out.dirty && out.content.Some? then st[out.id := out.content.value] else st
  }

  // The store changes only for a node that leaves the queue.
  lemma StoreLeaves(ns: seq<ListNode>, m: map<nat, ListNode>, j: int, n: ListNode, err: bool, out: ListNode?,
                    ns': seq<ListNode>, m': map<nat, ListNode>, st: map<nat, Bytes>)
    requires j < |ns| && Indexed(m, ns) && n.id !in m && Inserted(ns, m, j, n, err, out, ns', m')
    ensures forall id :: id in m' || id !in m ==> Source(AfterFree(st, out), id) == Source(st, id)
  {
    hide Drop;
    if out != null { assert out in ns; }
  }

  lemma MemberIndexed(mp: map<nat, ListNode>, ns: seq<ListNode>, n: ListNode)
    requires Indexed(mp, ns) && n in ns
    ensures n.id in mp && mp[n.id] == n
  {
  }

  lemma FreshMember(ns: seq<ListNode>, n: ListNode, st: map<nat, Bytes>)
    requires AllFresh(ns, st) && n in ns
    ensures Fresh(n, st)
  {
  }

  lemma PromoteFresh(fs: seq<ListNode>, fm: map<nat, ListNode>, ns: seq<ListNode>, m: map<nat, ListNode>, j: int,
                     n: ListNode,
                     err: bool, out: ListNode?, ns': seq<ListNode>, m': map<nat, ListNode>, st: map<nat, Bytes>)
    requires Distinct(fs) && Indexed(fm, fs) && n in fs && AllFresh(fs, st) && AllFresh(ns, st)
    requires j < |ns| && Distinct(ns) && Indexed(m, ns) && Inserted(ns, m, j, n, err, out, ns', m')
    requires forall id :: id in fm ==> id !in m
    ensures err ==> out == null && ns' == ns
    ensures AllFresh(Without(fs, n), AfterFree(st, out)) && AllFresh(ns', AfterFree(st, out))
    ensures out != null && out.dirty ==> out.content.Some?
  {
    hide Drop, Source, Fresh;
    WithoutMembers(fm, fs, n);
    InsertedWithin(ns, m, j, n, err, out, ns', m');
    if out != null {
      Survivors(ns, m, j, n, err, out, ns', m');
      FreeFresh(Without(fs, n), out, st);
      FreeFresh(ns', out, st);
    }
  }

  lemma FreeFresh(ns: seq<ListNode>, out: ListNode, st: map<nat, Bytes>)
    requires Fresh(out, st) && forall n :: n in ns ==> Fresh(n, st) && n.id != out.id
    ensures AllFresh(ns, AfterFree(st, out)) && (out.dirty ==> out.content.Some?)
  {
  }

  // Promotion keeps both orders.
  lemma PromoteOrdered(fs: seq<ListNode>, fm: map<nat, ListNode>, ns: seq<ListNode>, m: map<nat, ListNode>, j: int,
                       n: ListNode,
                       err: bool, out: ListNode?, ns': seq<ListNode>, m': map<nat, ListNode>, born: Stamps, used: Stamps, now: nat)
    requires OrderedIn(fs, ns, born, used, now) && Distinct(fs) && Indexed(fm, fs) && n in fs
    requires j < |ns| && Distinct(ns) && Indexed(m, ns) && Inserted(ns, m, j, n, err, out, ns', m') && n.id !in m
    ensures OrderedIn(Without(fs, n), ns', born, if err then used else used[n.id := now], if err then now else now + 1)
    ensures Within(fs, Without(fs, n), n)
  {
    hide Distinct;
    WithoutMembers(fm, fs, n);
    DropLatest(fs, IndexOf(fs, n), born, now);
    LaterLatest(Without(fs, n), born, now);
    InsertedWithin(ns, m, j, n, err, out, ns', m');
    InsertLatest(ns, m, j, n, err, out, ns', m', used, now);
  }

  lemma LaterLatest(ns: seq<ListNode>, at: Stamps, now: nat)
    requires Latest(ns, at, now)
    ensures Latest(ns, at, now + 1)
  {
  }

  // An insertion stamped now keeps a queue in order.
  lemma InsertLatest(ns: seq<ListNode>, m: map<nat, ListNode>, j: int, n: ListNode,
                     err: bool, out: ListNode?, ns': seq<ListNode>, m': map<nat, ListNode>, at: Stamps, now: nat)
    requires j < |ns| && Distinct(ns) && Indexed(m, ns) && Inserted(ns, m, j, n, err, out, ns', m') && n.id !in m
    requires Latest(ns, at, now)
    ensures Latest(ns', if err then at else at[n.id := now], if err then now else now + 1)
  {
    hide Latest;
    if |ns| < QUEUE_MAX_LEN {
      PushLatest(ns, n, at, now);
    } else if j >= 0 {
      DropMembers(ns, j);
      DropLatest(ns, j, at, now);
      PushLatest(Drop(ns, j), n, at, now);
    }
  }

  // The node that had to leave, and the others.
  lemma Survivors(ns: seq<ListNode>, m: map<nat, ListNode>, j: int, n: ListNode,
                  err: bool, out: ListNode?, ns': seq<ListNode>, m': map<nat, ListNode>)
    requires j < |ns| && Distinct(ns) && Indexed(m, ns) && Inserted(ns, m, j, n, err, out, ns', m') && n.id !in m
    requires out != null
    ensures out in ns && out.id in m && m[out.id] == out && out.id != n.id
    ensures forall x :: x in ns' ==> x == n || (x in ns && x.id != out.id)
  {
    DropMembers(ns, j);
  }

  lemma InsertedWithin(ns: seq<ListNode>, m: map<nat, ListNode>, j: int, n: ListNode,
                       err: bool, out: ListNode?, ns': seq<ListNode>, m': map<nat, ListNode>)
    requires j < |ns| && Distinct(ns) && Indexed(m, ns) && Inserted(ns, m, j, n, err, out, ns', m')
    ensures Within(ns, ns', n) && forall i :: 0 <= i < |ns'| ==> ns'[i] == n || ns'[i] in ns
    ensures forall id :: id in m' ==> id == n.id || id in m
  {
    if |ns| == QUEUE_MAX_LEN && j >= 0 { DropMembers(ns, j); }
  }
}
