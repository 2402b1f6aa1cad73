/** Routes that need not be true: every route that a transfer hands out stays inside its file, and
    what the flush makes of one that is left over from the block before. */
module Misroutes {
  import opened Layout
  import opened Blocks
  import opened Crypto
  import opened Merkle
  import opened MerkleSteps
  import opened Mending
  import opened Routes
  import opened Relations
  import opened Carrying
  import opened Flush
  import opened Cascading
  import opened StaleRoutes

  // ---------- handed routes stay inside the file ----------

  // An empty entry, or one of an index block of file i.
  ghost predicate EntryOk(A: Tree, i: nat, e: HashIdx) {
    e.id == 0 || (IsInner(A, i, e.id) && e.idx < INDEX_PER_BLOCK)
  }

  // Behind its first entry the array holds n - 1 entries of file i.
  ghost predicate Tail(A: Tree, i: nat, left: Route, n: nat) {
    |left| == 4 && forall m :: 1 <= m < 4 ==> (left[m].id != 0 <==> m < n) && EntryOk(A, i, left[m])
  }

  lemma ClearTail(A: Tree, i: nat)
    ensures Tail(A, i, LeftOver0(), 1)
  {
  }

  lemma TrueTail(A: Tree, a: Addr)
    requires Numbered(A) && a in A && HasPrefixes(A, a)
    ensures Tail(A, a.iid, TrueRoute(A, a), |a.path|)
  {
    var r := TrueRoute(A, a);
    assert ValidPath(a.path);
    forall m | 1 <= m < 4
      ensures (r[m].id != 0 <==> m < |a.path|) && EntryOk(A, a.iid, r[m])
    {
      if m < |a.path| {
        var x := Addr(a.iid, a.path[..m]);
        assert x in A && A[x] != 0 && x.path[0] == a.path[0];
        assert Inner(A, x, a.iid, r[m].id);
      }
    }
  }

  lemma HandedSensible(s: State, A: Tree, a: Addr, left: Route, n: nat, d: nat)
    requires Numbered(A) && a in A && HasPrefixes(A, a) && a.iid in s.ino && |s.ino[a.iid].hash| == NSLOTS
    requires Tail(A, a.iid, left, n) && 0 < d <= |a.path|
    ensures Sensible(s, A, Handed(A, a, left, d))
  {
    hide IsInner;
    TrueTail(A, a);
    assert ValidPath(a.path);
    var r, t := Handed(A, a, left, d), TrueRoute(A, a);
    assert r[0] == HashIdx(a.iid, a.path[0]);
    forall m | 1 <= m <= Deepest(r)
      ensures IsInner(A, a.iid, r[m].id) && r[m].idx < INDEX_PER_BLOCK
    {
      if m < d {
        assert r[m] == t[m] && t[m].id != 0;
      } else {
        assert r[Deepest(r)] == left[Deepest(r)];
        assert r[m] == left[m] && m < n;
      }
    }
  }

  lemma LeftOverTail(A: Tree, i: nat, b0: nat, q: nat) returns (n: nat)
    requires Numbered(A) && b0 <= q && Exist(A, i, b0, q)
    ensures Tail(A, i, LeftOver(A, i, b0, q), n)
  {
    if q == b0 {
      n := 1;
      ClearTail(A, i);
    } else {
      var prev := Leaf(i, q - 1);
      assert prev in A && HasPrefixes(A, prev);
      n := |prev.path|;
      TrueTail(A, prev);
    }
  }

  ghost predicate PairsSensible(s: State, A: Tree, X: Pairs) {
    forall p :: p in X ==> Sensible(s, A, p.1)
  }

  lemma RoundSensible(s: State, A: Tree, a: Addr, left: Route, n: nat)
    requires Numbered(A) && a in A && HasPrefixes(A, a) && a.iid in s.ino && |s.ino[a.iid].hash| == NSLOTS
    requires Tail(A, a.iid, left, n)
    ensures PairsSensible(s, A, RoundPairs(A, a, left, |a.path| + 1))
  {
    hide Sensible, Handed, Tail;
    assert |left| == 4 by { TailSize(A, a.iid, left, n); }
    forall p | p in RoundPairs(A, a, left, |a.path| + 1)
      ensures Sensible(s, A, p.1)
    {
      var d :| 0 < d < |a.path| + 1 && p == (A[StageIn(A, a, d)], Handed(A, a, left, d));
      HandedSensible(s, A, a, left, n, d);
    }
  }

  lemma TailSize(A: Tree, i: nat, left: Route, n: nat)
    requires Tail(A, i, left, n)
    ensures |left| == 4
  {
  }

  lemma {:induction false} DealtSensible(s: State, A: Tree, i: nat, b0: nat, q: nat)
    requires Numbered(A) && b0 <= q && Exist(A, i, b0, q) && i in s.ino && |s.ino[i].hash| == NSLOTS
    ensures PairsSensible(s, A, Dealt(A, i, b0, q))
    decreases q
  {
    hide RoundPairs, Numbered, PathOf, LeftOver, HasPrefixes, Sensible, Tail;
    if q > b0 {
      DealtSensible(s, A, i, b0, q - 1);
      var n := LeftOverTail(A, i, b0, q - 1);
      RoundSensible(s, A, Leaf(i, q - 1), LeftOver(A, i, b0, q - 1), n);
    }
  }

  /** Every cached and every pending block carries a route inside a file. */
  ghost predicate InFiles(s: State, A: Tree) {
    (forall b :: b in s.bcac ==> Sensible(s, A, s.bcac[b].route)) && forall b :: b in s.pd ==> Sensible(s, A, s.pd[b].route)
  }

  lemma InFilesSensible(s: State, A: Tree)
    requires InFiles(s, A)
    ensures AllSensible(s, A, Left(s))
  {
    hide Sensible;
  }

  // More files, and a larger tree.
  ghost predicate Wider(s: State, A: Tree, t: State, A': Tree) {
    Extends(A, A') && forall i :: i in s.ino ==> i in t.ino && |t.ino[i].hash| == |s.ino[i].hash|
  }

  lemma SensibleGrows(s: State, A: Tree, t: State, A': Tree, r: Route)
    requires Sensible(s, A, r) && Wider(s, A, t, A')
    ensures Sensible(t, A', r)
  {
    assert r[0].id in t.ino && |t.ino[r[0].id].hash| == NSLOTS;
    forall m | 1 <= m <= Deepest(r)
      ensures IsInner(A', r[0].id, r[m].id)
    {
      assert IsInner(A, r[0].id, r[m].id);
      var x :| Inner(A, x, r[0].id, r[m].id);
      assert Inner(A', x, r[0].id, r[m].id);
    }
  }

  lemma CarriedInFiles(s: State, A: Tree, t: State, A': Tree, X: Pairs)
    requires InFiles(s, A) && Wider(s, A, t, A') && Carried(s, t, X) && PairsSensible(t, A', X)
    ensures InFiles(t, A')
  {
    hide Sensible, Wider;
    forall b | b in t.bcac
      ensures Sensible(t, A', t.bcac[b].route)
    {
      FromSensible(s, A, t, A', X, b, t.bcac[b].route);
    }
    forall b | b in t.pd
      ensures Sensible(t, A', t.pd[b].route)
    {
      assert PendingFrom(s, X, b, t.pd[b].route);
      if CachedFrom(s, X, b, t.pd[b].route) {
        FromSensible(s, A, t, A', X, b, t.pd[b].route);
      } else {
        SensibleGrows(s, A, t, A', s.pd[b].route);
      }
    }
  }

  lemma FromSensible(s: State, A: Tree, t: State, A': Tree, X: Pairs, b: nat, r: Route)
    requires InFiles(s, A) && Wider(s, A, t, A') && PairsSensible(t, A', X) && CachedFrom(s, X, b, r)
    ensures Sensible(t, A', r)
  {
    hide Sensible, Wider;
    if (b, r) in X {
      assert Sensible(t, A', (b, r).1);
    } else {
      SensibleGrows(s, A, t, A', r);
    }
  }

  /** Every transfer, straight or not, keeps all routes inside their files. */
  lemma TransferInFiles(s: State, A: Tree, t: State, A': Tree, i: nat, off: nat, n: nat)
    requires InFiles(s, A) && Wider(s, A, t, A') && Numbered(A') && Transferred(s, t, A', i, off, n)
    requires i in t.ino && |t.ino[i].hash| == NSLOTS
    ensures InFiles(t, A')
  {
    hide InFiles, Wider, Dealt, Numbered, PairsSensible;
    DealtSensible(t, A', i, off / BLK_SZ, EndBlock(off, n));
    CarriedInFiles(s, A, t, A', Dealt(A', i, off / BLK_SZ, EndBlock(off, n)));
  }

  lemma SameInFiles(s: State, t: State, A: Tree)
    requires t.bcac == s.bcac && t.pd == s.pd && Wider(s, A, t, A)
    ensures InFiles(s, A) ==> InFiles(t, A)
  {
    hide Sensible, Wider;
    if InFiles(s, A) {
      forall b | b in t.bcac
        ensures Sensible(t, A, t.bcac[b].route)
      {
        SensibleGrows(s, A, t, A, t.bcac[b].route);
      }
      forall b | b in t.pd
        ensures Sensible(t, A, t.pd[b].route)
      {
        SensibleGrows(s, A, t, A, t.pd[b].route);
      }
    }
  }

  // ---------- what the cascade leaves along any route ----------

  ghost function BlockAt(s: State, r: Route, m: nat): Block
    requires Usable(s, r) && 1 <= m <= Deepest(r)
  {
    s.cs.dec(s.ino[r[0].id].key, OnDisk(s, r[m].id))
  }

  // The hash that entry m of the route holds.
  ghost function HashAt(s: State, r: Route, m: nat): Hash
    requires Usable(s, r) && m <= Deepest(r)
  {
    if m == 0 then s.ino[r[0].id].hash[r[0].idx] else EntryHash(BlockAt(s, r, m), r[m].idx)
  }

  ghost predicate DifferentBlocks(r: Route) {
    |r| == 4 && forall x, y :: 1 <= x < y <= Deepest(r) ==> r[x].id != r[y].id
  }

  /** After the cascade the deepest entry holds the hash it was started with, and every other entry
      the hash of the block that the next entry names. */
  lemma {:induction false} ThroughChain(s: State, r: Route, m: nat, h: Hash)
    requires Usable(s, r) && Sane(s.cs) && m <= Deepest(r) && DifferentBlocks(r)
    ensures var t := Through(s, r, m, h);
      Usable(t, r) && t.cs == s.cs && t.ino[r[0].id].key == s.ino[r[0].id].key && HashAt(t, r, m) == h &&
      (forall k :: 1 <= k <= m ==> HashAt(t, r, k - 1) == s.cs.hash(BlockAt(t, r, k))) &&
      forall k :: m < k <= Deepest(r) ==> OnDisk(t, r[k].id) == OnDisk(s, r[k].id)
    decreases m
  {
    if m > 0 {
      var key := s.ino[r[0].id].key;
      var data := PutHash(s.cs.dec(key, OnDisk(s, r[m].id)), r[m].idx, h);
      var u := Put(s, key, r[m], h);
      Decrypted(s.cs, key, data);
      PutHashExact(s.cs.dec(key, OnDisk(s, r[m].id)), r[m].idx, h, r[m].idx);
      hide PutHash;
      ThroughChain(u, r, m - 1, s.cs.hash(data));
    }
  }

  // ---------- a route that leads elsewhere ----------

  lemma TrueAt(A: Tree, a: Addr, m: nat)
    requires HasPrefixes(A, a) && m < 4
    ensures m == 0 < |a.path| ==> TrueRoute(A, a)[m] == HashIdx(a.iid, a.path[0])
    ensures 0 < m < |a.path| ==> Stage(a, m) in A && TrueRoute(A, a)[m] == HashIdx(A[Stage(a, m)], a.path[m])
  {
    var r := TrueRoute(A, a);
    assert m < |a.path| ==> r[m] == if m == 0 then HashIdx(a.iid, a.path[0]) else HashIdx(A[Addr(a.iid, a.path[..m])], a.path[m]);
  }

  lemma HandedAt(A: Tree, a: Addr, left: Route, d: nat, m: nat)
    requires HasPrefixes(A, a) && |left| == 4 && m < 4
    ensures Handed(A, a, left, d)[m] == if m < d then TrueRoute(A, a)[m] else left[m]
  {
    var r := Handed(A, a, left, d);
    assert r[m] == if m < d then TrueRoute(A, a)[m] else left[m];
  }

  // The index block that entry m of a left-over route names lies at depth m.
  lemma LeftOverEntry(A: Tree, a: Addr, prev: Addr, d: nat, m: nat) returns (x: Addr)
    requires Numbered(A) && a in A && prev in A && HasPrefixes(A, a) && HasPrefixes(A, prev)
    requires 0 < d < |a.path| <= 4 && d < |prev.path| <= 4 && 1 <= m < |prev.path|
    ensures x in A && |x.path| == m && A[x] == Handed(A, a, TrueRoute(A, prev), d)[m].id &&
      (m >= d ==> x == Stage(prev, m))
  {
    HandedAt(A, a, TrueRoute(A, prev), d, m);
    TrueAt(A, a, m);
    TrueAt(A, prev, m);
    x := if m < d then Stage(a, m) else Stage(prev, m);
  }

  // The entries of a left-over route: above depth d those of the block at hand, from there on those
  // of the block before.
  lemma LeftOverRoute(s: State, A: Tree, a: Addr, prev: Addr, d: nat)
    requires Skeleton(s, A) && Numbered(A) && a in A && prev in A && HasPrefixes(A, a) && HasPrefixes(A, prev)
    requires a.iid == prev.iid && 0 < d < |a.path| && d < |prev.path|
    ensures |a.path| <= 4 && |prev.path| <= 4
    ensures var r := Handed(A, a, TrueRoute(A, prev), d);
      Sensible(s, A, r) && DifferentBlocks(r) && Deepest(r) == |prev.path| - 1 && r[0].id == a.iid &&
      Stage(prev, d) in A && r[d].id == A[Stage(prev, d)]
  {
    hide Skeleton, Linked;
    var r := Handed(A, a, TrueRoute(A, prev), d);
    DeepestLeft(A, a, prev, d);
    InodeOf(s, A, a);
    TrueTail(A, prev);
    PathFits(A, a);
    PathFits(A, prev);
    HandedSensible(s, A, a, TrueRoute(A, prev), |prev.path|, d);
    hide TrueRoute, Sensible, HasPrefixes, Tail;
    forall x, y | 1 <= x < y <= Deepest(r)
      ensures r[x].id != r[y].id
    {
      var p := LeftOverEntry(A, a, prev, d, x);
      var q := LeftOverEntry(A, a, prev, d, y);
    }
    var x := LeftOverEntry(A, a, prev, d, d);
    FirstEntry(A, a, prev, d);
  }

  lemma FirstEntry(A: Tree, a: Addr, prev: Addr, d: nat)
    requires HasPrefixes(A, a) && HasPrefixes(A, prev) && 0 < d < |a.path|
    ensures Handed(A, a, TrueRoute(A, prev), d)[0] == HashIdx(a.iid, a.path[0])
  {
    HandedAt(A, a, TrueRoute(A, prev), d, 0);
    TrueAt(A, a, 0);
  }

  lemma PathFits(A: Tree, a: Addr)
    requires Numbered(A) && a in A
    ensures 0 < |a.path| <= 4
  {
    assert ValidPath(a.path);
  }

  lemma InodeOf(s: State, A: Tree, a: Addr)
    requires Skeleton(s, A) && a in A
    ensures a.iid in s.ino && |s.ino[a.iid].hash| == NSLOTS
  {
    hide Linked;
    assert Joined(s, A, a);
  }

  // An entry of the route that names the slot of a block of the tree.
  lemma HashAtSlot(t: State, A: Tree, r: Route, m: nat, c: Addr)
    requires Skeleton(t, A) && Usable(t, r) && m <= Deepest(r) && c in A && c.iid == r[0].id
    requires if |c.path| == 1 then m == 0 && r[0].idx == c.path[0]
      else 1 <= m && |c.path| > 1 && Parent(c) in A && r[m] == HashIdx(A[Parent(c)], Last(c))
    ensures Joined(t, A, c) && SlotHash(t, A, {}, c) == HashAt(t, r, m)
  {
    hide Linked;
    assert Joined(t, A, c);
  }

  // The entry above depth d is the slot of the block at hand.
  lemma OwnEntry(A: Tree, a: Addr, prev: Addr, d: nat)
    requires HasPrefixes(A, a) && HasPrefixes(A, prev) && 0 < d < |a.path| <= 4
    ensures var r, c := Handed(A, a, TrueRoute(A, prev), d), Stage(a, d);
      c in A && |c.path| == d && r[0] == HashIdx(a.iid, a.path[0]) && c.path[0] == a.path[0] &&
      (d > 1 ==> Parent(c) in A && r[d - 1] == HashIdx(A[Parent(c)], Last(c)))
  {
    var c := Stage(a, d);
    FirstEntry(A, a, prev, d);
    if d > 1 {
      assert Parent(c).path == a.path[..d - 1];
      HandedAt(A, a, TrueRoute(A, prev), d, d - 1);
      TrueAt(A, a, d - 1);
    }
  }

  lemma SlotSettled(t: State, A: Tree, c: Addr, g: Hash)
    requires Addressed(t, A, c) && SlotHash(t, A, {}, c) == g
    ensures Settled(t, A, c) <==> t.cs.hash(Plain(t, c.iid, A[c])) == g
  {
  }

  /** The hash of an index block that is written along a left-over route goes where the hash of the
      block transferred before belongs, and its own slot gets the hash of the index block that lies
      at its depth on the way to that one.  Both slots are right afterwards if and only if these
      hashes happen to be the same. */
  lemma WrongSlots(s: State, A: Tree, a: Addr, prev: Addr, d: nat, h: Hash)
    requires Skeleton(s, A) && Numbered(A) && a in A && prev in A && HasPrefixes(A, a) && HasPrefixes(A, prev)
    requires a.iid == prev.iid && 0 < d < |a.path| && d < |prev.path|
    ensures Stage(a, d) in A && Stage(prev, d) in A
    ensures var r := Handed(A, a, TrueRoute(A, prev), d);
      Usable(s, r) && var t := Through(s, r, Deepest(r), h);
      a.iid in t.ino && Addressed(t, A, prev) && Addressed(t, A, Stage(a, d)) &&
      SlotHash(t, A, {}, prev) == h &&
      SlotHash(t, A, {}, Stage(a, d)) == t.cs.hash(Plain(t, a.iid, A[Stage(prev, d)])) &&
      (Settled(t, A, prev) <==> t.cs.hash(Plain(t, a.iid, A[prev])) == h) &&
      (Settled(t, A, Stage(a, d)) <==>
        t.cs.hash(Plain(t, a.iid, A[Stage(a, d)])) == t.cs.hash(Plain(t, a.iid, A[Stage(prev, d)])))
  {
    hide Handed, TrueRoute, Linked, Through, Skeleton, Sensible, DifferentBlocks, Numbered, Usable, Settled,
      SlotHash, Deepest;
    var r := Handed(A, a, TrueRoute(A, prev), d);
    LeftOverRoute(s, A, a, prev, d);
    DeepestLeft(A, a, prev, d);
    OwnEntry(A, a, prev, d);
    SensibleUsable(s, A, r);
    SkeletonSane(s, A);
    ThroughSafe(s, A, r, Deepest(r), h);
    ThroughChain(s, r, Deepest(r), h);
    var t := Through(s, r, Deepest(r), h);
    HashAtSlot(t, A, r, Deepest(r), prev);
    HashAtSlot(t, A, r, d - 1, Stage(a, d));
    BlockAtPlain(t, A, r, d, Stage(prev, d));
    SlotSettled(t, A, prev, h);
    SlotSettled(t, A, Stage(a, d), SlotHash(t, A, {}, Stage(a, d)));
  }

  // A single entry is all that deduplication keeps.
  lemma OneKept(s: State, m: State, A: Tree, b: nat)
    requires Emptied(s, m, A) && Full(Left(s)) && forall q :: Keeps(Left(s), q) <==> q == b
    ensures Wide(m.pd) && b in m.pd && m.pd[b].route == Left(s)[b] && Deduplicated(m.pd) == map[b := m.pd[b]]
  {
    hide Left, Keeps, Deduplicated, Inv;
    LeftKept(m, b);
    KeptIn(Left(s), b);
    var k := Deduplicated(m.pd);
    DeduplicatedFewer(m.pd);
    forall q
      ensures q in k <==> q == b
    {
      LeftKept(m, q);
    }
    assert k.Keys == {b};
  }

  lemma FlushedOne(s: State, b: nat)
    requires s.pd.Keys == {b} && Usable(s.(pd := map[]), s.pd[b].route)
    ensures FlushedAll(s) == Flushed(s.(pd := map[]), s.pd[b])
  {
    hide Usable, Through;
    assert s.pd - {b} == map[];
    FlushedFirst(s, b);
  }

  // What a pending entry says of its block, when the cache has been left.
  lemma PendingHash(s: State, m: State, A: Tree, c: Addr)
    requires Emptied(s, m, A) && c in A && A[c] in m.pd
    ensures c.iid in s.ino && c.iid in m.ino && m.pd[A[c]].hash == s.cs.hash(View(s, A, {}, c))
  {
    hide Left, Wide, Linked;
    assert Good(m, A, {}, c);
  }

  // The cache's exit and the flush leave data blocks as they were.
  lemma LeafExited(s: State, m: State, t: State, A: Tree, x: Addr)
    requires Emptied(s, m, A) && OnlyHashes(m, t, A) && x in A && IsLeaf(x) && x.iid in m.ino
    ensures x.iid in s.ino && x.iid in t.ino && Plain(t, x.iid, A[x]) == View(s, A, {}, x)
  {
    hide Left, Wide, Inv;
    assert BlockKept(m, t, A, x);
  }

  /** A flush that goes wrong: if the one entry that deduplication keeps is that of an index block
      with the route left over from a data block, then after block_exit the slot of that data block
      holds the hash of the index block; so it is right if and only if both have the same hash. */
  lemma MisroutedExit(s: State, m: State, A: Tree, a: Addr, prev: Addr, d: nat)
    requires Emptied(s, m, A) && Full(Left(s)) && Numbered(A)
    requires a in A && prev in A && HasPrefixes(A, a) && HasPrefixes(A, prev)
    requires a.iid == prev.iid && 0 < d < |a.path| && d < |prev.path| && IsLeaf(prev)
    requires Stage(a, d) in A && forall b :: Keeps(Left(s), b) <==> b == A[Stage(a, d)]
    requires A[Stage(a, d)] in Left(s) && Left(s)[A[Stage(a, d)]] == Handed(A, a, TrueRoute(A, prev), d)
    ensures a.iid in s.ino
    ensures var t := FlushedAll(m.(pd := Deduplicated(m.pd)));
      Addressed(t, A, prev) && SlotHash(t, A, {}, prev) == s.cs.hash(View(s, A, {}, Stage(a, d))) &&
      (Settled(t, A, prev) <==> s.cs.hash(View(s, A, {}, prev)) == s.cs.hash(View(s, A, {}, Stage(a, d))))
  {
    hide Left, Keeps, Deduplicated, Emptied, Handed, TrueRoute, Through, Usable, Settled, Skeleton, View, Plain,
      SlotHash, Numbered, OnlyHashes;
    var c := Stage(a, d);
    OneKept(s, m, A, A[c]);
    EmptiedSkeleton(s, m, A);
    PendingHash(s, m, A, c);
    var m0, h := m.(pd := map[]), m.pd[A[c]].hash;
    SamePending(m, A, map[]);
    OnlyHashesPending(m, m0, A);
    WrongSlots(m0, A, a, prev, d, h);
    FlushedOne(m.(pd := Deduplicated(m.pd)), A[c]);
    var r := Handed(A, a, TrueRoute(A, prev), d);
    LeftOverRoute(m0, A, a, prev, d);
    ThroughSafe(m0, A, r, Deepest(r), h);
    var t := Through(m0, r, Deepest(r), h);
    OnlyHashesTrans(m, m0, t, A);
    LeafExited(s, m, t, A, prev);
    SameSuite(m, t, A);
  }

  lemma EmptiedSkeleton(s: State, m: State, A: Tree)
    requires Emptied(s, m, A)
    ensures Skeleton(m, A) && m.cs == s.cs
  {
    hide Left, Wide, Inv;
    InvSkeleton(m, A);
  }

  lemma SameSuite(s: State, t: State, A: Tree)
    requires OnlyHashes(s, t, A)
    ensures t.cs == s.cs
  {
  }

  lemma BlockAtPlain(t: State, A: Tree, r: Route, m: nat, x: Addr)
    requires Usable(t, r) && 1 <= m <= Deepest(r) && x in A && x.iid == r[0].id && A[x] == r[m].id
    ensures x.iid in t.ino && BlockAt(t, r, m) == Plain(t, x.iid, A[x])
  {
  }

  lemma SkeletonSane(s: State, A: Tree)
    requires Skeleton(s, A)
    ensures Sane(s.cs)
  {
    hide Joined;
  }
}
