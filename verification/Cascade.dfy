/** What the flush writes for one pending entry, whatever its route is. */
module Cascading {
  import opened Layout
  import opened Blocks
  import opened Crypto
  import opened Merkle
  import opened MerkleSteps
  import opened MerkleUpdates
  import opened Mending
  import opened Routes
  import opened Flush

  // A route that begins at a slot of an inode and goes on through entries of index blocks.
  ghost predicate Usable(s: State, r: Route) {
    |r| == 4 && r[0].id in s.ino && r[0].idx < |s.ino[r[0].id].hash| &&
    forall m :: 1 <= m <= Deepest(r) ==> r[m].idx < INDEX_PER_BLOCK
  }

  /** Hash h goes into entry m of the route, the new hash of the block written into the entry before
      it, and so on up to the inode. */
  ghost function Through(s: State, r: Route, m: nat, h: Hash): (t: State)
    requires Usable(s, r) && m <= Deepest(r)
    ensures t.pd == s.pd
    decreases m
  {
    if m == 0 then PutRoot(s, r[0], h)
    else
      var key := s.ino[r[0].id].key;
      Through(Put(s, key, r[m], h), r, m - 1, s.cs.hash(PutHash(s.cs.dec(key, OnDisk(s, r[m].id)), r[m].idx, h)))
  }

  // One round of the loop: entry m of the route is rewritten.
  lemma ThroughStep(s: State, r: Route, m: nat, h: Hash)
    requires Usable(s, r) && 0 < m <= Deepest(r)
    ensures var key := s.ino[r[0].id].key;
      var data := PutHash(s.cs.dec(key, OnDisk(s, r[m].id)), r[m].idx, h);
      var t := s.(disk := s.disk[r[m].id := s.cs.enc(key, data)]);
      Usable(t, r) && Through(t, r, m - 1, s.cs.hash(data)) == Through(s, r, m, h)
  {
    hide PutHash;
  }

  // The last one: the inode.
  lemma ThroughEnd(s: State, r: Route, h: Hash)
    requires Usable(s, r)
    ensures Through(s, r, 0, h) ==
      s.(ino := s.ino[r[0].id := s.ino[r[0].id].(hash := s.ino[r[0].id].hash[r[0].idx := h])])
  {
  }

  /** The flush of one entry. */
  ghost function Flushed(s: State, node: Pending): State
    requires Usable(s, node.route)
  {
    Through(s, node.route, Deepest(node.route), node.hash)
  }

  lemma {:induction false} LeastKey(ks: set<nat>) returns (m: nat)
    requires ks != {}
    ensures m in ks && forall b :: b in ks ==> m <= b
  {
    var x :| x in ks;
    var rest := ks - {x};
    assert forall b :: b in ks ==> b == x || b in rest;
    m := x;
    if rest != {} {
      var k := LeastKey(rest);
      m := if k < x then k else x;
    }
  }

  lemma LeastPending(pd: map<nat, Pending>)
    requires pd != map[]
    ensures exists b :: b in pd && forall c :: c in pd ==> b <= c
  {
    var m := LeastKey(pd.Keys);
    assert m in pd;
  }

  /** The pending entry that the iterator of the map delivers first. */
  ghost function FirstWaiting(pd: map<nat, Pending>): (b: nat)
    requires pd != map[]
    ensures b in pd && forall c :: c in pd ==> b <= c
  {
    LeastPending(pd);
    var b :| b in pd && forall c :: c in pd ==> b <= c;
    b
  }

  /** The flush of all entries, in the order of the iterator. */
  ghost function FlushedAll(s: State): State
    decreases |s.pd|
  {
    if s.pd == map[] then s
    else
      var b := FirstWaiting(s.pd);
      var m := s.(pd := s.pd - {b});
      assert m.pd.Keys == s.pd.Keys - {b};
      if Usable(m, s.pd[b].route) then FlushedAll(Flushed(m, s.pd[b])) else s
  }

  lemma FlushedFirst(s: State, b: nat)
    requires b in s.pd && forall c :: c in s.pd ==> b <= c
    requires Usable(s.(pd := s.pd - {b}), s.pd[b].route)
    ensures FlushedAll(s) == FlushedAll(Flushed(s.(pd := s.pd - {b}), s.pd[b]))
  {
    hide Usable;
    assert FirstWaiting(s.pd) == b;
  }

  // ---------- routes inside one file ----------

  // b is the number of an index block of file i.
  ghost predicate Inner(A: Tree, x: Addr, i: nat, b: nat) {
    x in A && x.iid == i && A[x] == b && |x.path| > 0 && !IsLeaf(x)
  }

  ghost predicate IsInner(A: Tree, i: nat, b: nat) {
    exists x :: Inner(A, x, i, b)
  }

  /** The route names index blocks of the file it begins at. */
  ghost predicate Sensible(s: State, A: Tree, r: Route) {
    Usable(s, r) && |s.ino[r[0].id].hash| == NSLOTS &&
    forall m :: 1 <= m <= Deepest(r) ==> IsInner(A, r[0].id, r[m].id)
  }

  // The route names the slot of x, or the block at x itself.
  ghost predicate Hits(A: Tree, r: Route, x: Addr)
    requires |r| == 4 && x in A
  {
    A[x] in Passed(r) || (IsRoot(x) && r[0] == HashIdx(x.iid, x.path[0])) ||
    (|x.path| > 1 && Parent(x) in A && exists m :: 1 <= m <= Deepest(r) && r[m] == HashIdx(A[Parent(x)], Last(x)))
  }

  // The slot that entry m of a route names.
  lemma EntrySlotOf(s: State, A: Tree, r: Route, m: nat, h: Hash) returns (c: Addr)
    requires Sensible(s, A, r) && 1 <= m <= Deepest(r)
    ensures Slot(s, A, c) && !IsRoot(c) && |c.path| > 1 && Parent(c) in A && c.iid == r[0].id
    ensures r[m] == HashIdx(A[Parent(c)], Last(c)) && Mended(s, A, c, h) == Put(s, s.ino[r[0].id].key, r[m], h)
  {
    assert IsInner(A, r[0].id, r[m].id);
    var x :| Inner(A, x, r[0].id, r[m].id);
    c := Child(x, r[m].idx);
    ChildParent(x, r[m].idx);
  }

  lemma RootSlotOf(s: State, A: Tree, r: Route, h: Hash) returns (c: Addr)
    requires Sensible(s, A, r)
    ensures Slot(s, A, c) && IsRoot(c) && r[0] == HashIdx(c.iid, c.path[0]) && Mended(s, A, c, h) == PutRoot(s, r[0], h)
  {
    c := Addr(r[0].id, [r[0].idx]);
  }

  // A rewritten hash leaves all routes as sensible as they were.
  lemma StillSensible(s: State, t: State, A: Tree, r: Route)
    requires Sensible(s, A, r) && OnlyHashes(s, t, A)
    ensures Sensible(t, A, r)
  {
    hide BlockKept;
    assert r[0].id in t.ino && |t.ino[r[0].id].hash| == |s.ino[r[0].id].hash|;
  }

  // x is not hit: no step writes its slot, or reads or writes its block.
  lemma NotHit(A: Tree, r: Route, m: nat, x: Addr, c: Addr)
    requires |r| == 4 && x in A && !Hits(A, r, x) && m <= Deepest(r)
    requires if m == 0 then IsRoot(c) && r[0] == HashIdx(c.iid, c.path[0])
      else |c.path| > 1 && Parent(c) in A && r[m] == HashIdx(A[Parent(c)], Last(c))
    ensures x != c && (!IsRoot(c) ==> |c.path| > 0 && x != Parent(c))
  {
    if m > 0 { assert r[m].id in Passed(r); }
  }

  /** Whatever its route, a flushed entry changes hashes only, and leaves every slot alone that the
      route does not name. */
  lemma {:induction false} ThroughSafe(s: State, A: Tree, r: Route, m: nat, h: Hash)
    requires Skeleton(s, A) && Sensible(s, A, r) && m <= Deepest(r)
    ensures var t := Through(s, r, m, h);
      Skeleton(t, A) && OnlyHashes(s, t, A) && t.pd == s.pd &&
      forall x :: x in A && !Hits(A, r, x) ==> (Settled(t, A, x) <==> Settled(s, A, x))
    decreases m
  {
    hide Skeleton, Hits, Settled, OnlyHashes, Sensible, Slot, PutHash, Put, PutRoot;
    SensibleUsable(s, A, r);
    var c: Addr;
    if m == 0 {
      c := RootSlotOf(s, A, r, h);
    } else {
      c := EntrySlotOf(s, A, r, m, h);
    }
    var t := Mended(s, A, c, h);
    MendSkeleton(s, A, c, h);
    MendOnlyHashes(s, A, c, h);
    MendPd(s, A, c, h);
    forall x | x in A && !Hits(A, r, x)
      ensures Settled(t, A, x) <==> Settled(s, A, x)
    {
      NotHit(A, r, m, x, c);
      MendSettled(s, A, c, h, x);
    }
    if m > 0 {
      StillSensible(s, t, A, r);
      SensibleUsable(t, A, r);
      var g := s.cs.hash(PutHash(s.cs.dec(s.ino[r[0].id].key, OnDisk(s, r[m].id)), r[m].idx, h));
      ThroughSafe(t, A, r, m - 1, g);
      OnlyHashesTrans(s, t, Through(t, r, m - 1, g), A);
    }
  }

  lemma SensibleUsable(s: State, A: Tree, r: Route)
    requires Sensible(s, A, r)
    ensures Usable(s, r)
  {
  }

  lemma MendPd(s: State, A: Tree, c: Addr, h: Hash)
    requires Slot(s, A, c)
    ensures Mended(s, A, c, h).pd == s.pd
  {
  }

  // ---------- a true route ----------

  lemma TrueUsable(s: State, A: Tree, a: Addr)
    requires Skeleton(s, A) && Numbered(A) && a in A && HasPrefixes(A, a)
    ensures Usable(s, TrueRoute(A, a)) && Deepest(TrueRoute(A, a)) == |a.path| - 1
  {
    hide Linked;
    TrueDeepest(A, a);
    assert Joined(s, A, a);
  }

  /** Along a true route, that is the climb of the flush invariant. */
  lemma {:induction false} ThroughClimbs(s: State, A: Tree, a: Addr, c: Addr, L: set<Addr>, G: set<Addr>)
    requires ClimbInv(s, A, a, c, L, G) && HasPrefixes(A, a)
    ensures c.iid in s.ino && 0 < |c.path| <= |a.path|
    ensures Usable(s, TrueRoute(A, a)) && Deepest(TrueRoute(A, a)) == |a.path| - 1
    ensures FlushInv(Through(s, TrueRoute(A, a), |c.path| - 1, HashNow(s, A, c)), A, L, G)
    decreases |c.path|
  {
    hide ClimbInv, FlushInv, Skeleton, Numbered, HasPrefixes, TrueRoute, Put, PutRoot, PutHash, Slot, Usable;
    ClimbParts(s, A, a, c, L, G);
    TrueUsable(s, A, a);
    RouteAt(A, a, c);
    BlockSlot(s, A, c);
    ClimbStep(s, A, a, c, L, G);
    ClimbMends(s, A, a, c);
    if !IsRoot(c) {
      ThroughClimbs(Mended(s, A, c, HashNow(s, A, c)), A, a, Parent(c), L, G);
    }
  }

  // One step of the recursion is one rewritten slot.
  lemma ClimbMends(s: State, A: Tree, a: Addr, c: Addr)
    requires Skeleton(s, A) && Slot(s, A, c) && c in A && a in A && Prefix(c, a) && HasPrefixes(A, a) && |a.path| <= 4
    requires Usable(s, TrueRoute(A, a)) && Deepest(TrueRoute(A, a)) == |a.path| - 1
    ensures var r, h := TrueRoute(A, a), HashNow(s, A, c);
      (IsRoot(c) ==> Through(s, r, 0, h) == Mended(s, A, c, h)) &&
      (!IsRoot(c) ==> (var t := Mended(s, A, c, h);
        Parent(c) in A && c.iid in t.ino && Usable(t, r) && Through(s, r, |c.path| - 1, h) == Through(t, r, |c.path| - 2, HashNow(t, A, Parent(c)))))
  {
    hide Skeleton, PutHash;
    RouteAt(A, a, c);
    RouteTop(A, a);
    if !IsRoot(c) { MendPlain(s, A, c, HashNow(s, A, c), Parent(c)); }
  }

  // ---------- one entry after the other ----------

  /** No route that is kept names the slot of x or the block at x. */
  ghost predicate Unnamed(R: RouteMap, A: Tree, x: Addr)
    requires Full(R) && x in A
  {
    forall b :: Keeps(R, b) ==> !Hits(A, R[b], x)
  }

  ghost predicate AllSensible(s: State, A: Tree, R: RouteMap) {
    forall b :: b in R ==> Sensible(s, A, R[b])
  }

  lemma SensibleFull(s: State, A: Tree, R: RouteMap)
    requires AllSensible(s, A, R)
    ensures Full(R)
  {
    forall b | b in R
      ensures |R[b]| == 4
    {
      SensibleUsable(s, A, R[b]);
    }
  }

  /** In the course of the flush that began in s1 with routes R: only hashes have changed, and no
      slot that is not named is more or less right than it was. */
  ghost predicate Steady(s1: State, s: State, A: Tree, R: RouteMap) {
    Full(R) && Skeleton(s, A) && OnlyHashes(s1, s, A) && (forall b :: b in s.pd ==> Keeps(R, b) && s.pd[b].route == R[b]) &&
    forall x :: x in A && Unnamed(R, A, x) ==> (Settled(s, A, x) <==> Settled(s1, A, x))
  }

  lemma SteadyStarts(s: State, A: Tree)
    requires Skeleton(s, A) && AllSensible(s, A, Left(s))
    ensures Wide(s.pd) && Steady(s, s.(pd := Deduplicated(s.pd)), A, Left(s))
  {
    hide Left, Keeps, Deduplicated, Sensible, Settled, Skeleton;
    SensibleFull(s, A, Left(s));
    EmptyBcac(s, A);
    LeftKept(s, 0);
    var t := s.(pd := Deduplicated(s.pd));
    DeduplicatedFewer(s.pd);
    SamePending(s, A, t.pd);
    OnlyHashesPending(s, t, A);
    forall b | b in t.pd
      ensures Keeps(Left(s), b) && t.pd[b].route == Left(s)[b]
    {
      LeftKept(s, b);
    }
  }

  lemma EmptyBcac(s: State, A: Tree)
    requires Skeleton(s, A)
    ensures s.bcac == map[]
  {
  }

  // The state when entry b is taken off and flushed.
  lemma SteadyUsable(s1: State, s: State, A: Tree, R: RouteMap, b: nat)
    requires Steady(s1, s, A, R) && AllSensible(s1, A, R) && b in s.pd
    ensures Sensible(s, A, s.pd[b].route) && Usable(s.(pd := s.pd - {b}), s.pd[b].route)
  {
    hide Keeps, Sensible;
    assert Sensible(s1, A, R[b]) by { KeptIn(R, b); }
    StillSensible(s1, s, A, R[b]);
    SensibleUsable(s, A, R[b]);
  }

  lemma KeptIn(R: RouteMap, b: nat)
    requires Full(R) && Keeps(R, b)
    ensures b in R
  {
  }

  lemma SteadyStep(s1: State, s: State, A: Tree, R: RouteMap, b: nat)
    requires Steady(s1, s, A, R) && AllSensible(s1, A, R) && b in s.pd
    ensures Usable(s.(pd := s.pd - {b}), s.pd[b].route)
    ensures var t := Flushed(s.(pd := s.pd - {b}), s.pd[b]); Steady(s1, t, A, R) && t.pd == s.pd - {b}
  {
    hide Keeps, Sensible, Skeleton, OnlyHashes, Settled, Hits, Through;
    SteadyUsable(s1, s, A, R, b);
    var m, r := s.(pd := s.pd - {b}), s.pd[b].route;
    SamePending(s, A, m.pd);
    OnlyHashesPending(s, m, A);
    OnlyHashesTrans(s1, s, m, A);
    StillSensible(s, m, A, r);
    ThroughSafe(m, A, r, Deepest(r), s.pd[b].hash);
    OnlyHashesTrans(s1, m, Flushed(m, s.pd[b]), A);
  }

  /** With true routes, an entry that is flushed keeps the flush invariant. */
  lemma GuidedStep(s: State, A: Tree, b: nat, L: set<Addr>, G: set<Addr>)
    requires FlushInv(s, A, L, G) && b in s.pd
    ensures Usable(s.(pd := s.pd - {b}), s.pd[b].route)
    ensures FlushInv(Flushed(s.(pd := s.pd - {b}), s.pd[b]), A, L, G)
  {
    hide FlushInv, ClimbInv, Through, Skeleton, Usable;
    var a := QueuedEntry(s, A, b, L, G);
    ClimbStarts(s, A, a, L, G);
    ThroughClimbs(s.(pd := s.pd - {b}), A, a, a, L, G);
  }

  // ---------- before and after the whole of block_exit ----------

  /** What can be seen has changed in hashes only. */
  ghost predicate ViewsButHashes(s: State, t: State, A: Tree) {
    t.cs == s.cs && (forall i :: i in s.ino <==> i in t.ino) &&
    (forall i :: i in s.ino ==> SameHead(s.ino[i], t.ino[i]) && t.ino[i].bid == s.ino[i].bid && |t.ino[i].hash| == |s.ino[i].hash|) &&
    forall a :: a in A && a.iid in s.ino ==>
      if IsLeaf(a) then View(t, A, {}, a) == View(s, A, {}, a) else SameButHashes(View(s, A, {}, a), View(t, A, {}, a))
  }

  lemma ButHashesData(s: State, t: State, A: Tree)
    requires ViewsButHashes(s, t, A)
    ensures SameData(s, t, A, {})
  {
  }

  /** In m the cache of s has been left: its blocks have been written back. */
  ghost predicate Emptied(s: State, m: State, A: Tree) {
    Inv(m, A, {}) && m.bcac == map[] && m.cs == s.cs && SameViews(s, m, A, {}) && Left(m) == Left(s) && Wide(m.pd)
  }

  // s is before the cache's exit, m behind it, t after the flush.
  lemma FlushedViews(s: State, m: State, t: State, A: Tree)
    requires SameViews(s, m, A, {}) && m.ino == s.ino && m.cs == s.cs && m.bcac == map[] && t.bcac == map[] &&
      OnlyHashes(m, t, A)
    ensures ViewsButHashes(s, t, A)
  {
    forall a | a in A && a.iid in s.ino
      ensures if IsLeaf(a) then View(t, A, {}, a) == View(s, A, {}, a) else SameButHashes(View(s, A, {}, a), View(t, A, {}, a))
    {
      assert BlockKept(m, t, A, a) && View(m, A, {}, a) == View(s, A, {}, a);
    }
  }
}
