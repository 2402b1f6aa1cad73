/** block_exit: the pending hashes are written into the index tree on disk, from each pending
    block up to its inode. */
module Flush {
  import opened Layout
  import opened Blocks
  import opened Crypto
  import opened Merkle
  import opened MerkleSteps
  import opened MerkleUpdates
  import opened Mending
  import opened Routes

  // ---------- prefixes ----------

  ghost predicate Prefix(x: Addr, a: Addr) {
    x.iid == a.iid && 0 < |x.path| <= |a.path| && x.path == a.path[..|x.path|]
  }

  // x lies strictly above a.
  ghost predicate Above(x: Addr, a: Addr) { Prefix(x, a) && x != a }

  lemma AboveIsPrefixOfParent(x: Addr, a: Addr)
    requires Above(x, a)
    ensures !IsRoot(a) && Prefix(x, Parent(a))
  {
    assert a.path[..|a.path|] == a.path;
    assert Parent(a).path[..|x.path|] == a.path[..|x.path|];
  }

  lemma PrefixTrans(x: Addr, y: Addr, a: Addr)
    requires Prefix(x, y) && Prefix(y, a)
    ensures Prefix(x, a)
  {
    assert a.path[..|y.path|][..|x.path|] == a.path[..|x.path|];
  }

  lemma ParentIsAbove(a: Addr)
    requires |a.path| > 1
    ensures Above(Parent(a), a)
  {
  }

  // ---------- routes of the pending blocks ----------

  /** Index of the deepest entry of a route that names an index block, or 0. */
  function Deepest(r: Route): (i: nat)
    requires |r| == 4
    ensures i < 4
  {
    if r[3].id != 0 then 3 else if r[2].id != 0 then 2 else if r[1].id != 0 then 1 else 0
  }

  /** The index blocks a route passes through. */
  function Passed(r: Route): (p: set<nat>)
    requires |r| == 4
    ensures forall b :: b in p <==> exists m :: 1 <= m <= Deepest(r) && r[m].id == b
  {
    set m | 1 <= m <= Deepest(r) :: r[m].id
  }

  ghost predicate Wide(pd: map<nat, Pending>) {
    forall b :: b in pd ==> |pd[b].route| == 4
  }

  /** The pending blocks that no pending route passes through. */
  ghost function Deduplicated(pd: map<nat, Pending>): (kept: map<nat, Pending>)
    requires Wide(pd)
  {
    map b | b in pd && (forall q :: q in pd ==> b !in Passed(pd[q].route)) :: pd[b]
  }

  // Every pending entry belongs to a block of the tree and carries its true route.
  ghost predicate TrulyRouted(pd: map<nat, Pending>, A: Tree) {
    forall b :: b in pd ==> exists a :: TrueEntry(pd, A, b, a)
  }

  ghost predicate TrueEntry(pd: map<nat, Pending>, A: Tree, b: nat, a: Addr) {
    b in pd && a in A && A[a] == b && HasPrefixes(A, a) && pd[b].route == TrueRoute(A, a)
  }

  ghost predicate Numbered(A: Tree) {
    (forall a :: a in A ==> A[a] != 0 && ValidPath(a.path)) &&
    forall a, a' :: a in A && a' in A && A[a] == A[a'] ==> a == a'
  }

  lemma SkeletonNumbered(s: State, A: Tree)
    requires Skeleton(s, A)
    ensures Numbered(A)
  {
    forall a | a in A
      ensures A[a] != 0 && ValidPath(a.path)
    {
      assert Joined(s, A, a);
    }
  }

  lemma TrueDeepest(A: Tree, a: Addr)
    requires Numbered(A) && a in A && HasPrefixes(A, a)
    ensures Deepest(TrueRoute(A, a)) == |a.path| - 1
  {
    var r := TrueRoute(A, a);
    forall m | 1 <= m < 4
      ensures r[m].id != 0 <==> m < |a.path|
    {
      if m < |a.path| { assert Addr(a.iid, a.path[..m]) in A; }
    }
  }

  // A true route passes through exactly the blocks above.
  lemma TruePassed(A: Tree, a: Addr, x: Addr)
    requires Numbered(A) && a in A && x in A && HasPrefixes(A, a)
    ensures A[x] in Passed(TrueRoute(A, a)) <==> Above(x, a)
  {
    var r := TrueRoute(A, a);
    TrueDeepest(A, a);
    if Above(x, a) {
      AboveIsPrefixOfParent(x, a);
      assert r[|x.path|].id == A[x];
    }
    if A[x] in Passed(r) {
      var m :| 1 <= m <= Deepest(r) && r[m].id == A[x];
      assert A[Addr(a.iid, a.path[..m])] == A[x];
    }
  }

  // ---------- the flush ----------

  ghost predicate Waiting(s: State, A: Tree, a: Addr) { a in A && A[a] in s.pd }

  ghost predicate OverWaiting(s: State, A: Tree, x: Addr) {
    exists a :: Waiting(s, A, a) && Prefix(x, a)
  }

  // What is known of the entries that still wait.
  ghost predicate Queued(s: State, A: Tree) {
    Wide(s.pd) && TrulyRouted(s.pd, A) &&
    (forall a, b :: Waiting(s, A, a) && Waiting(s, A, b) ==> !Above(a, b)) &&
    (forall a :: Waiting(s, A, a) ==> WaitingHash(s, A, a))
  }

  ghost predicate WaitingHash(s: State, A: Tree, a: Addr)
    requires Waiting(s, A, a)
  {
    a.iid in s.ino && s.pd[A[a]].hash == s.cs.hash(Plain(s, a.iid, A[a]))
  }

  // Blocks L are left behind by the flush: nothing that waits lies below them, and of their slots
  // exactly those of G are right.
  ghost predicate Behind(s: State, A: Tree, L: set<Addr>, G: set<Addr>) {
    forall x :: x in L ==> x in A && !OverWaiting(s, A, x) && (Settled(s, A, x) <==> x in G)
  }

  /** Between two entries: whatever is not settled lies over a block that still waits, or is left
      behind. */
  ghost predicate FlushInv(s: State, A: Tree, L: set<Addr>, G: set<Addr>) {
    Skeleton(s, A) && Queued(s, A) && Behind(s, A, L, G) &&
    forall x :: x in A && x !in L ==> Settled(s, A, x) || OverWaiting(s, A, x)
  }

  /** On the way from block a to its inode, with the slot of c still to be written. */
  ghost predicate ClimbInv(s: State, A: Tree, a: Addr, c: Addr, L: set<Addr>, G: set<Addr>) {
    Skeleton(s, A) && Queued(s, A) && Behind(s, A, L, G) && a in A && c in A && Prefix(c, a) &&
    (forall q :: Waiting(s, A, q) ==> !Prefix(q, a)) && (forall x :: x in L ==> !Prefix(x, a)) &&
    forall x :: x in A && x !in L ==> Settled(s, A, x) || OverWaiting(s, A, x) || Prefix(x, c)
  }

  lemma InvSkeleton(s: State, A: Tree)
    requires Inv(s, A, {}) && s.bcac == map[]
    ensures Skeleton(s, A)
    ensures forall a :: a in A ==> Addressed(s, A, a) && s.cs.hash(Plain(s, a.iid, A[a])) == Expected(s, A, {}, a)
  {
    forall a | a in A
      ensures Joined(s, A, a) && s.cs.hash(Plain(s, a.iid, A[a])) == Expected(s, A, {}, a)
    {
      assert Good(s, A, {}, a);
    }
  }

  lemma Settles(s: State, t: State, A: Tree, x: Addr)
    requires Addressed(s, A, x) && Addressed(t, A, x) && t.disk == s.disk && t.ino == s.ino && t.bcac == s.bcac &&
      t.cs == s.cs
    ensures Settled(t, A, x) <==> Settled(s, A, x)
    ensures Joined(t, A, x) <==> Joined(s, A, x)
  {
  }

  lemma SamePending(s: State, A: Tree, pd: map<nat, Pending>)
    requires Skeleton(s, A) && forall b :: b in pd ==> b in s.pd
    ensures Skeleton(s.(pd := pd), A)
    ensures forall x :: x in A ==> (Settled(s.(pd := pd), A, x) <==> Settled(s, A, x))
  {
    hide Linked, Settled;
    forall x | x in A
      ensures Joined(s.(pd := pd), A, x) && (Settled(s.(pd := pd), A, x) <==> Settled(s, A, x))
    {
      assert Joined(s, A, x);
      Settles(s, s.(pd := pd), A, x);
    }
  }

  ghost function HashNow(s: State, A: Tree, c: Addr): Hash
    requires c in A && c.iid in s.ino
  {
    s.cs.hash(Plain(s, c.iid, A[c]))
  }

  // ---------- which routes the flush can use ----------

  type RouteMap = map<nat, Route>

  /** The blocks that wait, or will wait once the cache has been left, each with its route. */
  ghost function Left(s: State): RouteMap {
    map b | b in s.pd.Keys + s.bcac.Keys && (b in s.pd || s.bcac[b].dirty) :: if b in s.pd then s.pd[b].route else s.bcac[b].route
  }

  lemma LeftStays(s: State, b: nat)
    requires b in s.bcac
    ensures Left(WrittenBack(s, b)) == Left(s)
  {
  }

  ghost predicate TrueFor(A: Tree, b: nat, r: Route, a: Addr) {
    a in A && A[a] == b && HasPrefixes(A, a) && r == TrueRoute(A, a)
  }

  ghost predicate Full(R: RouteMap) {
    forall b :: b in R ==> |R[b]| == 4
  }

  // No route passes through b, so deduplication keeps it.
  ghost predicate Keeps(R: RouteMap, b: nat)
    requires Full(R)
  {
    b in R && forall q :: q in R ==> b !in Passed(R[q])
  }

  /** The blocks that deduplication keeps have true routes. */
  ghost predicate Guided(R: RouteMap, A: Tree) {
    Full(R) && forall b :: Keeps(R, b) ==> exists a :: TrueFor(A, b, R[b], a)
  }

  // At or above a block that is kept.
  ghost predicate Served(R: RouteMap, A: Tree, x: Addr)
    requires Full(R)
  {
    exists a :: a in A && Keeps(R, A[a]) && Prefix(x, a)
  }

  /** The waiting blocks that are dropped although no kept block lies below them. */
  ghost function Lost(R: RouteMap, A: Tree): (L: set<Addr>)
    requires Full(R)
    ensures forall x :: x in L ==> x in A
  {
    set x | x in A && A[x] in R && !Served(R, A, x)
  }

  // The slot of x holds the hash that x has now.
  ghost predicate UpToDate(s: State, A: Tree, x: Addr) {
    Addressed(s, A, x) && s.cs.hash(View(s, A, {}, x)) == SlotHash(s, A, {}, x)
  }

  /** With true routes, deduplication keeps exactly the blocks that lie above no other waiting
      block. */
  lemma KeptIff(R: RouteMap, A: Tree, x: Addr)
    requires Numbered(A) && Full(R) && (forall b :: b in R ==> exists a :: TrueFor(A, b, R[b], a)) && x in A &&
      A[x] in R
    ensures Keeps(R, A[x]) <==> forall a :: a in A && A[a] in R ==> !Above(x, a)
  {
    forall q | q in R
      ensures A[x] in Passed(R[q]) <==> exists a :: a in A && A[a] == q && Above(x, a)
    {
      var a :| TrueFor(A, q, R[q], a);
      TruePassed(A, a, x);
    }
  }

  // Below every waiting block, or at it, there is one that is kept.
  lemma {:induction false} KeptBelow(R: RouteMap, A: Tree, x: Addr) returns (a: Addr)
    requires Numbered(A) && Full(R) && (forall b :: b in R ==> exists a :: TrueFor(A, b, R[b], a)) && x in A &&
      A[x] in R
    ensures a in A && Keeps(R, A[a]) && Prefix(x, a)
    decreases 5 - |x.path|
  {
    KeptIff(R, A, x);
    a := x;
    if !Keeps(R, A[x]) {
      var y :| y in A && A[y] in R && Above(x, y);
      AboveIsPrefixOfParent(x, y);
      a := KeptBelow(R, A, y);
      PrefixTrans(x, y, a);
    }
  }

  // True routes are usable, and nothing is lost.
  lemma TrueGuided(s: State, A: Tree)
    requires Numbered(A) && Flushable(s, A)
    ensures Guided(Left(s), A) && Lost(Left(s), A) == {}
  {
    hide TrueRoute, HasPrefixes, Passed;
    var R := Left(s);
    forall b | b in R
      ensures exists a :: TrueFor(A, b, R[b], a)
    {
      var a: Addr;
      if b in s.pd {
        a :| TrueEntry(s.pd, A, b, a);
      } else {
        a :| TrueCached(s, A, b, a);
      }
      assert TrueFor(A, b, R[b], a);
    }
    TrueFull(R, A);
    forall x | x in A && A[x] in R
      ensures Served(R, A, x)
    {
      var a := KeptBelow(R, A, x);
    }
  }

  lemma TrueFull(R: RouteMap, A: Tree)
    requires forall b :: b in R ==> exists a :: TrueFor(A, b, R[b], a)
    ensures Full(R)
  {
    forall b | b in R
      ensures |R[b]| == 4
    {
      var a :| TrueFor(A, b, R[b], a);
    }
  }

  // With the cache left, the pending entries are what is kept or dropped.
  lemma LeftKept(s: State, b: nat)
    requires s.bcac == map[] && Full(Left(s))
    ensures Wide(s.pd) && Left(s).Keys == s.pd.Keys && forall q :: q in s.pd ==> Left(s)[q] == s.pd[q].route
    ensures b in Deduplicated(s.pd) <==> Keeps(Left(s), b)
  {
    hide Passed;
    var R := Left(s);
    assert forall q :: q in s.pd ==> q in R && R[q] == s.pd[q].route;
  }

  lemma FlushStarts(s: State, A: Tree)
    requires Inv(s, A, {}) && s.bcac == map[] && Guided(Left(s), A)
    ensures Wide(s.pd) && Full(Left(s))
    ensures var L := Lost(Left(s), A); FlushInv(s.(pd := Deduplicated(s.pd)), A, L, set x | x in L && Settled(s, A, x))
  {
    hide Inv, Global, Linked, Left, Keeps, Deduplicated, Queued;
    InvSkeleton(s, A);
    SkeletonNumbered(s, A);
    LeftKept(s, 0);
    var t := s.(pd := Deduplicated(s.pd));
    DeduplicatedFewer(s.pd);
    SamePending(s, A, t.pd);
    DeduplicatedQueued(s, A);
    hide Settled, Skeleton, Lost, OverWaiting, Served;
    forall x | x in A
      ensures OverWaiting(t, A, x) <==> Served(Left(s), A, x)
      ensures A[x] in Left(s) || Settled(s, A, x)
    {
      ServedWaits(s, A, x);
      QuietSettled(s, A, x);
    }
    LostIs(Left(s), A);
  }

  lemma LostIs(R: RouteMap, A: Tree)
    requires Full(R)
    ensures forall x :: x in Lost(R, A) <==> x in A && A[x] in R && !Served(R, A, x)
  {
  }

  // A block that is not waiting is settled.
  lemma QuietSettled(s: State, A: Tree, x: Addr)
    requires s.bcac == map[] && Full(Left(s)) && x in A && Addressed(s, A, x)
    requires s.cs.hash(Plain(s, x.iid, A[x])) == Expected(s, A, {}, x)
    ensures A[x] in Left(s) || Settled(s, A, x)
  {
    LeftKept(s, 0);
  }

  lemma ServedWaits(s: State, A: Tree, x: Addr)
    requires s.bcac == map[] && Full(Left(s)) && Wide(s.pd)
    ensures OverWaiting(s.(pd := Deduplicated(s.pd)), A, x) <==> Served(Left(s), A, x)
  {
    hide Left, Keeps, Deduplicated, Prefix;
    var t, R := s.(pd := Deduplicated(s.pd)), Left(s);
    if OverWaiting(t, A, x) {
      var a :| Waiting(t, A, a) && Prefix(x, a);
      LeftKept(s, A[a]);
    }
    if Served(R, A, x) {
      var a :| a in A && Keeps(R, A[a]) && Prefix(x, a);
      LeftKept(s, A[a]);
      assert Waiting(t, A, a);
    }
  }

  lemma DeduplicatedFewer(pd: map<nat, Pending>)
    requires Wide(pd)
    ensures forall b :: b in Deduplicated(pd) ==> b in pd && Deduplicated(pd)[b] == pd[b]
  {
  }

  lemma DeduplicatedQueued(s: State, A: Tree)
    requires Numbered(A) && s.bcac == map[] && Guided(Left(s), A)
    requires forall a :: a in A ==> Addressed(s, A, a) && s.cs.hash(Plain(s, a.iid, A[a])) == Expected(s, A, {}, a)
    ensures Wide(s.pd) && Queued(s.(pd := Deduplicated(s.pd)), A)
  {
    hide Linked, Deduplicated, Left, Passed, TrueRoute, HasPrefixes, Keeps;
    LeftKept(s, 0);
    DeduplicatedFewer(s.pd);
    var t, R := s.(pd := Deduplicated(s.pd)), Left(s);
    forall b | b in t.pd
      ensures exists a :: TrueEntry(t.pd, A, b, a)
    {
      LeftKept(s, b);
      var a :| TrueFor(A, b, R[b], a);
      assert TrueEntry(t.pd, A, b, a);
    }
    forall a, b | Waiting(t, A, a) && Waiting(t, A, b)
      ensures !Above(a, b)
    {
      LeftKept(s, A[a]);
      LeftKept(s, A[b]);
      var y :| TrueFor(A, A[b], R[A[b]], y);
      TruePassed(A, b, a);
      KeptApart(R, A[a], A[b]);
    }
  }

  lemma KeptApart(R: RouteMap, x: nat, q: nat)
    requires Full(R) && Keeps(R, x) && q in R
    ensures x !in Passed(R[q])
  {
  }

  lemma StillQueued(s: State, A: Tree, a: Addr)
    requires Queued(s, A) && Waiting(s, A, a)
    ensures Queued(s.(pd := s.pd - {A[a]}), A)
  {
    hide TrueRoute, HasPrefixes;
    var t := s.(pd := s.pd - {A[a]});
    forall b | b in t.pd
      ensures exists q :: TrueEntry(t.pd, A, b, q)
    {
      var q :| TrueEntry(s.pd, A, b, q);
      assert TrueEntry(t.pd, A, b, q);
    }
    forall q | Waiting(t, A, q)
      ensures Waiting(s, A, q) && WaitingHash(t, A, q)
    {
      assert Waiting(s, A, q);
    }
  }

  lemma StillOver(s: State, A: Tree, a: Addr)
    requires Skeleton(s, A) && Waiting(s, A, a)
    ensures forall x :: OverWaiting(s, A, x) ==> OverWaiting(s.(pd := s.pd - {A[a]}), A, x) || Prefix(x, a)
  {
    hide Skeleton, Prefix;
    var t := s.(pd := s.pd - {A[a]});
    forall x | OverWaiting(s, A, x)
      ensures OverWaiting(t, A, x) || Prefix(x, a)
    {
      var q :| Waiting(s, A, q) && Prefix(x, q);
      NoTwo(s, A, q, a);
      assert q == a || Waiting(t, A, q);
    }
  }

  // Nothing that still waits lies at or above the entry taken off.
  lemma NoneAbove(s: State, A: Tree, a: Addr)
    requires Queued(s, A) && Waiting(s, A, a)
    ensures forall q :: Waiting(s.(pd := s.pd - {A[a]}), A, q) ==> !Prefix(q, a)
  {
    hide TrulyRouted, Wide, Prefix;
    forall q | Waiting(s.(pd := s.pd - {A[a]}), A, q)
      ensures !Prefix(q, a)
    {
      assert Waiting(s, A, q) && q != a;
      assert !Above(q, a);
    }
  }

  // Nor is a block that is left behind above the entry taken off.
  lemma BehindTaken(s: State, A: Tree, a: Addr, L: set<Addr>, G: set<Addr>)
    requires FlushInv(s, A, L, G) && Waiting(s, A, a)
    ensures Behind(s.(pd := s.pd - {A[a]}), A, L, G) && forall x :: x in L ==> !Prefix(x, a)
  {
    hide Queued, Prefix;
    var t := s.(pd := s.pd - {A[a]});
    SamePending(s, A, t.pd);
    hide Settled, Skeleton;
    forall x | x in L
      ensures !Prefix(x, a) && !OverWaiting(t, A, x)
    {
      assert !OverWaiting(s, A, x);
      forall q | Waiting(t, A, q)
        ensures !Prefix(x, q)
      {
        assert Waiting(s, A, q);
      }
    }
  }

  // Entry a is taken off the queue.
  lemma ClimbStarts(s: State, A: Tree, a: Addr, L: set<Addr>, G: set<Addr>)
    requires FlushInv(s, A, L, G) && Waiting(s, A, a)
    ensures ClimbInv(s.(pd := s.pd - {A[a]}), A, a, a, L, G)
  {
    var t := s.(pd := s.pd - {A[a]});
    StillQueued(s, A, a);
    SamePending(s, A, t.pd);
    assert a.path[..|a.path|] == a.path;
    assert Joined(s, A, a);
    hide Skeleton, Global, Linked, Settled, Queued, Prefix;
    NoneAbove(s, A, a);
    BehindTaken(s, A, a, L, G);
    hide OverWaiting;
    StillOver(s, A, a);
  }

  lemma NoTwo(s: State, A: Tree, x: Addr, y: Addr)
    requires Skeleton(s, A) && x in A && y in A
    ensures A[x] == A[y] ==> x == y
  {
  }

  // What is left behind is neither written nor read on the way up.
  lemma BehindStays(s: State, A: Tree, a: Addr, c: Addr, L: set<Addr>, G: set<Addr>)
    requires ClimbInv(s, A, a, c, L, G)
    ensures Slot(s, A, c) && Behind(Mended(s, A, c, HashNow(s, A, c)), A, L, G)
  {
    hide Global, Linked, Settled, TrueRoute, Queued;
    BlockSlot(s, A, c);
    var h := HashNow(s, A, c);
    var t := Mended(s, A, c, h);
    if !IsRoot(c) {
      InnerBlock(s, A, c);
      ParentIsAbove(c);
      PrefixTrans(Parent(c), c, a);
    }
    forall x | x in L
      ensures !OverWaiting(t, A, x) && (Settled(t, A, x) <==> x in G)
    {
      assert x != c && !OverWaiting(s, A, x);
      MendSettled(s, A, c, h, x);
      forall q | Waiting(t, A, q)
        ensures !Prefix(x, q)
      {
        assert Waiting(s, A, q);
      }
    }
  }

  // The slot of c has been written into its parent block.
  lemma ClimbStep(s: State, A: Tree, a: Addr, c: Addr, L: set<Addr>, G: set<Addr>)
    requires ClimbInv(s, A, a, c, L, G)
    ensures Slot(s, A, c)
    ensures !IsRoot(c) ==> ClimbInv(Mended(s, A, c, HashNow(s, A, c)), A, a, Parent(c), L, G)
    ensures IsRoot(c) ==> FlushInv(Mended(s, A, c, HashNow(s, A, c)), A, L, G)
  {
    hide Global, Linked, Settled, TrueRoute;
    BlockSlot(s, A, c);
    var h := HashNow(s, A, c);
    var t := Mended(s, A, c, h);
    MendSkeleton(s, A, c, h);
    if !IsRoot(c) {
      InnerBlock(s, A, c);
      ParentIsAbove(c);
      PrefixTrans(Parent(c), c, a);
    }
    forall q | Waiting(t, A, q)
      ensures Waiting(s, A, q) && WaitingHash(t, A, q)
    {
      assert Waiting(s, A, q);
      MendPlain(s, A, c, h, q);
    }
    assert Behind(t, A, L, G) by { BehindStays(s, A, a, c, L, G); }
    forall x | x in A && x !in L
      ensures Settled(t, A, x) || OverWaiting(t, A, x) || (!IsRoot(c) && Prefix(x, Parent(c)))
    {
      if !OverWaiting(s, A, x) {
        if !IsRoot(c) && x == Parent(c) {
          assert x.path[..|x.path|] == x.path;
        } else {
          MendSettled(s, A, c, h, x);
          if !Settled(s, A, x) && x != c { AboveIsPrefixOfParent(x, c); }
        }
      } else {
        var q :| Waiting(s, A, q) && Prefix(x, q);
        assert Waiting(t, A, q);
      }
    }
  }

  /** Nothing waits any more: every slot is right but those that were left behind. */
  lemma FlushEnds(s: State, A: Tree, L: set<Addr>, G: set<Addr>)
    requires FlushInv(s, A, L, G) && s.pd == map[]
    ensures forall a :: a in A ==> (Settled(s, A, a) <==> a !in L || a in G)
  {
    hide Skeleton, Queued, Settled;
    forall a | a in A
      ensures !OverWaiting(s, A, a)
    {
    }
  }

  // With all slots right, that is the invariant of the tree with an empty cache and no pending
  // hashes.
  lemma SettledInv(s: State, A: Tree)
    requires Skeleton(s, A) && s.pd == map[] && forall a :: a in A ==> Settled(s, A, a)
    ensures Inv(s, A, {})
  {
    hide Linked;
    forall a | a in A
      ensures Good(s, A, {}, a)
    {
      assert Joined(s, A, a);
    }
  }

  // ---------- reading a route on the way up ----------

  lemma RouteAt(A: Tree, a: Addr, c: Addr)
    requires HasPrefixes(A, a) && Prefix(c, a) && |a.path| <= 4
    ensures |c.path| == 1 ==> TrueRoute(A, a)[0] == HashIdx(c.iid, c.path[0])
    ensures |c.path| > 1 ==> Parent(c) in A && TrueRoute(A, a)[|c.path| - 1] == HashIdx(A[Parent(c)], Last(c))
  {
    assert |c.path| > 1 ==> Parent(c).path == a.path[..|c.path| - 1];
  }

  lemma RouteTop(A: Tree, a: Addr)
    requires HasPrefixes(A, a) && |a.path| > 0
    ensures TrueRoute(A, a)[0] == HashIdx(a.iid, a.path[0])
  {
  }

  /** What the flush needs: true routes where a route is or will be used, which is for pending
      blocks and for dirty ones that are not pending yet. */
  ghost predicate Flushable(s: State, A: Tree) {
    TrulyRouted(s.pd, A) && forall b :: b in s.bcac && s.bcac[b].dirty && b !in s.pd ==> exists a :: TrueCached(s, A, b, a)
  }

  /** Every cached and every pending block carries its true route. */
  ghost predicate AllRouted(s: State, A: Tree) {
    TrulyRouted(s.pd, A) && forall b :: b in s.bcac ==> exists a :: TrueCached(s, A, b, a)
  }

  ghost predicate TrueCached(s: State, A: Tree, b: nat, a: Addr) {
    b in s.bcac && a in A && A[a] == b && HasPrefixes(A, a) && s.bcac[b].route == TrueRoute(A, a)
  }

  lemma RoutedFlushable(s: State, A: Tree)
    requires AllRouted(s, A)
    ensures Flushable(s, A)
  {
  }

  lemma SameCaches(s: State, t: State, A: Tree)
    requires t.bcac == s.bcac && t.pd == s.pd
    ensures AllRouted(s, A) ==> AllRouted(t, A)
  {
    if AllRouted(s, A) {
      forall b | b in t.bcac
        ensures exists a :: TrueCached(t, A, b, a)
      {
        var a :| TrueCached(s, A, b, a);
        assert TrueCached(t, A, b, a);
      }
    }
  }

  lemma ClimbParts(s: State, A: Tree, a: Addr, c: Addr, L: set<Addr>, G: set<Addr>)
    requires ClimbInv(s, A, a, c, L, G)
    ensures Skeleton(s, A) && Numbered(A) && a in A && c in A && Prefix(c, a) && Joined(s, A, c) && c.iid in s.ino
    ensures |s.ino[c.iid].hash| == NSLOTS && ValidPath(c.path) && ValidPath(a.path)
    ensures !IsRoot(c) ==> Parent(c) in A && Parent(c) != c
  {
    SkeletonNumbered(s, A);
    assert Joined(s, A, c);
  }

  lemma QueuedEntry(s: State, A: Tree, b: nat, L: set<Addr>, G: set<Addr>) returns (a: Addr)
    requires FlushInv(s, A, L, G) && b in s.pd
    ensures Waiting(s, A, a) && A[a] == b && HasPrefixes(A, a) && s.pd[b].route == TrueRoute(A, a) &&
      |s.pd[b].route| == 4
    ensures a.iid in s.ino && s.pd[b].hash == s.cs.hash(Plain(s, a.iid, b))
  {
    hide Skeleton, TrueRoute;
    a :| TrueEntry(s.pd, A, b, a);
    assert Waiting(s, A, a) && WaitingHash(s, A, a);
  }

  lemma FlushedRoutes(s: State, t: State, A: Tree)
    requires Routed(s, A) && t.bcac == map[] && t.pd == map[]
    ensures Routed(t, A)
  {
    forall a | a in A
      ensures RouteOk(t, A, a)
    {
      assert RouteOk(s, A, a);
    }
  }

  // After the cache's exit, settled is what was up to date before.
  lemma ExitUpToDate(s: State, t: State, A: Tree)
    requires Inv(s, A, {}) && SameViews(s, t, A, {}) && t.ino == s.ino && t.cs == s.cs && t.bcac == map[]
    ensures forall x :: x in A ==> (Settled(t, A, x) <==> UpToDate(s, A, x))
  {
    forall x | x in A
      ensures Settled(t, A, x) <==> UpToDate(s, A, x)
    {
      assert Good(s, A, {}, x);
      if !IsRoot(x) { assert Good(s, A, {}, Parent(x)); }
    }
  }
}
