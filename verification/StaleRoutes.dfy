/** The route array of a transfer is cleared once, before the first block.  An index block that
    is loaded for a later block therefore gets a route whose deeper entries are left over from
    the block before. */
module StaleRoutes {
  import opened Layout
  import opened Blocks
  import opened Crypto
  import opened Merkle
  import opened Routes
  import opened Relations
  import opened Carrying
  import opened Mending
  import opened Flush

  lemma StageRoute(A: Tree, a: Addr, d: nat)
    requires HasPrefixes(A, a) && 0 < d < |a.path| <= 4
    ensures HasPrefixes(A, Stage(a, d)) && |TrueRoute(A, Stage(a, d))| == 4
    ensures forall m :: 0 <= m < 4 ==> TrueRoute(A, Stage(a, d))[m] == if m < d then TrueRoute(A, a)[m] else HashIdx(0, 0)
  {
    var c := Stage(a, d);
    forall m | 1 <= m < d
      ensures c.path[..m] == a.path[..m] && Addr(c.iid, c.path[..m]) in A
    {
      assert Addr(a.iid, a.path[..m]) in A;
    }
  }

  // In the first round every index block gets its true route.
  lemma FirstRoundExact(A: Tree, a: Addr, left: Route, d: nat)
    requires HasPrefixes(A, a) && 0 < d < |a.path| <= 4 && |left| == 4 && forall m :: 0 <= m < 4 ==> left[m] == HashIdx(0, 0)
    ensures HasPrefixes(A, Stage(a, d)) && Handed(A, a, left, d) == TrueRoute(A, Stage(a, d))
  {
    StageRoute(A, a, d);
  }

  /** In a later round the index block at depth d gets its true route if and only if the block
      transferred before lies no deeper than d. */
  lemma LaterRoundIff(A: Tree, a: Addr, prev: Addr, d: nat)
    requires Numbered(A) && a in A && prev in A && HasPrefixes(A, a) && HasPrefixes(A, prev) && 0 < d < |a.path|
    ensures |a.path| <= 4 && HasPrefixes(A, Stage(a, d))
    ensures Handed(A, a, TrueRoute(A, prev), d) == TrueRoute(A, Stage(a, d)) <==> |prev.path| <= d
  {
    StageRoute(A, a, d);
    var left := TrueRoute(A, prev);
    TrueDeepest(A, prev);
    if |prev.path| > d {
      assert Addr(prev.iid, prev.path[..d]) in A;
      assert left[d].id != 0;
      assert Handed(A, a, left, d)[d] == left[d];
      assert TrueRoute(A, Stage(a, d))[d] == HashIdx(0, 0);
    }
  }

  /** Two blocks below the same index block: in the second round, that index block's route
      passes through the index block itself. */
  lemma NamesItself(A: Tree, a: Addr, prev: Addr, d: nat)
    requires Numbered(A) && a in A && prev in A && HasPrefixes(A, a) && HasPrefixes(A, prev)
    requires 0 < d < |a.path| && d < |prev.path| && Stage(a, d) == Stage(prev, d)
    ensures Stage(a, d) in A && A[Stage(a, d)] in Passed(Handed(A, a, TrueRoute(A, prev), d))
  {
    var left := TrueRoute(A, prev);
    var r := Handed(A, a, left, d);
    TrueDeepest(A, prev);
    assert left[d].id == A[Stage(a, d)];
    assert Deepest(left) >= d;
    assert r[Deepest(left)] == left[Deepest(left)];
    assert Deepest(r) >= d && r[d] == left[d];
  }

  // ---------- which transfers hand out true routes only ----------

  /** A transfer of one block, or one that ends at block 10 at the latest. */
  predicate Straight(off: nat, n: nat) {
    n == 0 || (off + n - 1) / BLK_SZ == off / BLK_SZ || (off + n - 1) / BLK_SZ <= NDIRECT
  }

  // Every index block fetched in the round for block x is handed its true route.
  ghost predicate ExactRound(A: Tree, i: nat, b0: nat, x: nat)
    requires b0 <= x && Exist(A, i, b0, x + 1)
  {
    forall d :: 0 < d < |PathOf(x)| ==> ExactAt(A, i, b0, x, d)
  }

  ghost predicate ExactAt(A: Tree, i: nat, b0: nat, x: nat, d: nat)
    requires b0 <= x && Exist(A, i, b0, x + 1) && d < |PathOf(x)|
  {
    HasPrefixes(A, Stage(Leaf(i, x), d)) && Handed(A, Leaf(i, x), LeftOver(A, i, b0, x), d) == TrueRoute(A, Stage(Leaf(i, x), d))
  }

  lemma DepthOfNext(x: nat)
    requires x + 1 < MAXBLOCKS
    ensures x < NDIRECT ==> |PathOf(x)| == 1
    ensures x >= NDIRECT ==> |PathOf(x)| > 1 && |PathOf(x + 1)| > 1
  {
  }

  lemma RoundIff(A: Tree, i: nat, b0: nat, x: nat)
    requires Numbered(A) && b0 <= x && Exist(A, i, b0, x + 1)
    ensures ExactRound(A, i, b0, x) <==> x == b0 || x <= NDIRECT
  {
    var a := Leaf(i, x);
    assert a in A && HasPrefixes(A, a);
    assert ValidPath(a.path);
    if x == b0 {
      forall d | 0 < d < |PathOf(x)|
        ensures ExactAt(A, i, b0, x, d)
      {
        FirstRoundExact(A, a, LeftOver(A, i, b0, x), d);
      }
    } else {
      var prev := Leaf(i, x - 1);
      assert prev in A && HasPrefixes(A, prev);
      DepthOfNext(x - 1);
      forall d | 0 < d < |PathOf(x)|
        ensures ExactAt(A, i, b0, x, d) <==> |PathOf(x - 1)| <= d
      {
        LaterRoundIff(A, a, prev, d);
      }
      if x > NDIRECT { assert !ExactAt(A, i, b0, x, 1); }
    }
  }

  /** In a transfer of blocks b0 to b1 every index block is handed its true route if and only if
      the transfer is of one block, or does not go beyond block 10. */
  lemma TransferIff(A: Tree, i: nat, b0: nat, b1: nat)
    requires Numbered(A) && b0 <= b1 && Exist(A, i, b0, b1 + 1)
    ensures (forall x :: b0 <= x <= b1 ==> ExactRound(A, i, b0, x)) <==> b1 == b0 || b1 <= NDIRECT
  {
    forall x | b0 <= x <= b1
      ensures Exist(A, i, b0, x + 1) && (ExactRound(A, i, b0, x) <==> x == b0 || x <= NDIRECT)
    {
      RoundIff(A, i, b0, x);
    }
    assert (forall x :: b0 <= x <= b1 ==> ExactRound(A, i, b0, x)) ==> ExactRound(A, i, b0, b1);
  }

  /** The same on the arguments of a transfer. */
  lemma StraightIff(A: Tree, i: nat, off: nat, n: nat)
    requires Numbered(A) && n > 0 && Exist(A, i, off / BLK_SZ, EndBlock(off, n))
    ensures off / BLK_SZ < EndBlock(off, n)
    ensures Straight(off, n) <==> forall x :: off / BLK_SZ <= x < EndBlock(off, n) ==> ExactRound(A, i, off / BLK_SZ, x)
  {
    TransferIff(A, i, off / BLK_SZ, (off + n - 1) / BLK_SZ);
  }

  // ---------- what such a transfer leaves in the cache ----------

  ghost predicate AllTrue(A: Tree, X: Pairs) {
    forall p :: p in X ==> exists a :: TrueFor(A, p.0, p.1, a)
  }

  // The pairs of one exact round, its data block included.
  lemma RoundTrue(A: Tree, i: nat, b0: nat, x: nat)
    requires Numbered(A) && b0 <= x && Exist(A, i, b0, x + 1) && ExactRound(A, i, b0, x)
    ensures AllTrue(A, RoundPairs(A, Leaf(i, x), LeftOver(A, i, b0, x), |PathOf(x)| + 1))
  {
    var a, left := Leaf(i, x), LeftOver(A, i, b0, x);
    assert a in A && HasPrefixes(A, a) && a.path[..|a.path|] == a.path;
    forall p | p in RoundPairs(A, a, left, |PathOf(x)| + 1)
      ensures exists c :: TrueFor(A, p.0, p.1, c)
    {
      var d :| 0 < d < |PathOf(x)| + 1 && p == (A[StageIn(A, a, d)], Handed(A, a, left, d));
      if d < |PathOf(x)| {
        assert ExactAt(A, i, b0, x, d);
      } else {
        LeafHandedTrue(A, i, b0, x);
      }
      assert TrueFor(A, p.0, p.1, StageIn(A, a, d));
    }
  }

  // The data block itself is handed its true route in every round.
  lemma LeafHandedTrue(A: Tree, i: nat, b0: nat, x: nat)
    requires Numbered(A) && b0 <= x && Exist(A, i, b0, x + 1)
    ensures Handed(A, Leaf(i, x), LeftOver(A, i, b0, x), |PathOf(x)|) == TrueRoute(A, Leaf(i, x))
  {
    assert Leaf(i, x) in A && ValidPath(Leaf(i, x).path);
    if x > b0 {
      assert Leaf(i, x - 1) in A && HasPrefixes(A, Leaf(i, x - 1));
      DepthMonotone(x - 1, x);
    }
    var r, t := Handed(A, Leaf(i, x), LeftOver(A, i, b0, x), |PathOf(x)|), TrueRoute(A, Leaf(i, x));
    assert forall m :: 0 <= m < 4 ==> r[m] == t[m];
  }

  lemma {:induction false} DealtTrue(A: Tree, i: nat, b0: nat, q: nat)
    requires Numbered(A) && b0 <= q && Exist(A, i, b0, q)
    requires q <= b0 + 1 || q - 1 <= NDIRECT
    ensures AllTrue(A, Dealt(A, i, b0, q))
    decreases q
  {
    hide RoundPairs, ExactRound, Numbered, PathOf, LeftOver, HasPrefixes, TrueFor;
    if q > b0 {
      DealtTrue(A, i, b0, q - 1);
      RoundIff(A, i, b0, q - 1);
      RoundTrue(A, i, b0, q - 1);
      AllTrueBoth(A, Dealt(A, i, b0, q - 1), RoundPairs(A, Leaf(i, q - 1), LeftOver(A, i, b0, q - 1), |PathOf(q - 1)| + 1));
    }
  }

  lemma AllTrueBoth(A: Tree, X: Pairs, Y: Pairs)
    requires AllTrue(A, X) && AllTrue(A, Y)
    ensures AllTrue(A, X + Y)
  {
  }

  // New true routes keep all routes true, also while the tree grows.
  lemma CarriedRouted(s: State, A: Tree, t: State, A': Tree, X: Pairs)
    requires AllRouted(s, A) && Extends(A, A') && Carried(s, t, X) && AllTrue(A', X)
    ensures AllRouted(t, A')
  {
    hide TrueRoute, HasPrefixes;
    forall b | b in t.bcac
      ensures exists a :: TrueCached(t, A', b, a)
    {
      var a := CachedTrue(s, A, A', X, b, t.bcac[b].route);
      assert TrueCached(t, A', b, a);
    }
    forall b | b in t.pd
      ensures exists a :: TrueEntry(t.pd, A', b, a)
    {
      var r := t.pd[b].route;
      var a: Addr;
      if CachedFrom(s, X, b, r) {
        a := CachedTrue(s, A, A', X, b, r);
      } else {
        a :| TrueEntry(s.pd, A, b, a);
        RouteGrows(A, A', a);
      }
      assert TrueEntry(t.pd, A', b, a);
    }
  }

  lemma CachedTrue(s: State, A: Tree, A': Tree, X: Pairs, b: nat, r: Route) returns (a: Addr)
    requires AllRouted(s, A) && Extends(A, A') && AllTrue(A', X) && CachedFrom(s, X, b, r)
    ensures TrueFor(A', b, r, a)
  {
    hide TrueRoute, HasPrefixes;
    if (b, r) in X {
      a :| TrueFor(A', (b, r).0, (b, r).1, a);
    } else {
      a :| TrueCached(s, A, b, a);
      RouteGrows(A, A', a);
    }
  }

  /** A straight transfer keeps all routes true. */
  lemma TransferRouted(s: State, A: Tree, t: State, A': Tree, i: nat, off: nat, n: nat)
    requires AllRouted(s, A) && Extends(A, A') && Numbered(A') && Transferred(s, t, A', i, off, n) && Straight(off, n)
    ensures AllRouted(t, A')
  {
    DealtTrue(A', i, off / BLK_SZ, EndBlock(off, n));
    CarriedRouted(s, A, t, A', Dealt(A', i, off / BLK_SZ, EndBlock(off, n)));
  }

  // ---------- and what another one may leave there ----------

  /** A transfer of blocks 122 and 123, the last of the single indirect block and the first of
      the double one.  If the index block at slot 11 was not cached before and is afterwards, it
      carries the entry of block 122 in its route, which is not its true route. */
  lemma CrossingStale(s: State, t: State, A: Tree, i: nat)
    requires Numbered(A) && Exist(A, i, 122, 124) && Moved(s, t, Dealt(A, i, 122, 124))
    requires Addr(i, [NDIRECT + 1]) in A && A[Addr(i, [NDIRECT + 1])] !in s.bcac && A[Addr(i, [NDIRECT + 1])] in t.bcac
    ensures Addr(i, [NDIRECT]) in A && HasPrefixes(A, Addr(i, [NDIRECT + 1]))
    ensures var r := t.bcac[A[Addr(i, [NDIRECT + 1])]].route;
      |r| == 4 && r[1] == HashIdx(A[Addr(i, [NDIRECT])], 112) && r != TrueRoute(A, Addr(i, [NDIRECT + 1]))
  {
    hide Dealt, RoundPairs, Handed, Moved;
    var a, prev, c := Leaf(i, 123), Leaf(i, 122), Addr(i, [NDIRECT + 1]);
    Crossing(A, i);
    var r := t.bcac[A[c]].route;
    DealtCrossing(s, t, A, i);
    CrossingPair(A, i, A[c], r);
    LaterRoundIff(A, a, prev, 1);
    DeepestLeft(A, a, prev, 1);
    HandedBelow(A, a, TrueRoute(A, prev), 1, 1);
  }

  // The addresses on both sides of the border.
  lemma Crossing(A: Tree, i: nat)
    requires Exist(A, i, 122, 124)
    ensures Leaf(i, 122) == Addr(i, [NDIRECT, 112]) && Leaf(i, 123) == Addr(i, [NDIRECT + 1, 0, 0])
    ensures Leaf(i, 122) in A && HasPrefixes(A, Leaf(i, 122)) && Leaf(i, 123) in A && HasPrefixes(A, Leaf(i, 123))
    ensures Addr(i, [NDIRECT]) in A && Stage(Leaf(i, 123), 1) == Addr(i, [NDIRECT + 1]) &&
      Parent(Leaf(i, 122)) == Addr(i, [NDIRECT])
    ensures TrueRoute(A, Leaf(i, 122))[1] == HashIdx(A[Addr(i, [NDIRECT])], 112) &&
      LeftOver(A, i, 122, 123) == TrueRoute(A, Leaf(i, 122))
  {
    var p := PathOf(122);
    assert p == [NDIRECT, 112] && p[..1] == [NDIRECT];
    assert PathOf(123)[..1] == [NDIRECT + 1];
    assert Leaf(i, 122) in A && HasPrefixes(A, Leaf(i, 122));
    assert Addr(i, p[..1]) in A;
  }

  lemma HandedBelow(A: Tree, a: Addr, left: Route, d: nat, m: nat)
    requires HasPrefixes(A, a) && |left| == 4 && d <= m < 4
    ensures Handed(A, a, left, d)[m] == left[m]
  {
  }

  lemma DealtCrossing(s: State, t: State, A: Tree, i: nat)
    requires Exist(A, i, 122, 124) && Moved(s, t, Dealt(A, i, 122, 124))
    requires Addr(i, [NDIRECT + 1]) in A && A[Addr(i, [NDIRECT + 1])] !in s.bcac && A[Addr(i, [NDIRECT + 1])] in t.bcac
    ensures var b := A[Addr(i, [NDIRECT + 1])]; (b, t.bcac[b].route) in Dealt(A, i, 122, 124)
  {
    var b := A[Addr(i, [NDIRECT + 1])];
    hide Dealt;
    assert CachedFrom(s, Dealt(A, i, 122, 124), b, t.bcac[b].route);
  }

  // The index block at slot 11 is handed one route only.
  lemma CrossingPair(A: Tree, i: nat, b: nat, r: Route)
    requires Numbered(A) && Exist(A, i, 122, 124) && (b, r) in Dealt(A, i, 122, 124)
    requires Addr(i, [NDIRECT + 1]) in A && b == A[Addr(i, [NDIRECT + 1])]
    ensures Leaf(i, 122) in A && HasPrefixes(A, Leaf(i, 122)) && Leaf(i, 123) in A && HasPrefixes(A, Leaf(i, 123))
    ensures r == Handed(A, Leaf(i, 123), TrueRoute(A, Leaf(i, 122)), 1)
  {
    Crossing(A, i);
    var c := Addr(i, [NDIRECT + 1]);
    assert Dealt(A, i, 122, 122) == {};
    var X := RoundPairs(A, Leaf(i, 122), LeftOver(A, i, 122, 122), 3);
    var Y := RoundPairs(A, Leaf(i, 123), LeftOver(A, i, 122, 123), 4);
    assert Dealt(A, i, 122, 124) == Dealt(A, i, 122, 123) + Y && Dealt(A, i, 122, 123) == X;
    if (b, r) in X {
      OtherSlot(A, Leaf(i, 122), LeftOver(A, i, 122, 122), 3, c, r);
    } else {
      OneStage(A, Leaf(i, 123), LeftOver(A, i, 122, 123), 4, 1, r);
    }
  }

  // A round through another slot of the inode does not touch the block at c.
  lemma OtherSlot(A: Tree, a: Addr, left: Route, k: nat, c: Addr, r: Route)
    requires Numbered(A) && HasPrefixes(A, a) && a in A && |left| == 4 && k <= |a.path| + 1 && c in A
    requires a.path[0] != c.path[0]
    ensures (A[c], r) !in RoundPairs(A, a, left, k)
  {
    forall d | 0 < d < k
      ensures A[StageIn(A, a, d)] != A[c]
    {
      assert StageIn(A, a, d).path[0] == a.path[0];
    }
  }

  // The block at depth d of a round is handed the route of that depth.
  lemma OneStage(A: Tree, a: Addr, left: Route, k: nat, d: nat, r: Route)
    requires Numbered(A) && HasPrefixes(A, a) && a in A && |left| == 4 && 0 < d < k <= |a.path| + 1
    requires (A[StageIn(A, a, d)], r) in RoundPairs(A, a, left, k)
    ensures r == Handed(A, a, left, d)
  {
    var e :| 0 < e < k && (A[StageIn(A, a, d)], r) == (A[StageIn(A, a, e)], Handed(A, a, left, e));
    assert |StageIn(A, a, d).path| == d && |StageIn(A, a, e).path| == e;
  }

  /** Deduplication drops a block whose own route passes through it.  When such a block is the only
      one that waits, the flush can use all routes that are kept, for there are none, and leaves
      exactly this block behind. */
  lemma LostHash(s: State, A: Tree, c: Addr)
    requires Inv(s, A, {}) && c in A && Full(Left(s)) && Left(s).Keys == {A[c]} && A[c] in Passed(Left(s)[A[c]])
    ensures Guided(Left(s), A) && Lost(Left(s), A) == {c}
  {
    hide Left, Passed;
    var R := Left(s);
    forall b
      ensures !Keeps(R, b)
    {
      if b in R { assert b in R.Keys; }
    }
    forall x | x in A && A[x] in R
      ensures x == c
    {
      assert A[x] in R.Keys;
    }
    assert A[c] in R.Keys;
  }

  // ---------- a route that leads elsewhere ----------

  // The deepest entry of a left-over route is that of the block transferred before.
  lemma DeepestLeft(A: Tree, a: Addr, prev: Addr, d: nat)
    requires Numbered(A) && a in A && prev in A && HasPrefixes(A, a) && HasPrefixes(A, prev)
    requires 0 < d < |a.path| && d < |prev.path|
    ensures Parent(prev) in A
    ensures var r := Handed(A, a, TrueRoute(A, prev), d);
      Deepest(r) == |prev.path| - 1 && r[Deepest(r)] == HashIdx(A[Parent(prev)], Last(prev))
  {
    var left := TrueRoute(A, prev);
    var r := Handed(A, a, left, d);
    TrueDeepest(A, prev);
    assert prev.path[..|prev.path|] == prev.path;
    RouteAt(A, prev, prev);
    assert r[Deepest(left)] == left[Deepest(left)];
    forall m | Deepest(left) < m < 4
      ensures r[m].id == 0
    {
      assert r[m] == left[m];
    }
  }
}
