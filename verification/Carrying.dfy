/** Which routes the blocks of the cache carry, and how often each of them is held. */
module Carrying {
  import opened Layout
  import opened Blocks
  import opened Crypto
  import opened Merkle
  import opened MerkleSteps
  import opened MerkleUpdates
  import opened Routes
  import opened Relations

  type Pairs = set<(nat, Route)>

  ghost function Refs(s: State, b: nat): nat {
    if b in s.bcac then s.bcac[b].refcnt else 0
  }

  ghost predicate CachedFrom(s: State, X: Pairs, b: nat, r: Route) {
    (b in s.bcac && s.bcac[b].route == r) || (b, r) in X
  }

  ghost predicate PendingFrom(s: State, X: Pairs, b: nat, r: Route) {
    CachedFrom(s, X, b, r) || (b in s.pd && s.pd[b].route == r)
  }

  // A cached block carries the route it was cached with before, or one that X gives it; a
  // pending block has kept its route or taken over such a one.
  ghost predicate Carried(s: State, t: State, X: Pairs) {
    (forall b :: b in t.bcac ==> CachedFrom(s, X, b, t.bcac[b].route)) &&
    forall b :: b in t.pd ==> PendingFrom(s, X, b, t.pd[b].route)
  }

  /** Block b is held n times more than before, every other block as often as before, and new
      routes come from X. */
  ghost predicate Taken(s: State, t: State, X: Pairs, b: nat, n: int) {
    Carried(s, t, X) && forall x: nat :: Refs(t, x) == Refs(s, x) + if x == b then n else 0
  }

  /** Every block is held as often as before, and new routes come from X. */
  ghost predicate Moved(s: State, t: State, X: Pairs) {
    Carried(s, t, X) && forall x: nat :: Refs(t, x) == Refs(s, x)
  }

  lemma MovedRefl(s: State)
    ensures Moved(s, s, {})
  {
  }

  lemma CarriedTrans(s: State, t: State, u: State, X: Pairs, Y: Pairs, Z: Pairs)
    requires Carried(s, t, X) && Carried(t, u, Y) && X <= Z && Y <= Z
    ensures Carried(s, u, Z)
  {
    forall b | b in u.bcac
      ensures CachedFrom(s, Z, b, u.bcac[b].route)
    {
      assert CachedFrom(t, Y, b, u.bcac[b].route);
      assert b in t.bcac ==> CachedFrom(s, X, b, t.bcac[b].route);
    }
    forall b | b in u.pd
      ensures PendingFrom(s, Z, b, u.pd[b].route)
    {
      assert PendingFrom(t, Y, b, u.pd[b].route);
      assert b in t.bcac ==> CachedFrom(s, X, b, t.bcac[b].route);
      assert b in t.pd ==> PendingFrom(s, X, b, t.pd[b].route);
    }
  }

  lemma MovedTrans(s: State, t: State, u: State, X: Pairs, Y: Pairs, Z: Pairs)
    requires Moved(s, t, X) && Moved(t, u, Y) && X <= Z && Y <= Z
    ensures Moved(s, u, Z)
  {
    CarriedTrans(s, t, u, X, Y, Z);
  }

  lemma MovedTaken(s: State, t: State, u: State, X: Pairs, Y: Pairs, Z: Pairs, b: nat, n: int)
    requires Moved(s, t, X) && Taken(t, u, Y, b, n) && X <= Z && Y <= Z
    ensures Taken(s, u, Z, b, n)
  {
    CarriedTrans(s, t, u, X, Y, Z);
  }

  lemma TakenMoved(s: State, t: State, u: State, X: Pairs, Y: Pairs, Z: Pairs, b: nat, n: int)
    requires Taken(s, t, X, b, n) && Moved(t, u, Y) && X <= Z && Y <= Z
    ensures Taken(s, u, Z, b, n)
  {
    CarriedTrans(s, t, u, X, Y, Z);
  }

  // A block is taken, and later returned.
  lemma TakenReturned(s: State, t: State, u: State, X: Pairs, b: nat)
    requires Taken(s, t, X, b, 1) && Taken(t, u, {}, b, -1)
    ensures Moved(s, u, X)
  {
    CarriedTrans(s, t, u, X, {}, X);
  }

  lemma MovedWiden(s: State, t: State, X: Pairs, Y: Pairs)
    requires Moved(s, t, X) && X <= Y
    ensures Moved(s, t, Y)
  {
    MovedRefl(t);
    MovedTrans(s, t, t, X, {}, Y);
  }

  // ---------- the steps ----------

  lemma EvictMoved(s: State, b: nat)
    requires b in s.bcac && s.bcac[b].refcnt == 0
    ensures Moved(s, WrittenBack(s, b), {})
  {
  }

  lemma PinTaken(s: State, b: nat, d: int)
    requires b in s.bcac && s.bcac[b].refcnt + d >= 0
    ensures Taken(s, Pinned(s, b, d), {}, b, d)
  {
  }

  lemma LoadTaken(s: State, b: nat, key: KeyIv, data: Block, route: Route)
    requires b !in s.bcac
    ensures Taken(s, Loaded(s, b, key, data, route), {(b, route)}, b, 1)
  {
  }

  lemma PullMoved(s: State, A: Tree, c: Addr)
    requires Addressed(s, A, c) && (IsRoot(c) || A[Parent(c)] in s.bcac)
    ensures Moved(s, MaybePulled(s, A, c), {})
  {
  }

  lemma GraftMoved(s: State, A: Tree, a: Addr, nb: nat)
    requires a.iid in s.ino && |s.ino[a.iid].bid| == |s.ino[a.iid].hash| == NSLOTS && ValidPath(a.path) &&
      nb < UINT32_SPAN
    requires IsRoot(a) || (Parent(a) in A && A[Parent(a)] in s.bcac)
    ensures Moved(s, Grafted(s, A, a, nb), {})
  {
  }

  lemma StoreMoved(s: State, b: nat, data: Block)
    requires b in s.bcac
    ensures Moved(s, Stored(s, b, data), {})
  {
  }

  // ---------- the route that a lookup hands along with a block ----------

  /** The first d levels of an address: the index block at depth d on the way to a. */
  ghost function Stage(a: Addr, d: nat): Addr
    requires d <= |a.path|
  {
    Addr(a.iid, a.path[..d])
  }

  /** What the route array holds when the block at depth d on the way to a is fetched, if it held
      left when the lookup began: the levels above the block, and what was left below them. */
  ghost function Handed(A: Tree, a: Addr, left: Route, d: nat): (r: Route)
    requires HasPrefixes(A, a) && |left| == 4
    ensures |r| == 4
  {
    seq(4, m requires 0 <= m < 4 => if m < d then TrueRoute(A, a)[m] else left[m])
  }

  /** The blocks at the depths below k on the way to a, each with the route handed along with it. */
  ghost function RoundPairs(A: Tree, a: Addr, left: Route, k: nat): Pairs
    requires HasPrefixes(A, a) && a in A && |left| == 4 && k <= |a.path| + 1
  {
    set d | 0 < d < k :: (A[StageIn(A, a, d)], Handed(A, a, left, d))
  }

  ghost function StageIn(A: Tree, a: Addr, d: nat): (c: Addr)
    requires HasPrefixes(A, a) && a in A && 0 < d <= |a.path|
    ensures c in A && c == Stage(a, d)
  {
    assert a.path[..|a.path|] == a.path;
    Stage(a, d)
  }

  lemma RouteGrows(A: Tree, A': Tree, a: Addr)
    requires Extends(A, A') && HasPrefixes(A, a)
    ensures HasPrefixes(A', a) && TrueRoute(A', a) == TrueRoute(A, a)
  {
  }

  lemma PairsGrow(A: Tree, A': Tree, a: Addr, left: Route, k: nat)
    requires Extends(A, A') && HasPrefixes(A, a) && a in A && |left| == 4 && k <= |a.path| + 1
    ensures HasPrefixes(A', a) && RoundPairs(A', a, left, k) == RoundPairs(A, a, left, k)
  {
    RouteGrows(A, A', a);
    forall d | 0 < d < k
      ensures A'[StageIn(A', a, d)] == A[StageIn(A, a, d)] && Handed(A', a, left, d) == Handed(A, a, left, d)
    {
      assert StageIn(A, a, d) == StageIn(A', a, d);
    }
  }

  // ---------- a lookup, level after level ----------

  /** A lookup that began with the array left has come to the block at c, and hx is the array. */
  ghost predicate Handing(s: State, t: State, A: Tree, c: Addr, left: Route, hx: Route) {
    |left| == 4 && c in A && PartRoute(A, c, hx) && (forall m :: |c.path| <= m < 4 ==> hx[m] == left[m]) &&
    Moved(s, t, RoundPairs(A, c, left, |c.path|))
  }

  lemma HandingStarts(s: State, t: State, A: Tree, c: Addr, left: Route, hx: Route)
    requires |left| == 4 && c in A && IsRoot(c) && PartRoute(A, c, hx) && Moved(s, t, {})
    requires forall m :: 1 <= m < 4 ==> hx[m] == left[m]
    ensures Handing(s, t, A, c, left, hx)
  {
    assert RoundPairs(A, c, left, 1) == {};
  }

  // The array at that point is what the next level is handed.
  lemma ArrayIsHanded(A: Tree, c: Addr, j: nat, left: Route, hx: Route)
    requires c in A && HasPrefixes(A, Child(c, j)) && PartRoute(A, c, hx) && |left| == 4
    requires forall m :: |c.path| <= m < 4 ==> hx[m] == left[m]
    ensures Handed(A, Child(c, j), left, |c.path|) == hx
  {
    var a := Child(c, j);
    forall m | 0 <= m < |c.path|
      ensures TrueRoute(A, a)[m] == hx[m]
    {
      assert a.path[m] == c.path[m] && a.path[..m] == c.path[..m];
    }
    var r := Handed(A, a, left, |c.path|);
    assert forall m :: 0 <= m < 4 ==> r[m] == hx[m];
  }

  // Above it, what was handed along does not depend on how the path goes on.
  lemma HandedAbove(A: Tree, c: Addr, j: nat, left: Route, d: nat)
    requires c in A && HasPrefixes(A, c) && HasPrefixes(A, Child(c, j)) && |left| == 4 && 0 < d < |c.path| <= 4
    ensures Handed(A, Child(c, j), left, d) == Handed(A, c, left, d) && Stage(Child(c, j), d) == Stage(c, d)
  {
    var a := Child(c, j);
    assert a.path[..d] == c.path[..d];
    forall m | 0 <= m < d
      ensures TrueRoute(A, a)[m] == TrueRoute(A, c)[m]
    {
      assert a.path[m] == c.path[m] && a.path[..m] == c.path[..m];
    }
    var x, y := Handed(A, a, left, d), Handed(A, c, left, d);
    assert forall m :: 0 <= m < 4 ==> x[m] == y[m];
  }

  lemma PairsStep(A: Tree, c: Addr, j: nat, left: Route, hx: Route)
    requires c in A && Child(c, j) in A && HasPrefixes(A, Child(c, j)) && PartRoute(A, c, hx) && |left| == 4 &&
      |c.path| < 4
    requires forall m :: |c.path| <= m < 4 ==> hx[m] == left[m]
    ensures RoundPairs(A, Child(c, j), left, |c.path| + 1) == RoundPairs(A, c, left, |c.path|) + {(A[c], hx)}
  {
    var a, n := Child(c, j), |c.path|;
    ArrayIsHanded(A, c, j, left, hx);
    assert a.path[..n] == c.path;
    assert Stage(a, n) == c;
    forall d | 0 < d < n
      ensures A[StageIn(A, a, d)] == A[StageIn(A, c, d)] && Handed(A, a, left, d) == Handed(A, c, left, d)
    {
      HandedAbove(A, c, j, left, d);
    }
    hide Handed, Stage, StageIn;
    var X, Y := RoundPairs(A, a, left, n + 1), RoundPairs(A, c, left, n);
    forall p | p in X
      ensures p in Y + {(A[c], hx)}
    {
      var d :| 0 < d < n + 1 && p == (A[StageIn(A, a, d)], Handed(A, a, left, d));
      if d < n { assert p == (A[StageIn(A, c, d)], Handed(A, c, left, d)); }
    }
    forall p | p in Y
      ensures p in X
    {
      var d :| 0 < d < n && p == (A[StageIn(A, c, d)], Handed(A, c, left, d));
      assert p == (A[StageIn(A, a, d)], Handed(A, a, left, d));
    }
    assert (A[StageIn(A, a, n)], Handed(A, a, left, n)) in X;
  }

  lemma HandingStep(s: State, t: State, u: State, A: Tree, A': Tree, c: Addr, j: nat, left: Route, hx: Route)
    requires Handing(s, t, A, c, left, hx) && Extends(A, A') && |c.path| < 4 && Child(c, j) in A'
    requires Moved(t, u, {(A[c], hx)})
    ensures Handing(s, u, A', Child(c, j), left, hx[|c.path| := HashIdx(A[c], j)])
  {
    PartRouteStep(A, A', c, hx, j);
    PartRouteGrows(A, A', c, hx);
    PairsGrow(A, A', c, left, |c.path|);
    PairsStep(A', c, j, left, hx);
    MovedTrans(s, t, u, RoundPairs(A, c, left, |c.path|), {(A[c], hx)}, RoundPairs(A', Child(c, j), left, |c.path| + 1));
  }

  // The lookup has arrived, at a block below which the array was clear.
  lemma HandingDone(s: State, t: State, A: Tree, a: Addr, left: Route, hx: Route)
    requires Handing(s, t, A, a, left, hx) && forall m :: |a.path| <= m < 4 ==> left[m] == HashIdx(0, 0)
    ensures HasPrefixes(A, a) && hx == TrueRoute(A, a) && |left| == 4 && Moved(s, t, RoundPairs(A, a, left, |a.path|))
  {
    RouteComplete(A, a, hx);
  }

  lemma PartRouteGrows(A: Tree, A': Tree, c: Addr, hx: Route)
    requires PartRoute(A, c, hx) && Extends(A, A')
    ensures PartRoute(A', c, hx)
  {
  }

  // ---------- a transfer, block after block ----------

  const MAXBLOCKS := NDIRECT + NINDIRECT1 + NINDIRECT2 + NINDIRECT3

  ghost function Leaf(i: nat, x: nat): Addr
    requires x < MAXBLOCKS
  {
    Addr(i, PathOf(x))
  }

  // Blocks b0 to q - 1 of file i exist, and the index blocks that lead to them.
  ghost predicate Exist(A: Tree, i: nat, b0: nat, q: nat) {
    q <= MAXBLOCKS && forall x :: b0 <= x < q ==> Leaf(i, x) in A && HasPrefixes(A, Leaf(i, x))
  }

  /** The route array at the beginning of the round for block q: cleared before the first round,
      and afterwards what the round before has made of it. */
  ghost function LeftOver(A: Tree, i: nat, b0: nat, q: nat): (r: Route)
    requires b0 <= q && Exist(A, i, b0, q)
    ensures |r| == 4
  {
    if q == b0 then seq(4, _ => HashIdx(0, 0)) else TrueRoute(A, Leaf(i, q - 1))
  }

  /** The blocks that a transfer of blocks b0 to q - 1 may fetch, each with the route that it is
      handed then. */
  ghost function Dealt(A: Tree, i: nat, b0: nat, q: nat): Pairs
    requires b0 <= q && Exist(A, i, b0, q)
    decreases q
  {
    if q == b0 then {}
    else Dealt(A, i, b0, q - 1) + RoundPairs(A, Leaf(i, q - 1), LeftOver(A, i, b0, q - 1), |PathOf(q - 1)| + 1)
  }

  lemma {:induction false} DealtGrows(A: Tree, A': Tree, i: nat, b0: nat, q: nat)
    requires b0 <= q && Exist(A, i, b0, q) && Extends(A, A')
    ensures Exist(A', i, b0, q) && Dealt(A', i, b0, q) == Dealt(A, i, b0, q) &&
      LeftOver(A', i, b0, q) == LeftOver(A, i, b0, q)
    decreases q
  {
    forall x | b0 <= x < q
      ensures Leaf(i, x) in A' && HasPrefixes(A', Leaf(i, x))
    {
      RouteGrows(A, A', Leaf(i, x));
    }
    if q > b0 {
      DealtGrows(A, A', i, b0, q - 1);
      RouteGrows(A, A', Leaf(i, q - 1));
      PairsGrow(A, A', Leaf(i, q - 1), LeftOver(A, i, b0, q - 1), |PathOf(q - 1)| + 1);
    }
  }

  /** The part of a transfer up to block q is done, and hx is the route array. */
  ghost predicate Underway(s: State, t: State, A: Tree, i: nat, b0: nat, q: nat, hx: Route) {
    b0 <= q && Exist(A, i, b0, q) && Moved(s, t, Dealt(A, i, b0, q)) && hx == LeftOver(A, i, b0, q)
  }

  lemma UnderwayStep(s: State, s1: State, t: State, A: Tree, A': Tree, i: nat, b0: nat, q: nat, left: Route, hx: Route)
    requires Underway(s, s1, A, i, b0, q, left) && Extends(A, A') && q < MAXBLOCKS
    requires Leaf(i, q) in A' && HasPrefixes(A', Leaf(i, q)) && hx == TrueRoute(A', Leaf(i, q))
    requires Moved(s1, t, RoundPairs(A', Leaf(i, q), left, |PathOf(q)| + 1))
    ensures Underway(s, t, A', i, b0, q + 1, hx)
  {
    DealtGrows(A, A', i, b0, q);
    assert Exist(A', i, b0, q + 1);
    MovedTrans(s, s1, t, Dealt(A', i, b0, q), RoundPairs(A', Leaf(i, q), left, |PathOf(q)| + 1), Dealt(A', i, b0, q + 1));
  }

  // The block after the last one of a transfer of n bytes at off.
  function EndBlock(off: nat, n: nat): nat {
    if n == 0 then off / BLK_SZ else (off + n - 1) / BLK_SZ + 1
  }

  /** After a transfer of n bytes at off no block is held more or less often than before, and a
      block that was not cached before carries the route that the transfer handed along with it. */
  ghost predicate Transferred(s: State, t: State, A: Tree, i: nat, off: nat, n: nat) {
    Exist(A, i, off / BLK_SZ, EndBlock(off, n)) && Moved(s, t, Dealt(A, i, off / BLK_SZ, EndBlock(off, n)))
  }

  lemma UnderwayStarts(s: State, A: Tree, i: nat, b0: nat)
    requires b0 <= MAXBLOCKS
    ensures Underway(s, s, A, i, b0, b0, LeftOver0())
  {
    MovedRefl(s);
  }

  // The cleared route array.
  function LeftOver0(): Route { seq(4, _ => HashIdx(0, 0)) }

  lemma UnderwayEnds(s: State, t: State, A: Tree, i: nat, off: nat, n: nat, hx: Route)
    requires Underway(s, t, A, i, off / BLK_SZ, EndBlock(off, n), hx)
    ensures Transferred(s, t, A, i, off, n)
  {
  }

  // The block of the next round is the one after the last.
  lemma NextBlock(off: nat, n: nat, done: nat, r: nat)
    requires done < n && 0 < r <= n - done && (off + done) / BLK_SZ == EndBlock(off, done)
    requires r == n - done || (off + done) % BLK_SZ + r == BLK_SZ
    requires (off + done) % BLK_SZ + r <= BLK_SZ
    ensures EndBlock(off, done + r) == EndBlock(off, done) + 1
    ensures done + r < n ==> (off + done + r) / BLK_SZ == EndBlock(off, done + r)
  {
  }

  // The round's data block joins the index blocks of its lookup.
  lemma ObtainTaken(s: State, s1: State, t: State, A: Tree, a: Addr, left: Route, hx: Route)
    requires a in A && HasPrefixes(A, a) && |left| == 4 && 1 <= |a.path| <= 4 && hx == TrueRoute(A, a)
    requires forall m :: |a.path| <= m < 4 ==> left[m] == HashIdx(0, 0)
    requires Moved(s, s1, RoundPairs(A, a, left, |a.path|))
    requires Taken(s1, t, if A[a] in s1.bcac then {} else {(A[a], hx)}, A[a], 1)
    ensures Taken(s, t, RoundPairs(A, a, left, |a.path| + 1), A[a], 1)
  {
    var X, Y := RoundPairs(A, a, left, |a.path|), RoundPairs(A, a, left, |a.path| + 1);
    var n := |a.path|;
    assert a.path[..n] == a.path;
    var r := Handed(A, a, left, n);
    assert r == hx by {
      assert forall m :: 0 <= m < 4 ==> r[m] == hx[m];
    }
    assert (A[StageIn(A, a, n)], Handed(A, a, left, n)) in Y;
    assert X <= Y;
    var Z := if A[a] in s1.bcac then {} else {(A[a], hx)};
    assert Z <= Y;
    MovedTaken(s, s1, t, X, Z, Y, A[a], 1);
  }

  lemma TransferredResized(s: State, t: State, A: Tree, i: nat, off: nat, n: nat, size: nat)
    requires Transferred(s, t, A, i, off, n) && i in t.ino
    ensures Transferred(s, Resized(t, i, size), A, i, off, n)
  {
  }
}
