/** What single operations may have done to the block tree, as relations between states. */
module Relations {
  import opened Layout
  import opened Blocks
  import opened Crypto
  import opened Merkle
  import opened MerkleSteps
  import opened MerkleUpdates
  import opened Routes

  ghost predicate Sound(s: State, A: Tree, fr: set<nat>) {
    Inv(s, A, fr) && Routed(s, A)
  }

  // Pinned blocks are still cached as they were.
  ghost predicate PinsKept(s: State, t: State) {
    forall b :: b in s.bcac && s.bcac[b].refcnt > 0 ==> b in t.bcac && t.bcac[b] == s.bcac[b]
  }

  // Blocks that were not cached have not been touched.
  ghost predicate UncachedKept(s: State, t: State) {
    (forall b :: b in t.bcac ==> b in s.bcac) &&
    forall b :: b !in s.bcac ==> (b in t.pd <==> b in s.pd)
  }

  // What a bout of evictions may have done.
  ghost predicate Shrunk(s: State, t: State, A: Tree, fr: set<nat>) {
    Sound(t, A, fr) && SameViews(s, t, A, fr) && PinsKept(s, t) && UncachedKept(s, t) &&
    t.ino == s.ino && t.used == s.used && t.cs == s.cs
  }

  lemma ShrunkRefl(s: State, A: Tree, fr: set<nat>)
    requires Sound(s, A, fr)
    ensures Shrunk(s, s, A, fr)
  {
  }

  lemma ShrunkStep(s: State, t: State, A: Tree, fr: set<nat>, b: nat)
    requires Shrunk(s, t, A, fr) && b in t.bcac && t.bcac[b].refcnt == 0
    ensures Shrunk(s, WrittenBack(t, b), A, fr)
  {
    EvictKeeps(t, A, fr, b);
    EvictRouted(t, A, b);
  }

  lemma ShrunkSlot(s: State, t: State, A: Tree, fr: set<nat>, a: Addr)
    requires Inv(s, A, fr) && Shrunk(s, t, A, fr) && a in A
    ensures Addressed(s, A, a) && Addressed(t, A, a) && SlotHash(t, A, fr, a) == SlotHash(s, A, fr, a)
  {
    assert Good(s, A, fr, a) && Good(t, A, fr, a);
  }

  // A block has been brought into the cache, or one more reference to it taken.
  ghost predicate Got(s: State, t: State, A: Tree, fr: set<nat>, a: Addr) {
    Sound(t, A, fr) && SameViews(s, t, A, fr) && t.ino == s.ino && t.used == s.used && t.cs == s.cs &&
    a in A && A[a] in t.bcac && t.bcac[A[a]].refcnt > 0
  }

  lemma HitGot(s: State, t: State, A: Tree, fr: set<nat>, a: Addr)
    requires Sound(s, A, fr) && a in A && A[a] in s.bcac && Shrunk(Pinned(s, A[a], 1), t, A, fr)
    requires SameViews(s, Pinned(s, A[a], 1), A, fr)
    ensures Got(s, t, A, fr, a)
  {
    var m := Pinned(s, A[a], 1);
    assert m.bcac[A[a]].refcnt > 0;
    SameViewsTrans(s, m, t, A, fr);
  }

  lemma SameViewsTrans(s: State, t: State, u: State, A: Tree, fr: set<nat>)
    requires SameViews(s, t, A, fr) && SameViews(t, u, A, fr)
    ensures SameViews(s, u, A, fr)
  {
  }

  lemma GotData(s: State, t: State, A: Tree, fr: set<nat>, a: Addr)
    requires Inv(s, A, fr) && Got(s, t, A, fr, a)
    ensures a.iid in s.ino && t.bcac[A[a]].data == View(s, A, fr, a) == View(t, A, fr, a)
  {
    assert Good(s, A, fr, a) && Good(t, A, fr, a);
  }

  // ---------- growing trees ----------

  ghost predicate Extends(A: Tree, A': Tree) {
    forall a :: a in A ==> a in A' && A'[a] == A[a]
  }

  // The tree may have grown; no data block and no file size has changed.
  ghost predicate Kept(s: State, A: Tree, fr: set<nat>, t: State, A': Tree, fr': set<nat>) {
    Extends(A, A') && t.cs == s.cs && (forall i :: i in s.ino <==> i in t.ino) &&
    (forall i :: i in s.ino ==> SameHead(s.ino[i], t.ino[i])) &&
    forall a :: a in A && a.iid in s.ino && IsLeaf(a) ==> View(t, A', fr', a) == View(s, A, fr, a)
  }

  lemma KeptTrans(s: State, A: Tree, fr: set<nat>, t: State, B: Tree, fs: set<nat>, u: State, C: Tree, ft: set<nat>)
    requires Kept(s, A, fr, t, B, fs) && Kept(t, B, fs, u, C, ft)
    ensures Kept(s, A, fr, u, C, ft)
  {
  }

  lemma KeptGrows(s: State, A: Tree, fr: set<nat>, t: State, A': Tree, fr': set<nat>)
    requires Kept(s, A, fr, t, A', fr')
    ensures Extends(A, A')
  {
  }

  lemma ViewsKept(s: State, t: State, A: Tree, fr: set<nat>)
    requires SameViews(s, t, A, fr) && t.ino == s.ino && t.cs == s.cs
    ensures Kept(s, A, fr, t, A, fr)
  {
  }

  lemma PullKept(s: State, A: Tree, fr: set<nat>, a: Addr)
    requires Sound(s, A, fr) && CanPull(s, A, fr, a)
    ensures Sound(Pulled(s, A, a), A, fr) && Kept(s, A, fr, Pulled(s, A, a), A, fr)
    ensures SlotHash(Pulled(s, A, a), A, fr, a) == s.pd[A[a]].hash
  {
    PullKeeps(s, A, fr, a);
    PullRouted(s, A, fr, a);
  }

  lemma GraftKept(s: State, A: Tree, fr: set<nat>, a: Addr, nb: nat)
    requires Sound(s, A, fr) && CanGraft(s, A, fr, a, nb) && (IsRoot(a) || !IsLeaf(Parent(a)))
    ensures Sound(Grafted(s, A, a, nb), A[a := nb], GraftedFresh(A, fr, a, nb))
    ensures Kept(s, A, fr, Grafted(s, A, a, nb), A[a := nb], GraftedFresh(A, fr, a, nb))
  {
    hide Good, Global, View, Routed, PutHash, PutBid;
    GraftKeeps(s, A, fr, a, nb);
    GraftRouted(s, A, fr, a, nb);
  }

  // The state of an inner slot, seen through its parent block's content.
  lemma EntryOf(s: State, A: Tree, fr: set<nat>, a: Addr, j: nat)
    requires Inv(s, A, fr) && a in A && !IsLeaf(a) && j < INDEX_PER_BLOCK
    ensures Good(s, A, fr, a) && ValidPath(Child(a, j).path) && Parent(Child(a, j)) == a && !IsRoot(Child(a, j)) &&
      Last(Child(a, j)) == j
    ensures if Child(a, j) in A then EntryBid(View(s, A, fr, a), j) == A[Child(a, j)] != 0
            else EntryBid(View(s, A, fr, a), j) == 0
    ensures Child(a, j) in A ==> Addressed(s, A, Child(a, j)) && EntryHash(View(s, A, fr, a), j) == SlotHash(s, A, fr, Child(a, j))
  {
    assert Good(s, A, fr, a);
    ChildParent(a, j);
    if Child(a, j) in A {
      assert Good(s, A, fr, Child(a, j));
    }
  }

  // The state of a slot of an inode.
  lemma RootOf(s: State, A: Tree, fr: set<nat>, i: nat, k: nat)
    requires Inv(s, A, fr) && i in s.ino && k < NSLOTS
    ensures var a := Addr(i, [k]);
      ValidPath(a.path) && IsRoot(a) && |s.ino[i].bid| == |s.ino[i].hash| == NSLOTS &&
      (if a in A then s.ino[i].bid[k] == A[a] != 0 else s.ino[i].bid[k] == 0) &&
      (a in A ==> Addressed(s, A, a) && s.ino[i].hash[k] == SlotHash(s, A, fr, a))
  {
    var a := Addr(i, [k]);
    if a in A {
      assert Good(s, A, fr, a);
    }
  }

  // The slot for c has been looked up: it holds a block, unwritten if new, with no hash waiting.
  ghost predicate SlotReady(A: Tree, t: State, A': Tree, fr': set<nat>, c: Addr, bid: nat, new_: bool) {
    Sound(t, A', fr') && c in A' && A'[c] == bid && (new_ <==> c !in A) &&
    fr' == (if new_ then {bid} else {}) && (!new_ ==> bid !in t.pd) && Addressed(t, A', c) &&
    (new_ ==> SlotHash(t, A', fr', c) == t.cs.hash(Zeros()))
  }

  // The outcome for a slot that was empty, and for one that was not.
  lemma GraftReady(s: State, A: Tree, fr: set<nat>, c: Addr, nb: nat)
    requires Sound(s, A, fr) && CanGraft(s, A, fr, c, nb) && (IsRoot(c) || !IsLeaf(Parent(c)))
    requires fr == if IsRoot(c) then {} else fr * {A[Parent(c)]}
    ensures var t, A', f := Grafted(s, A, c, nb), A[c := nb], GraftedFresh(A, fr, c, nb);
      SlotReady(A, t, A', f, c, nb, true) && Kept(s, A, fr, t, A', f)
  {
    GraftKept(s, A, fr, c, nb);
    var t, A', f := Grafted(s, A, c, nb), A[c := nb], GraftedFresh(A, fr, c, nb);
    assert Good(t, A', f, c);
    GraftHash(s, A, fr, c, nb);
  }

  // A slot just filled holds the hash of a block of zeros.
  lemma GraftHash(s: State, A: Tree, fr: set<nat>, c: Addr, nb: nat)
    requires CanGraft(s, A, fr, c, nb) && Addressed(Grafted(s, A, c, nb), A[c := nb], c)
    ensures SlotHash(Grafted(s, A, c, nb), A[c := nb], GraftedFresh(A, fr, c, nb), c) == s.cs.hash(Zeros())
  {
    hide PutHash, PutBid, Good;
    if IsRoot(c) {
      RootPath(c);
    } else {
      assert Parent(c) != c;
      PutHashExact(PutBid(s.bcac[A[Parent(c)]].data, Last(c), nb), Last(c), s.cs.hash(Zeros()), Last(c));
    }
  }

  ghost function MaybePulled(s: State, A: Tree, c: Addr): State
    requires Addressed(s, A, c) && (IsRoot(c) || A[Parent(c)] in s.bcac)
  {
    if A[c] in s.pd then Pulled(s, A, c) else s
  }

  lemma PullReady(s: State, A: Tree, c: Addr)
    requires Sound(s, A, {}) && c in A && Addressed(s, A, c) && (IsRoot(c) || A[Parent(c)] in s.bcac)
    ensures var t := MaybePulled(s, A, c);
      SlotReady(A, t, A, {}, c, A[c], false) && Kept(s, A, {}, t, A, {})
  {
    if A[c] in s.pd {
      PullKept(s, A, {}, c);
    }
    assert Good(MaybePulled(s, A, c), A, {}, c);
  }

  // Returning a reference does not disturb a slot that has been looked up.
  lemma ReadyReturned(A: Tree, t: State, A': Tree, fr': set<nat>, c: Addr, bid: nat, new_: bool, u: State)
    requires SlotReady(A, t, A', fr', c, bid, new_) && Sound(u, A', fr') && SameViews(t, u, A', fr')
    requires u.ino == t.ino && u.pd == t.pd && u.cs == t.cs
    ensures SlotReady(A, u, A', fr', c, bid, new_) && SlotHash(u, A', fr', c) == SlotHash(t, A', fr', c)
  {
    assert Good(u, A', fr', c) && Good(t, A', fr', c);
  }

  // Nothing is pending, and nothing cached differs from the disk.
  ghost predicate Quiet(s: State) {
    s.pd == map[] && forall b :: b in s.bcac ==> !s.bcac[b].dirty
  }

  /** A state that was quiet still is, and nothing has been written to the disk or to an inode. */
  ghost predicate Harmless(s: State, t: State) {
    Quiet(s) ==> Quiet(t) && t.disk == s.disk && t.ino == s.ino && t.used == s.used
  }

  lemma HarmlessRefl(s: State)
    ensures Harmless(s, s)
  {
  }

  lemma HarmlessTrans(s: State, t: State, u: State)
    requires Harmless(s, t) && Harmless(t, u)
    ensures Harmless(s, u)
  {
  }

  lemma EvictHarmless(s: State, b: nat)
    requires b in s.bcac
    ensures Harmless(s, WrittenBack(s, b))
  {
  }

  lemma PinHarmless(s: State, b: nat, d: int)
    requires b in s.bcac && s.bcac[b].refcnt + d >= 0
    ensures Harmless(s, Pinned(s, b, d))
  {
  }

  lemma LoadHarmless(s: State, b: nat, key: KeyIv, data: Block, route: Route)
    ensures Harmless(s, Loaded(s, b, key, data, route))
  {
  }

  lemma PullHarmless(s: State, A: Tree, a: Addr)
    requires Addressed(s, A, a) && (IsRoot(a) || A[Parent(a)] in s.bcac)
    ensures Harmless(s, MaybePulled(s, A, a))
  {
  }

  // With no block allocated on the way, a lookup has done no harm.
  ghost predicate Idle(s: State, A: Tree, t: State, A': Tree) {
    A' == A ==> Harmless(s, t)
  }

  lemma IdleTrans(s: State, A: Tree, t: State, B: Tree, u: State, C: Tree)
    requires Extends(A, B) && Extends(B, C) && Idle(s, A, t, B) && Idle(t, B, u, C)
    ensures Idle(s, A, u, C)
  {
    hide Harmless;
    if C == A {
      assert B == A;
      HarmlessTrans(s, t, u);
    }
  }

  // A lookup that began in state s has come as far as the block at c.
  ghost predicate Reached(s: State, A: Tree, t: State, A': Tree, fr': set<nat>, c: Addr, bid: nat, new_: bool,
                          hash: Hash) {
    Sound(t, A', fr') && Kept(s, A, {}, t, A', fr') && c in A' && A'[c] == bid &&
    fr' == (if new_ then {bid} else {}) && (!new_ ==> bid !in t.pd) &&
    Addressed(t, A', c) && hash == SlotHash(t, A', fr', c) && Idle(s, A, t, A')
  }

  // hx holds the route to the block at a, as far as a's path goes.
  ghost predicate PartRoute(A: Tree, a: Addr, hx: Route) {
    |hx| == 4 && 1 <= |a.path| <= 4 && HasPrefixes(A, a) && hx[0] == HashIdx(a.iid, a.path[0]) &&
    forall m :: 1 <= m < |a.path| ==> hx[m] == HashIdx(A[Addr(a.iid, a.path[..m])], a.path[m])
  }

  lemma PartRouteStep(A: Tree, A': Tree, a: Addr, hx: Route, j: nat)
    requires PartRoute(A, a, hx) && Extends(A, A') && a in A && |a.path| < 4
    ensures PartRoute(A', Child(a, j), hx[|a.path| := HashIdx(A[a], j)])
  {
    var c := Child(a, j);
    forall m | 1 <= m < |c.path|
      ensures Addr(c.iid, c.path[..m]) in A'
      ensures hx[|a.path| := HashIdx(A[a], j)][m] == HashIdx(A'[Addr(c.iid, c.path[..m])], c.path[m])
    {
      if m < |a.path| {
        assert c.path[..m] == a.path[..m];
      } else {
        assert c.path[..m] == a.path;
      }
    }
  }

  lemma RouteComplete(A: Tree, a: Addr, hx: Route)
    requires PartRoute(A, a, hx) && forall m :: |a.path| <= m < 4 ==> hx[m] == HashIdx(0, 0)
    ensures hx == TrueRoute(A, a)
  {
  }
}
