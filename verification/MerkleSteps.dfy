/** The steps of the cache over the block tree, and why each keeps the invariant. */
module MerkleSteps {
  import opened Layout
  import opened Blocks
  import opened Crypto
  import opened Merkle

  // All blocks of the tree look the same in both states.
  ghost predicate SameViews(s: State, t: State, A: Tree, fr: set<nat>) {
    (forall i :: i in s.ino <==> i in t.ino) &&
    forall a :: a in A && a.iid in s.ino ==> View(t, A, fr, a) == View(s, A, fr, a)
  }

  // A step that leaves inodes and views alone leaves the links alone.
  lemma QuietLinks(s: State, t: State, A: Tree, fr: set<nat>, a: Addr)
    requires Good(s, A, fr, a) && t.ino == s.ino
    requires View(t, A, fr, a) == View(s, A, fr, a)
    requires !IsRoot(a) ==> View(t, A, fr, Parent(a)) == View(s, A, fr, Parent(a))
    ensures Addressed(t, A, a) && Linked(t, A, fr, a) && SlotHash(t, A, fr, a) == SlotHash(s, A, fr, a)
  {
  }

  // The whole invariant after such a step, given what remains to be shown for each address.
  lemma QuietStep(s: State, t: State, A: Tree, fr: set<nat>)
    requires Inv(s, A, fr) && t.ino == s.ino && t.cs == s.cs && t.used == s.used
    requires forall b :: b in t.bcac || b in t.pd ==> b in s.used
    requires forall a :: a in A ==> Good(s, A, fr, a) && View(t, A, fr, a) == View(s, A, fr, a)
    requires forall a :: a in A && Addressed(t, A, a) && SlotHash(t, A, fr, a) == SlotHash(s, A, fr, a) ==> Hashed(t, A, fr, a)
    ensures Inv(t, A, fr) && SameViews(s, t, A, fr)
  {
    forall a | a in A
      ensures Good(t, A, fr, a)
    {
      assert Good(s, A, fr, a);
      QuietLinks(s, t, A, fr, a);
    }
  }

  // ---------- eviction: bcache_cb_write ----------

  ghost function WrittenBack(s: State, b: nat): State
    requires b in s.bcac
  {
    var c := s.bcac[b];
    if !c.dirty then s.(bcac := s.bcac - {b})
    else s.(bcac := s.bcac - {b},
            disk := s.disk[b := s.cs.enc(c.key, c.data)],
            pd := s.pd[b := Pending(if b in s.pd then s.pd[b].route else c.route, s.cs.hash(c.data))])
  }

  lemma EvictView(s: State, A: Tree, fr: set<nat>, b: nat, a: Addr)
    requires Sane(s.cs) && b in s.bcac && (s.bcac[b].refcnt == 0 || b !in fr) && Good(s, A, fr, a)
    ensures View(WrittenBack(s, b), A, fr, a) == View(s, A, fr, a)
  {
    if A[a] == b {
      Decrypted(s.cs, s.bcac[b].key, s.bcac[b].data);
    }
  }

  lemma EvictHashed(s: State, A: Tree, fr: set<nat>, b: nat, a: Addr)
    requires Sane(s.cs) && b in s.bcac && (s.bcac[b].refcnt == 0 || b !in fr) && Good(s, A, fr, a)
    requires Addressed(WrittenBack(s, b), A, a) && SlotHash(WrittenBack(s, b), A, fr, a) == SlotHash(s, A, fr, a)
    ensures Hashed(WrittenBack(s, b), A, fr, a)
  {
    Decrypted(s.cs, s.bcac[b].key, s.bcac[b].data);
  }

  /** Writing back any block, unless it is held and still unwritten, changes no view and keeps the
      invariant: what goes to disk decrypts to the evicted content, and its hash waits in pd until the parent is updated. */
  lemma EvictKeeps(s: State, A: Tree, fr: set<nat>, b: nat)
    requires Inv(s, A, fr) && b in s.bcac && (s.bcac[b].refcnt == 0 || b !in fr)
    ensures Inv(WrittenBack(s, b), A, fr) && SameViews(s, WrittenBack(s, b), A, fr)
  {
    var t := WrittenBack(s, b);
    forall a | a in A
      ensures Good(s, A, fr, a) && View(t, A, fr, a) == View(s, A, fr, a)
      ensures Addressed(t, A, a) && SlotHash(t, A, fr, a) == SlotHash(s, A, fr, a) ==> Hashed(t, A, fr, a)
    {
      assert Good(s, A, fr, a);
      EvictView(s, A, fr, b, a);
      if Addressed(t, A, a) && SlotHash(t, A, fr, a) == SlotHash(s, A, fr, a) {
        EvictHashed(s, A, fr, b, a);
      }
    }
    QuietStep(s, t, A, fr);
  }

  // ---------- references ----------

  ghost function Pinned(s: State, b: nat, d: int): State
    requires b in s.bcac && s.bcac[b].refcnt + d >= 0
  {
    s.(bcac := s.bcac[b := s.bcac[b].(refcnt := s.bcac[b].refcnt + d)])
  }

  lemma PinHashed(s: State, A: Tree, fr: set<nat>, b: nat, d: int, a: Addr)
    requires Good(s, A, fr, a) && b in s.bcac && s.bcac[b].refcnt + d >= 0 && (b in fr ==> s.bcac[b].refcnt + d > 0)
    requires Addressed(Pinned(s, b, d), A, a) && SlotHash(Pinned(s, b, d), A, fr, a) == SlotHash(s, A, fr, a)
    ensures Hashed(Pinned(s, b, d), A, fr, a)
  {
  }

  /** Taking or returning a reference; a block not yet written keeps at least one. */
  lemma PinKeeps(s: State, A: Tree, fr: set<nat>, b: nat, d: int)
    requires Inv(s, A, fr) && b in s.bcac && s.bcac[b].refcnt + d >= 0
    requires b in fr ==> s.bcac[b].refcnt + d > 0
    ensures Inv(Pinned(s, b, d), A, fr) && SameViews(s, Pinned(s, b, d), A, fr)
  {
    var t := Pinned(s, b, d);
    forall a | a in A
      ensures Good(s, A, fr, a) && View(t, A, fr, a) == View(s, A, fr, a)
      ensures Addressed(t, A, a) && SlotHash(t, A, fr, a) == SlotHash(s, A, fr, a) ==> Hashed(t, A, fr, a)
    {
      assert Good(s, A, fr, a);
      if Addressed(t, A, a) && SlotHash(t, A, fr, a) == SlotHash(s, A, fr, a) {
        PinHashed(s, A, fr, b, d, a);
      }
    }
    QuietStep(s, t, A, fr);
  }

  // ---------- loading: get_block_from_disk ----------

  ghost function Loaded(s: State, b: nat, key: KeyIv, data: Block, route: Route): State {
    s.(bcac := s.bcac[b := Cached(data, false, 1, route, key)])
  }

  /** Reloading an evicted block whose pending hash, if any, has been pulled into its parent
      passes validation against the parent's hash. */
  lemma ReloadValidates(s: State, A: Tree, fr: set<nat>, a: Addr)
    requires Inv(s, A, fr) && a in A && A[a] !in s.bcac && A[a] !in fr && A[a] !in s.pd
    ensures Addressed(s, A, a) && s.cs.hash(Plain(s, a.iid, A[a])) == SlotHash(s, A, fr, a)
  {
    assert Good(s, A, fr, a);
  }

  // What a load puts into the cache.
  ghost function Fetched(s: State, A: Tree, fr: set<nat>, a: Addr): Block
    requires a in A && a.iid in s.ino
  {
    if A[a] in fr then Zeros() else Plain(s, a.iid, A[a])
  }

  lemma LoadHashed(s: State, A: Tree, fr: set<nat>, a: Addr, route: Route, x: Addr)
    requires Good(s, A, fr, a) && Good(s, A, fr, x) && A[a] !in s.bcac && (A[x] == A[a] ==> x == a)
    requires var t := Loaded(s, A[a], s.ino[a.iid].key, Fetched(s, A, fr, a), route);
      Addressed(t, A, x) && SlotHash(t, A, fr, x) == SlotHash(s, A, fr, x)
    ensures Hashed(Loaded(s, A[a], s.ino[a.iid].key, Fetched(s, A, fr, a), route), A, fr, x)
  {
  }

  lemma LoadKeeps(s: State, A: Tree, fr: set<nat>, a: Addr, route: Route)
    requires Inv(s, A, fr) && a in A && A[a] !in s.bcac && a.iid in s.ino
    ensures var t := Loaded(s, A[a], s.ino[a.iid].key, Fetched(s, A, fr, a), route);
      Inv(t, A, fr) && SameViews(s, t, A, fr)
  {
    hide Hashed, Linked;
    assert Good(s, A, fr, a);
    var t := Loaded(s, A[a], s.ino[a.iid].key, Fetched(s, A, fr, a), route);
    forall x | x in A
      ensures Good(s, A, fr, x) && View(t, A, fr, x) == View(s, A, fr, x)
      ensures Addressed(t, A, x) && SlotHash(t, A, fr, x) == SlotHash(s, A, fr, x) ==> Hashed(t, A, fr, x)
    {
      assert Good(s, A, fr, x);
      if Addressed(t, A, x) && SlotHash(t, A, fr, x) == SlotHash(s, A, fr, x) {
        LoadHashed(s, A, fr, a, route, x);
      }
    }
    QuietStep(s, t, A, fr);
  }
}
