/** The steps that write into the tree: pulling a hash, allocating a block, storing data. */
module MerkleUpdates {
  import opened Layout
  import opened Blocks
  import opened Crypto
  import opened Merkle
  import opened MerkleSteps

  lemma SiblingsDiffer(a: Addr, x: Addr)
    requires |a.path| > 1 && |x.path| > 1 && Parent(a) == Parent(x) && Last(a) == Last(x)
    ensures a == x
  {
    ParentChild(a);
    ParentChild(x);
  }

  // A block that points to another one of the tree has been written, and is no data block.
  lemma ParentIsOld(s: State, A: Tree, fr: set<nat>, a: Addr)
    requires Inv(s, A, fr) && a in A && !IsRoot(a)
    ensures Good(s, A, fr, a) && Parent(a) in A && Good(s, A, fr, Parent(a))
    ensures A[Parent(a)] !in fr && !IsLeaf(Parent(a)) && Last(a) < INDEX_PER_BLOCK && A[Parent(a)] != A[a]
  {
    assert Good(s, A, fr, a) && Good(s, A, fr, Parent(a));
    if A[Parent(a)] in fr {
      ZeroEntries(Last(a));
    }
  }

  // ---------- get_real_hash_ip, get_real_hash_index ----------

  // The pending hash of the block at a moves into the slot that points to it.
  ghost function Pulled(s: State, A: Tree, a: Addr): State
    requires Addressed(s, A, a) && A[a] in s.pd && (IsRoot(a) || A[Parent(a)] in s.bcac)
  {
    var h := s.pd[A[a]].hash;
    var t := s.(pd := s.pd - {A[a]});
    if IsRoot(a) then
      t.(ino := s.ino[a.iid := s.ino[a.iid].(hash := s.ino[a.iid].hash[a.path[0] := h])])
    else
      var p := A[Parent(a)];
      t.(bcac := s.bcac[p := s.bcac[p].(data := PutHash(s.bcac[p].data, Last(a), h), dirty := true)])
  }

  ghost predicate CanPull(s: State, A: Tree, fr: set<nat>, a: Addr) {
    Inv(s, A, fr) && a in A && Addressed(s, A, a) && A[a] in s.pd && (IsRoot(a) || A[Parent(a)] in s.bcac)
  }

  lemma PullView(s: State, A: Tree, fr: set<nat>, a: Addr, x: Addr)
    requires CanPull(s, A, fr, a) && x in A
    ensures Good(s, A, fr, x)
    ensures IsRoot(a) || x != Parent(a) ==> View(Pulled(s, A, a), A, fr, x) == View(s, A, fr, x)
    ensures !IsRoot(a) && x == Parent(a) ==> View(Pulled(s, A, a), A, fr, x) == PutHash(View(s, A, fr, x), Last(a), s.pd[A[a]].hash)
  {
    assert Good(s, A, fr, x);
  }

  // Only the slot of a changes, and in it only the hash.
  lemma PullSlot(s: State, A: Tree, fr: set<nat>, a: Addr, x: Addr)
    requires CanPull(s, A, fr, a) && x in A
    ensures Good(s, A, fr, x) && Addressed(Pulled(s, A, a), A, x)
    ensures SlotBid(Pulled(s, A, a), A, fr, x) == SlotBid(s, A, fr, x)
    ensures SlotHash(Pulled(s, A, a), A, fr, x) == if x == a then s.pd[A[a]].hash else SlotHash(s, A, fr, x)
  {
    hide Hashed, Linked, Global, PutHash, View;
    assert Good(s, A, fr, x);
    if !IsRoot(x) {
      ParentIsOld(s, A, fr, x);
      PullView(s, A, fr, a, Parent(x));
      if !IsRoot(a) && Parent(x) == Parent(a) {
        PutHashExact(View(s, A, fr, Parent(x)), Last(a), s.pd[A[a]].hash, Last(x));
        if Last(x) == Last(a) { SiblingsDiffer(a, x); }
      }
    }
  }

  lemma PullLinked(s: State, A: Tree, fr: set<nat>, a: Addr, x: Addr)
    requires CanPull(s, A, fr, a) && x in A
    ensures Addressed(Pulled(s, A, a), A, x) && Linked(Pulled(s, A, a), A, fr, x)
  {
    PullSlot(s, A, fr, a, x);
    PullView(s, A, fr, a, x);
    if !IsRoot(a) && x == Parent(a) {
      forall j | 0 <= j < INDEX_PER_BLOCK
        ensures EntryBid(View(Pulled(s, A, a), A, fr, x), j) == EntryBid(View(s, A, fr, x), j)
      {
        PutHashExact(View(s, A, fr, x), Last(a), s.pd[A[a]].hash, j);
      }
    }
  }

  lemma PullHashed(s: State, A: Tree, fr: set<nat>, a: Addr, x: Addr)
    requires CanPull(s, A, fr, a) && x in A
    ensures Addressed(Pulled(s, A, a), A, x) && Hashed(Pulled(s, A, a), A, fr, x)
  {
    hide Linked, PutHash, SlotHash;
    PullSlot(s, A, fr, a, x);
    if !IsRoot(a) { ParentIsOld(s, A, fr, a); }
    assert A[x] == A[a] ==> x == a;
  }

  /** Pulling a pending hash into the parent's slot keeps the invariant and every data block. */
  lemma PullKeeps(s: State, A: Tree, fr: set<nat>, a: Addr)
    requires CanPull(s, A, fr, a)
    ensures Inv(Pulled(s, A, a), A, fr) && SameData(s, Pulled(s, A, a), A, fr)
    ensures SlotHash(Pulled(s, A, a), A, fr, a) == s.pd[A[a]].hash
  {
    var t := Pulled(s, A, a);
    forall x | x in A
      ensures Good(t, A, fr, x) && (IsLeaf(x) ==> View(t, A, fr, x) == View(s, A, fr, x))
    {
      PullLinked(s, A, fr, a, x);
      PullHashed(s, A, fr, a, x);
      PullView(s, A, fr, a, x);
      if !IsRoot(a) { ParentIsOld(s, A, fr, a); }
    }
    PullSlot(s, A, fr, a, a);
  }

  // Same inodes apart from hashes, and the same data blocks.
  ghost predicate SameData(s: State, t: State, A: Tree, fr: set<nat>) {
    (forall i :: i in s.ino <==> i in t.ino) &&
    (forall i :: i in s.ino ==> SameHead(s.ino[i], t.ino[i])) &&
    forall a :: a in A && a.iid in s.ino && IsLeaf(a) ==> View(t, A, fr, a) == View(s, A, fr, a)
  }

  // ---------- a new block is hung into the tree ----------

  // Block nb, still unwritten, becomes the block at the new address a.
  ghost function Grafted(s: State, A: Tree, a: Addr, nb: nat): State
    requires a.iid in s.ino && |s.ino[a.iid].bid| == |s.ino[a.iid].hash| == NSLOTS && ValidPath(a.path) &&
      nb < UINT32_SPAN
    requires IsRoot(a) || (Parent(a) in A && A[Parent(a)] in s.bcac)
  {
    var h := s.cs.hash(Zeros());
    var t := s.(used := s.used + {nb});
    if IsRoot(a) then
      var ip := s.ino[a.iid];
      t.(ino := s.ino[a.iid := ip.(bid := ip.bid[a.path[0] := nb], hash := ip.hash[a.path[0] := h])])
    else
      var p := A[Parent(a)];
      var d := PutHash(PutBid(s.bcac[p].data, Last(a), nb), Last(a), h);
      t.(bcac := s.bcac[p := s.bcac[p].(data := d, dirty := true)])
  }

  ghost function GraftedFresh(A: Tree, fr: set<nat>, a: Addr, nb: nat): set<nat>
    requires IsRoot(a) || (|a.path| > 0 && Parent(a) in A)
  {
    (if IsRoot(a) then fr else fr - {A[Parent(a)]}) + {nb}
  }

  ghost predicate CanGraft(s: State, A: Tree, fr: set<nat>, a: Addr, nb: nat) {
    Inv(s, A, fr) && a !in A && ValidPath(a.path) && a.iid in s.ino &&
    (IsRoot(a) || (Parent(a) in A && A[Parent(a)] in s.bcac)) &&
    nb !in s.used && DATA_START <= nb < UINT32_SPAN
  }

  lemma GraftView(s: State, A: Tree, fr: set<nat>, a: Addr, nb: nat, x: Addr)
    requires CanGraft(s, A, fr, a, nb) && x in A
    ensures Good(s, A, fr, x) && x.iid in Grafted(s, A, a, nb).ino
    ensures var t := Grafted(s, A, a, nb); var A' := A[a := nb]; var f := GraftedFresh(A, fr, a, nb);
      View(t, A', f, x) ==
        if IsRoot(a) || x != Parent(a) then View(s, A, fr, x)
        else PutHash(PutBid(View(s, A, fr, x), Last(a), nb), Last(a), s.cs.hash(Zeros()))
  {
    hide Linked, Hashed, PutHash, PutBid;
    assert Good(s, A, fr, x);
    assert x != a && A[x] in s.used;
    if !IsRoot(a) && x != Parent(a) { assert A[x] != A[Parent(a)]; }
  }

  ghost predicate GraftedSlot(s: State, A: Tree, fr: set<nat>, a: Addr, nb: nat, x: Addr)
    requires CanGraft(s, A, fr, a, nb) && x in A && Addressed(s, A, x)
  {
    var t, A', f := Grafted(s, A, a, nb), A[a := nb], GraftedFresh(A, fr, a, nb);
    Addressed(t, A', x) &&
    SlotBid(t, A', f, x) == SlotBid(s, A, fr, x) && SlotHash(t, A', f, x) == SlotHash(s, A, fr, x)
  }

  lemma RootPath(a: Addr)
    requires IsRoot(a)
    ensures a == Addr(a.iid, [a.path[0]])
  {
  }

  lemma GraftSlotInode(s: State, A: Tree, fr: set<nat>, a: Addr, nb: nat, x: Addr)
    requires CanGraft(s, A, fr, a, nb) && x in A && IsRoot(x)
    ensures Good(s, A, fr, x) && GraftedSlot(s, A, fr, a, nb, x)
  {
    assert Good(s, A, fr, x);
    RootPath(x);
    if IsRoot(a) { RootPath(a); }
  }

  lemma GraftSlotBlock(s: State, A: Tree, fr: set<nat>, a: Addr, nb: nat, x: Addr)
    requires CanGraft(s, A, fr, a, nb) && x in A && !IsRoot(x)
    ensures Good(s, A, fr, x) && GraftedSlot(s, A, fr, a, nb, x)
  {
    hide Hashed, Linked, Global, PutHash, PutBid;
    ParentIsOld(s, A, fr, x);
    GraftView(s, A, fr, a, nb, Parent(x));
    if !IsRoot(a) && Parent(x) == Parent(a) {
      var v := View(s, A, fr, Parent(x));
      PutBidExact(v, Last(a), nb, Last(x));
      PutHashExact(PutBid(v, Last(a), nb), Last(a), s.cs.hash(Zeros()), Last(x));
      if Last(x) == Last(a) { SiblingsDiffer(a, x); }
    }
  }

  // No slot of a block already in the tree changes.
  lemma GraftSlot(s: State, A: Tree, fr: set<nat>, a: Addr, nb: nat, x: Addr)
    requires CanGraft(s, A, fr, a, nb) && x in A
    ensures Good(s, A, fr, x) && GraftedSlot(s, A, fr, a, nb, x)
  {
    if IsRoot(x) {
      GraftSlotInode(s, A, fr, a, nb, x);
    } else {
      GraftSlotBlock(s, A, fr, a, nb, x);
    }
  }

  // The new block itself: its slot names it, and it has no entries.
  lemma GraftNew(s: State, A: Tree, fr: set<nat>, a: Addr, nb: nat)
    requires CanGraft(s, A, fr, a, nb)
    ensures Good(Grafted(s, A, a, nb), A[a := nb], GraftedFresh(A, fr, a, nb), a)
  {
    var t, A', f := Grafted(s, A, a, nb), A[a := nb], GraftedFresh(A, fr, a, nb);
    if !IsRoot(a) {
      GraftView(s, A, fr, a, nb, Parent(a));
      var v := View(s, A, fr, Parent(a));
      PutBidExact(v, Last(a), nb, Last(a));
      PutHashExact(PutBid(v, Last(a), nb), Last(a), s.cs.hash(Zeros()), Last(a));
    }
    forall j | 0 <= j < INDEX_PER_BLOCK
      ensures EntryBid(Zeros(), j) == 0
    {
      ZeroEntries(j);
    }
    assert Addressed(t, A', a);
    assert View(t, A', f, a) == Zeros();
  }

  lemma GraftLinked(s: State, A: Tree, fr: set<nat>, a: Addr, nb: nat, x: Addr)
    requires CanGraft(s, A, fr, a, nb) && x in A
    ensures var t := Grafted(s, A, a, nb); var A' := A[a := nb];
      Addressed(t, A', x) && Linked(t, A', GraftedFresh(A, fr, a, nb), x)
  {
    GraftSlot(s, A, fr, a, nb, x);
    GraftView(s, A, fr, a, nb, x);
    if !IsRoot(a) && x == Parent(a) {
      var v := View(s, A, fr, x);
      forall j | 0 <= j < INDEX_PER_BLOCK
        ensures EntryBid(PutHash(PutBid(v, Last(a), nb), Last(a), s.cs.hash(Zeros())), j) == if j == Last(a) then nb else EntryBid(v, j)
      {
        PutBidExact(v, Last(a), nb, j);
        PutHashExact(PutBid(v, Last(a), nb), Last(a), s.cs.hash(Zeros()), j);
      }
      ParentChild(a);
    }
  }

  lemma GraftHashedRoot(s: State, A: Tree, fr: set<nat>, a: Addr, nb: nat, x: Addr)
    requires CanGraft(s, A, fr, a, nb) && x in A && IsRoot(a) && A[x] != nb
    requires Addressed(s, A, x) && Hashed(s, A, fr, x) && GraftedSlot(s, A, fr, a, nb, x)
    ensures Hashed(Grafted(s, A, a, nb), A[a := nb], GraftedFresh(A, fr, a, nb), x)
  {
    hide Linked, PutHash, PutBid, SlotBid;
  }

  lemma GraftHashedBlock(s: State, A: Tree, fr: set<nat>, a: Addr, nb: nat, x: Addr)
    requires CanGraft(s, A, fr, a, nb) && x in A && !IsRoot(a) && A[x] != nb
    requires x == Parent(a) || A[x] != A[Parent(a)]
    requires Addressed(s, A, x) && Hashed(s, A, fr, x) && GraftedSlot(s, A, fr, a, nb, x)
    ensures Hashed(Grafted(s, A, a, nb), A[a := nb], GraftedFresh(A, fr, a, nb), x)
  {
    hide Linked, PutHash, PutBid, SlotBid;
  }

  lemma GraftHashed(s: State, A: Tree, fr: set<nat>, a: Addr, nb: nat, x: Addr)
    requires CanGraft(s, A, fr, a, nb) && x in A
    ensures var t := Grafted(s, A, a, nb); var A' := A[a := nb];
      Addressed(t, A', x) && Hashed(t, A', GraftedFresh(A, fr, a, nb), x)
  {
    GraftSlot(s, A, fr, a, nb, x);
    assert A[x] in s.used;
    if IsRoot(a) {
      GraftHashedRoot(s, A, fr, a, nb, x);
    } else {
      GraftHashedBlock(s, A, fr, a, nb, x);
    }
  }

  /** Allocating a block for a hole keeps the invariant and every data block. */
  lemma GraftKeeps(s: State, A: Tree, fr: set<nat>, a: Addr, nb: nat)
    requires CanGraft(s, A, fr, a, nb) && (IsRoot(a) || !IsLeaf(Parent(a)))
    ensures Inv(Grafted(s, A, a, nb), A[a := nb], GraftedFresh(A, fr, a, nb))
    ensures forall x :: x in A && x.iid in s.ino && IsLeaf(x) ==>
      View(Grafted(s, A, a, nb), A[a := nb], GraftedFresh(A, fr, a, nb), x) == View(s, A, fr, x)
  {
    var t, A', f := Grafted(s, A, a, nb), A[a := nb], GraftedFresh(A, fr, a, nb);
    GraftNew(s, A, fr, a, nb);
    forall x | x in A
      ensures Good(t, A', f, x) && (IsLeaf(x) ==> View(t, A', f, x) == View(s, A, fr, x))
    {
      GraftLinked(s, A, fr, a, nb, x);
      GraftHashed(s, A, fr, a, nb, x);
      GraftView(s, A, fr, a, nb, x);
    }
    GraftGlobal(s, A, fr, a, nb);
  }

  lemma GraftGlobal(s: State, A: Tree, fr: set<nat>, a: Addr, nb: nat)
    requires CanGraft(s, A, fr, a, nb)
    ensures Global(Grafted(s, A, a, nb), A[a := nb])
  {
    hide Linked, Hashed, PutHash, PutBid;
    var t, A' := Grafted(s, A, a, nb), A[a := nb];
    forall x, y | x in A' && y in A' && A'[x] == A'[y]
      ensures x == y
    {
      assert x != a ==> A[x] in s.used;
      assert y != a ==> A[y] in s.used;
    }
    if IsRoot(a) { RootPath(a); }
    if !IsRoot(a) { assert Good(s, A, fr, Parent(a)); }
  }

  // ---------- data is written into a cached block ----------

  ghost function Stored(s: State, b: nat, data: Block): State
    requires b in s.bcac
  {
    s.(bcac := s.bcac[b := s.bcac[b].(data := data, dirty := true)])
  }

  ghost predicate CanStore(s: State, A: Tree, fr: set<nat>, a: Addr) {
    Inv(s, A, fr) && a in A && IsLeaf(a) && A[a] in s.bcac
  }

  lemma StoreView(s: State, A: Tree, fr: set<nat>, a: Addr, data: Block, x: Addr)
    requires CanStore(s, A, fr, a) && x in A
    ensures Good(s, A, fr, x)
    ensures View(Stored(s, A[a], data), A, fr - {A[a]}, x) == if x == a then data else View(s, A, fr, x)
  {
    assert Good(s, A, fr, x);
    assert x != a ==> A[x] != A[a];
  }

  lemma StoreLinked(s: State, A: Tree, fr: set<nat>, a: Addr, data: Block, x: Addr)
    requires CanStore(s, A, fr, a) && x in A
    ensures var t := Stored(s, A[a], data);
      Addressed(t, A, x) && Linked(t, A, fr - {A[a]}, x) && Good(s, A, fr, x) &&
      SlotHash(t, A, fr - {A[a]}, x) == SlotHash(s, A, fr, x)
  {
    StoreView(s, A, fr, a, data, x);
    if !IsRoot(x) {
      ParentIsOld(s, A, fr, x);
      StoreView(s, A, fr, a, data, Parent(x));
    }
  }

  lemma StoreHashed(s: State, A: Tree, fr: set<nat>, a: Addr, data: Block, x: Addr)
    requires Good(s, A, fr, x) && a in A && A[a] in s.bcac && (x == a || A[x] != A[a])
    requires Addressed(Stored(s, A[a], data), A, x)
    requires SlotHash(Stored(s, A[a], data), A, fr - {A[a]}, x) == SlotHash(s, A, fr, x)
    requires a == x ==> Good(s, A, fr, a)
    ensures Hashed(Stored(s, A[a], data), A, fr - {A[a]}, x)
  {
  }

  /** Writing a data block changes that block and no other. */
  lemma StoreKeeps(s: State, A: Tree, fr: set<nat>, a: Addr, data: Block)
    requires Inv(s, A, fr) && a in A && IsLeaf(a) && A[a] in s.bcac
    ensures Inv(Stored(s, A[a], data), A, fr - {A[a]})
    ensures forall x :: x in A && x.iid in s.ino ==>
      View(Stored(s, A[a], data), A, fr - {A[a]}, x) == if x == a then data else View(s, A, fr, x)
  {
    forall x | x in A
      ensures Good(Stored(s, A[a], data), A, fr - {A[a]}, x)
      ensures View(Stored(s, A[a], data), A, fr - {A[a]}, x) == if x == a then data else View(s, A, fr, x)
    {
      StoreView(s, A, fr, a, data, x);
      StoreLinked(s, A, fr, a, data, x);
      StoreHashed(s, A, fr, a, data, x);
    }
  }

  // ---------- the size of a file ----------

  ghost function Resized(s: State, i: nat, size: nat): State
    requires i in s.ino
  {
    s.(ino := s.ino[i := s.ino[i].(size := size)])
  }

  lemma ResizeKeeps(s: State, A: Tree, fr: set<nat>, i: nat, size: nat)
    requires Inv(s, A, fr) && i in s.ino
    ensures Inv(Resized(s, i, size), A, fr)
    ensures forall x :: x in A && x.iid in s.ino ==> View(Resized(s, i, size), A, fr, x) == View(s, A, fr, x)
  {
    var t := Resized(s, i, size);
    forall x | x in A
      ensures Good(t, A, fr, x)
    {
      assert Good(s, A, fr, x);
      if !IsRoot(x) { assert Good(s, A, fr, Parent(x)); }
      ResizeGood(s, A, fr, i, size, x);
    }
  }

  lemma ResizeGood(s: State, A: Tree, fr: set<nat>, i: nat, size: nat, x: Addr)
    requires Good(s, A, fr, x) && i in s.ino && (IsRoot(x) || Good(s, A, fr, Parent(x)))
    ensures Good(Resized(s, i, size), A, fr, x)
    ensures View(Resized(s, i, size), A, fr, x) == View(s, A, fr, x)
  {
    var t := Resized(s, i, size);
    assert SlotBid(t, A, fr, x) == SlotBid(s, A, fr, x) && SlotHash(t, A, fr, x) == SlotHash(s, A, fr, x);
  }
}
