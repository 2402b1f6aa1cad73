/** The tree on disk while the cache is empty, and what it means to rewrite the hash in one slot of
    it: of an inode, or of an index block. */
module Mending {
  import opened Layout
  import opened Blocks
  import opened Crypto
  import opened Merkle
  import opened MerkleSteps
  import opened MerkleUpdates

  ghost predicate Joined(s: State, A: Tree, a: Addr) {
    Addressed(s, A, a) && Linked(s, A, {}, a)
  }

  ghost predicate Skeleton(s: State, A: Tree) {
    Global(s, A) && s.bcac == map[] && forall a :: a in A ==> Joined(s, A, a)
  }

  // The hash that points to the block at a is the hash of that block on disk.
  ghost predicate Settled(s: State, A: Tree, a: Addr) {
    Addressed(s, A, a) && s.cs.hash(Plain(s, a.iid, A[a])) == SlotHash(s, A, {}, a)
  }

  // ---------- the hash in one slot is rewritten ----------

  /** Hash h goes into the entry of the index block that e names. */
  ghost function Put(s: State, key: KeyIv, e: HashIdx, h: Hash): State
    requires e.idx < INDEX_PER_BLOCK
  {
    s.(disk := s.disk[e.id := s.cs.enc(key, PutHash(s.cs.dec(key, OnDisk(s, e.id)), e.idx, h))])
  }

  /** Hash h goes into the slot of the inode that e names. */
  ghost function PutRoot(s: State, e: HashIdx, h: Hash): State
    requires e.id in s.ino && e.idx < |s.ino[e.id].hash|
  {
    s.(ino := s.ino[e.id := s.ino[e.id].(hash := s.ino[e.id].hash[e.idx := h])])
  }

  // c is the address that a slot of an inode, or of an index block of the tree, stands for.
  ghost predicate Slot(s: State, A: Tree, c: Addr) {
    c.iid in s.ino && |s.ino[c.iid].hash| == NSLOTS &&
    if IsRoot(c) then c.path[0] < NSLOTS
    else |c.path| > 1 && Parent(c) in A && !IsLeaf(Parent(c)) && Parent(c) != c && Last(c) < INDEX_PER_BLOCK
  }

  ghost function Mended(s: State, A: Tree, c: Addr, h: Hash): State
    requires Slot(s, A, c)
  {
    if IsRoot(c) then PutRoot(s, HashIdx(c.iid, c.path[0]), h)
    else Put(s, s.ino[c.iid].key, HashIdx(A[Parent(c)], Last(c)), h)
  }

  lemma Distinct(s: State, A: Tree, x: Addr, y: Addr)
    requires Global(s, A) && x in A && y in A && x != y
    ensures A[x] != A[y]
  {
  }

  lemma UseGlobal(s: State, A: Tree)
    requires Global(s, A)
    ensures Sane(s.cs)
  {
  }

  lemma InnerBlock(s: State, A: Tree, a: Addr)
    requires Skeleton(s, A) && a in A && !IsRoot(a)
    ensures Joined(s, A, a) && Parent(a) in A && Joined(s, A, Parent(a))
    ensures !IsLeaf(Parent(a)) && Last(a) < INDEX_PER_BLOCK && Parent(a) != a
  {
    assert Joined(s, A, a) && Joined(s, A, Parent(a));
  }

  // Every block of the tree has its slot.
  lemma BlockSlot(s: State, A: Tree, a: Addr)
    requires Skeleton(s, A) && a in A
    ensures Joined(s, A, a) && Slot(s, A, a)
  {
    hide Linked;
    assert Joined(s, A, a);
    if !IsRoot(a) { InnerBlock(s, A, a); }
  }

  lemma MendPlain(s: State, A: Tree, c: Addr, h: Hash, x: Addr)
    requires Skeleton(s, A) && Slot(s, A, c) && x in A
    ensures Joined(s, A, x) && x.iid in Mended(s, A, c, h).ino
    ensures Plain(Mended(s, A, c, h), x.iid, A[x]) ==
      if !IsRoot(c) && x == Parent(c) then PutHash(Plain(s, x.iid, A[x]), Last(c), h) else Plain(s, x.iid, A[x])
  {
    hide Linked, Global, PutHash;
    assert Joined(s, A, x);
    if !IsRoot(c) {
      if x == Parent(c) {
        assert Sane(s.cs) by { UseGlobal(s, A); }
        Decrypted(s.cs, s.ino[c.iid].key, PutHash(Plain(s, c.iid, A[Parent(c)]), Last(c), h));
      } else {
        Distinct(s, A, x, Parent(c));
      }
    }
  }

  ghost predicate SlotMended(s: State, A: Tree, c: Addr, h: Hash, x: Addr)
    requires Slot(s, A, c) && Addressed(s, A, x)
  {
    var t := Mended(s, A, c, h);
    Addressed(t, A, x) && SlotBid(t, A, {}, x) == SlotBid(s, A, {}, x) &&
    SlotHash(t, A, {}, x) == if x == c then h else SlotHash(s, A, {}, x)
  }

  lemma MendRootSlot(s: State, A: Tree, c: Addr, h: Hash, x: Addr)
    requires Slot(s, A, c) && Addressed(s, A, x) && IsRoot(x)
    ensures SlotMended(s, A, c, h, x)
  {
    RootPath(x);
    if IsRoot(c) { RootPath(c); }
  }

  lemma MendEntrySlot(s: State, A: Tree, c: Addr, h: Hash, x: Addr)
    requires Skeleton(s, A) && Slot(s, A, c) && x in A && !IsRoot(x)
    ensures Joined(s, A, x) && SlotMended(s, A, c, h, x)
  {
    hide Global;
    InnerBlock(s, A, x);
    MendPlain(s, A, c, h, Parent(x));
    if !IsRoot(c) && Parent(x) == Parent(c) {
      PutHashExact(Plain(s, c.iid, A[Parent(c)]), Last(c), h, Last(x));
      if Last(x) == Last(c) { SiblingsDiffer(c, x); }
    }
  }

  // Only the slot of c changes, and in it only the hash.
  lemma MendSlot(s: State, A: Tree, c: Addr, h: Hash, x: Addr)
    requires Skeleton(s, A) && Slot(s, A, c) && x in A
    ensures Joined(s, A, x) && SlotMended(s, A, c, h, x)
  {
    assert Joined(s, A, x);
    if IsRoot(x) {
      MendRootSlot(s, A, c, h, x);
    } else {
      MendEntrySlot(s, A, c, h, x);
    }
  }

  lemma MendJoined(s: State, A: Tree, c: Addr, h: Hash, x: Addr)
    requires Skeleton(s, A) && Slot(s, A, c) && x in A
    ensures Joined(Mended(s, A, c, h), A, x)
  {
    hide Global;
    MendSlot(s, A, c, h, x);
    MendPlain(s, A, c, h, x);
    if !IsRoot(c) && x == Parent(c) {
      forall j | 0 <= j < INDEX_PER_BLOCK
        ensures EntryBid(View(Mended(s, A, c, h), A, {}, x), j) == EntryBid(View(s, A, {}, x), j)
      {
        PutHashExact(View(s, A, {}, x), Last(c), h, j);
      }
    }
  }

  lemma MendGlobal(s: State, A: Tree, c: Addr, h: Hash)
    requires Global(s, A) && Slot(s, A, c)
    ensures Global(Mended(s, A, c, h), A)
  {
  }

  lemma MendSkeleton(s: State, A: Tree, c: Addr, h: Hash)
    requires Skeleton(s, A) && Slot(s, A, c)
    ensures Skeleton(Mended(s, A, c, h), A)
  {
    hide Global, Linked, Joined;
    MendGlobal(s, A, c, h);
    forall x | x in A
      ensures Joined(Mended(s, A, c, h), A, x)
    {
      MendJoined(s, A, c, h, x);
    }
  }

  /** A slot that has been rewritten is right if it was given the right hash; any other is right if
      and only if it was, unless it belongs to the block written. */
  lemma MendSettled(s: State, A: Tree, c: Addr, h: Hash, x: Addr)
    requires Skeleton(s, A) && Slot(s, A, c) && x in A && (IsRoot(c) || x != Parent(c))
    ensures Settled(Mended(s, A, c, h), A, x) <==>
      if x == c then x.iid in s.ino && s.cs.hash(Plain(s, x.iid, A[x])) == h else Settled(s, A, x)
  {
    hide Global;
    MendSlot(s, A, c, h, x);
    MendPlain(s, A, c, h, x);
  }

  // ---------- what rewriting hashes leaves alone ----------

  // Position k of an index block lies in the hash of one of its entries.
  predicate InHash(k: nat) { k < INDEX_ENTRY_SZ * INDEX_PER_BLOCK && k % INDEX_ENTRY_SZ >= 4 }

  ghost predicate SameButHashes(x: Block, y: Block) {
    forall k :: 0 <= k < BLK_SZ && !InHash(k) ==> x[k] == y[k]
  }

  // Files, index entries and keys are the same; only hashes may have been rewritten.
  ghost predicate OnlyHashes(s: State, t: State, A: Tree) {
    t.cs == s.cs && t.used == s.used && (forall i :: i in s.ino <==> i in t.ino) &&
    (forall i :: i in s.ino ==> SameHead(s.ino[i], t.ino[i]) && t.ino[i].bid == s.ino[i].bid && |t.ino[i].hash| == |s.ino[i].hash|) &&
    (forall b :: (forall a :: a in A ==> A[a] != b) ==> OnDisk(t, b) == OnDisk(s, b)) &&
    forall a :: a in A && a.iid in s.ino ==> BlockKept(s, t, A, a)
  }

  ghost predicate BlockKept(s: State, t: State, A: Tree, a: Addr)
    requires a in A && a.iid in s.ino && a.iid in t.ino
  {
    if IsLeaf(a) then Plain(t, a.iid, A[a]) == Plain(s, a.iid, A[a])
    else SameButHashes(Plain(s, a.iid, A[a]), Plain(t, a.iid, A[a]))
  }

  lemma PutHashAside(b: Block, j: nat, h: Hash)
    requires j < INDEX_PER_BLOCK
    ensures SameButHashes(b, PutHash(b, j, h))
  {
    forall k | 0 <= k < BLK_SZ && !InHash(k)
      ensures b[k] == PutHash(b, j, h)[k]
    {
      SpliceAt(b, 36 * j + 4, h, k);
    }
  }

  lemma MendOnlyHashes(s: State, A: Tree, c: Addr, h: Hash)
    requires Skeleton(s, A) && Slot(s, A, c)
    ensures OnlyHashes(s, Mended(s, A, c, h), A)
  {
    hide Skeleton, BlockKept, Joined, Mended, SameHead, OnDisk, Slot;
    MendElsewhere(s, A, c, h);
    forall a | a in A && a.iid in s.ino
      ensures a.iid in Mended(s, A, c, h).ino && BlockKept(s, Mended(s, A, c, h), A, a)
    {
      MendBlock(s, A, c, h, a);
    }
  }

  // Outside the tree and beside the hashes of the inode nothing changes.
  lemma MendElsewhere(s: State, A: Tree, c: Addr, h: Hash)
    requires Slot(s, A, c)
    ensures var t := Mended(s, A, c, h);
      t.cs == s.cs && t.used == s.used && (forall i :: i in s.ino <==> i in t.ino) &&
      (forall i :: i in s.ino ==> SameHead(s.ino[i], t.ino[i]) && t.ino[i].bid == s.ino[i].bid && |t.ino[i].hash| == |s.ino[i].hash|) &&
      forall b :: (forall a :: a in A ==> A[a] != b) ==> OnDisk(t, b) == OnDisk(s, b)
  {
    hide PutHash, Plain;
  }

  lemma MendBlock(s: State, A: Tree, c: Addr, h: Hash, a: Addr)
    requires Skeleton(s, A) && Slot(s, A, c) && a in A && a.iid in s.ino
    ensures a.iid in Mended(s, A, c, h).ino && BlockKept(s, Mended(s, A, c, h), A, a)
  {
    hide SameButHashes, Linked, PutHash, Plain, Skeleton, Mended;
    MendPlain(s, A, c, h, a);
    Aside(Plain(s, a.iid, A[a]));
    if !IsRoot(c) { PutHashAside(Plain(s, a.iid, A[a]), Last(c), h); }
  }

  lemma Aside(b: Block)
    ensures SameButHashes(b, b)
  {
  }

  lemma OnlyHashesTrans(s: State, t: State, u: State, A: Tree)
    requires OnlyHashes(s, t, A) && OnlyHashes(t, u, A)
    ensures OnlyHashes(s, u, A)
  {
    forall a | a in A && a.iid in s.ino
      ensures a.iid in u.ino && BlockKept(s, u, A, a)
    {
      assert BlockKept(s, t, A, a) && BlockKept(t, u, A, a);
    }
  }

  lemma OnlyHashesPending(s: State, t: State, A: Tree)
    requires t.disk == s.disk && t.ino == s.ino && t.cs == s.cs && t.used == s.used
    ensures OnlyHashes(s, t, A)
  {
  }
}
