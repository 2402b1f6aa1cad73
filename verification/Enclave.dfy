/** block.c and inode.c over the data zone: the block cache, the pending hashes, and the
    index tree of each inode. */
module EnclaveStore {
  import opened Layout
  import opened Blocks
  import opened Crypto
  import opened Merkle
  import opened MerkleSteps
  import opened MerkleUpdates
  import opened Routes
  import opened Relations
  import opened Carrying
  import opened FileBytes
  import opened Mending
  import opened Flush
  import opened Cascading
  import opened Rooms
  import opened StaleRoutes
  import opened Misroutes
  import opened Wrappers

  class Enclave {
    const cs: Suite
    var disk: map<nat, Block>
    var bcac: map<nat, Cached>
    var pdWb: map<nat, Pending>
    var inodes: map<nat, Inode>
    var used: set<nat>
    ghost var A: Tree
    ghost var fr: set<nat>

    ghost function St(): State
      reads this
    {
      State(cs, disk, bcac, pdWb, inodes, used)
    }

    ghost predicate Valid()
      reads this
    {
      Sound(St(), A, fr)
    }

    constructor (cs: Suite)
      requires Sane(cs)
      ensures Valid() && fr == {} && A == map[] && inodes == map[] && this.cs == cs
      ensures disk == map[] && bcac == map[] && pdWb == map[] && used == {}
    {
      this.cs := cs;
      disk, bcac, pdWb, inodes, used := map[], map[], map[], map[], {};
      A, fr := map[], {};
    }

    /** After block_init and inode_init: nothing is cached or pending.  A is the tree that lies on the
        disk, right or not. */
    constructor Mounted(cs: Suite, disk: map<nat, Block>, inodes: map<nat, Inode>, used: set<nat>, ghost A: Tree)
      ensures fr == {} && this.A == A && St() == State(cs, disk, map[], map[], inodes, used)
    {
      this.cs := cs;
      this.disk, bcac, pdWb, this.inodes, this.used := disk, map[], map[], inodes, used;
      this.A, fr := A, {};
    }

    // ---------- block.c ----------

    /** bcache_cb_write */
    method BcacheCbWrite(b: nat)
      requires b in bcac
      modifies `disk, `bcac, `pdWb
      ensures St() == WrittenBack(old(St()), b)
    {
      var bp := bcac[b];
      bcac := bcac - {b};
      if !bp.dirty {
        return;
      }
      var hash := cs.hash(bp.data);
      if b in pdWb {
        pdWb := pdWb[b := pdWb[b].(hash := hash)];
      } else {
        pdWb := pdWb[b := Pending(bp.route, hash)];
      }
      disk := disk[b := cs.enc(bp.key, bp.data)];
    }

    /** Whatever unpinned blocks the cache chooses to evict. */
    method EvictSome()
      requires Valid()
      modifies `disk, `bcac, `pdWb
      ensures Shrunk(old(St()), St(), A, fr) && Moved(old(St()), St(), {}) && Harmless(old(St()), St())
    {
      hide Shrunk, Moved, Harmless;
      ShrunkRefl(St(), A, fr);
      HarmlessRefl(St());
      MovedRefl(St());
      var victims: set<nat> := *;
      while victims != {}
        invariant Shrunk(old(St()), St(), A, fr) && Moved(old(St()), St(), {}) && Harmless(old(St()), St())
        decreases |victims|
      {
        var b :| b in victims;
        victims := victims - {b};
        if b in bcac && bcac[b].refcnt == 0 {
          ShrunkStep(old(St()), St(), A, fr, b);
          EvictMoved(St(), b);
          EvictHarmless(St(), b);
          HarmlessTrans(old(St()), St(), WrittenBack(St(), b));
          MovedTrans(old(St()), St(), WrittenBack(St(), b), {}, {}, {});
          BcacheCbWrite(b);
        }
      }
    }

    /** get_block_from_disk: a block with an expected hash is read, decrypted and validated; a
        new block is zero. */
    method GetBlockFromDisk(b: nat, route: Route, key: KeyIv, exp: Option<Hash>) returns (bp: Option<Cached>)
      ensures exp.None? ==> bp == Some(Cached(Zeros(), false, 1, route, key))
      ensures exp.Some? ==>
        bp == var data := cs.dec(key, OnDisk(St(), b));
          if cs.hash(data) == exp.value then Some(Cached(data, false, 1, route, key)) else None
    {
      if exp.Some? {
        var data := if b in disk then disk[b] else Zeros();
        data := cs.dec(key, data);
        if cs.hash(data) != exp.value {
          return None;
        }
        bp := Some(Cached(data, false, 1, route, key));
      } else {
        bp := Some(Cached(Zeros(), false, 1, route, key));
      }
    }

    // A block found in the cache.
    method BgetHit(b: nat, ghost a: Addr)
      requires Valid() && a in A && A[a] == b && b in bcac
      modifies `disk, `bcac, `pdWb
      ensures Got(old(St()), St(), A, fr, a) && Taken(old(St()), St(), {}, b, 1) && Harmless(old(St()), St())
    {
      hide Inv, Routed, Carried, Harmless;
      PinHarmless(St(), b, 1);
      PinKeeps(St(), A, fr, b, 1);
      PinRouted(St(), A, b, 1);
      PinTaken(St(), b, 1);
      bcac := bcac[b := bcac[b].(refcnt := bcac[b].refcnt + 1)];
      ghost var s1 := St();
      assert s1 == Pinned(old(St()), b, 1);
      EvictSome();
      HarmlessTrans(old(St()), s1, St());
      TakenMoved(old(St()), s1, St(), {}, {}, {}, b, 1);
      HitGot(old(St()), St(), A, fr, a);
    }

    // A block not found in the cache.
    method BgetMiss(b: nat, route: Route, key: KeyIv, exp: Option<Hash>, ghost a: Addr) returns (ok: bool)
      requires Valid() && a in A && A[a] == b && b !in bcac && a.iid in inodes && key == inodes[a.iid].key
      requires b in fr ==> exp.None?
      requires b !in fr ==> b !in pdWb && Addressed(St(), A, a) && exp == Some(SlotHash(St(), A, fr, a))
      requires IsLeaf(a) ==> HasPrefixes(A, a) && route == TrueRoute(A, a)
      modifies `disk, `bcac, `pdWb
      ensures ok && Got(old(St()), St(), A, fr, a) && Taken(old(St()), St(), {(b, route)}, b, 1) &&
        bcac[b].route == route
      ensures Harmless(old(St()), St())
    {
      hide Inv, Routed, Carried, Harmless;
      EvictSome();
      ghost var s1 := St();
      LoadHarmless(s1, b, key, Fetched(St(), A, fr, a), route);
      HarmlessTrans(old(St()), s1, Loaded(s1, b, key, Fetched(St(), A, fr, a), route));
      LoadTaken(s1, b, key, Fetched(St(), A, fr, a), route);
      ShrunkSlot(old(St()), St(), A, fr, a);
      if b !in fr {
        ReloadValidates(St(), A, fr, a);
      }
      LoadKeeps(St(), A, fr, a, route);
      LoadRouted(St(), A, fr, a, key, Fetched(St(), A, fr, a), route);
      var bp := GetBlockFromDisk(b, route, key, exp);
      assert bp == Some(Cached(Fetched(St(), A, fr, a), false, 1, route, key));
      bcac := bcac[b := bp.value];
      MovedTaken(old(St()), s1, St(), {}, {(b, route)}, {(b, route)}, b, 1);
      ok := true;
    }

    /** bget_from_cache_lock.  A block that is not cached is loaded, and its validation cannot
        fail once its pending hash has been pulled into its parent. */
    method Bget(b: nat, route: Route, key: KeyIv, exp: Option<Hash>, ghost a: Addr) returns (ok: bool)
      requires Valid() && a in A && A[a] == b && a.iid in inodes && key == inodes[a.iid].key
      requires b in fr ==> exp.None?
      requires b !in fr && b !in bcac ==> b !in pdWb && Addressed(St(), A, a) && exp == Some(SlotHash(St(), A, fr, a))
      requires IsLeaf(a) ==> HasPrefixes(A, a) && route == TrueRoute(A, a)
      modifies `disk, `bcac, `pdWb
      ensures ok && Got(old(St()), St(), A, fr, a)
      ensures Taken(old(St()), St(), if old(b in bcac) then {} else {(b, route)}, b, 1)
      ensures Harmless(old(St()), St())
    {
      hide Inv, Routed, Taken, Got, Harmless;
      if b in bcac {
        BgetHit(b, a);
        ok := true;
      } else {
        ok := BgetMiss(b, route, key, exp, a);
      }
    }

    /** block_unlock_return */
    method Return(b: nat)
      requires Valid() && b in bcac && bcac[b].refcnt > 0 && b !in fr
      modifies `bcac
      ensures Valid() && SameViews(old(St()), St(), A, fr) && Taken(old(St()), St(), {}, b, -1)
      ensures Harmless(old(St()), St())
    {
      PinTaken(St(), b, -1);
      PinKeeps(St(), A, fr, b, -1);
      PinRouted(St(), A, b, -1);
      bcac := bcac[b := bcac[b].(refcnt := bcac[b].refcnt - 1)];
    }

    /** block_alloc: the least block number not in use.  With none left dbm_alloc panics and never
        returns, which is None here. */
    method BlockAlloc() returns (r: Option<nat>)
      ensures r.None? <==> Free(used) == {}
      ensures r.Some? ==> r.value in Free(used) && forall b :: DATA_START <= b < r.value ==> b in used
    {
      var nb := DATA_START;
      while nb < DATA_START + CAPACITY && nb in used
        invariant DATA_START <= nb <= DATA_START + CAPACITY && forall b :: DATA_START <= b < nb ==> b in used
      {
        nb := nb + 1;
      }
      if nb < DATA_START + CAPACITY {
        assert nb in Free(used);
        return Some(nb);
      }
      r := None;
    }

    // ---------- inode.c: the index tree ----------

    /** get_real_hash_ip */
    method GetRealHashIp(i: nat, k: nat)
      requires Valid() && i in inodes && k < NSLOTS && Addr(i, [k]) in A && Addressed(St(), A, Addr(i, [k]))
      requires inodes[i].bid[k] == A[Addr(i, [k])]
      modifies `pdWb, `inodes
      ensures St() == MaybePulled(old(St()), A, Addr(i, [k]))
    {
      var bid := inodes[i].bid[k];
      if bid in pdWb {
        inodes := inodes[i := inodes[i].(hash := inodes[i].hash[k := pdWb[bid].hash])];
        pdWb := pdWb - {bid};
      }
    }

    // The slot is empty: a block is allocated for it.
    method FillInodeSlot(i: nat, k: nat) returns (nb: nat)
      requires Valid() && i in inodes && k < NSLOTS && Free(used) != {}
      requires |inodes[i].bid| == |inodes[i].hash| == NSLOTS && ValidPath([k])
      modifies `inodes, `used, `A, `fr
      ensures nb in Free(old(used)) && DATA_START <= nb < UINT32_SPAN && forall b :: DATA_START <= b < nb ==> b in old(used)
      ensures St() == Grafted(old(St()), old(A), Addr(i, [k]), nb)
      ensures A == old(A)[Addr(i, [k]) := nb] && fr == GraftedFresh(old(A), old(fr), Addr(i, [k]), nb)
    {
      hide Inv, Routed, Took;
      var r := BlockAlloc();
      nb := r.value;
      used := used + {nb};
      inodes := inodes[i := inodes[i].(bid := inodes[i].bid[k := nb], hash := inodes[i].hash[k := cs.hash(Zeros())])];
      A, fr := A[Addr(i, [k]) := nb], fr + {nb};
    }

    // The empty slot is filled, and ready.
    method NewInodeSlot(i: nat, k: nat) returns (bid: nat)
      requires Valid() && fr == {} && i in inodes && k < NSLOTS && Addr(i, [k]) !in A && Free(used) != {}
      modifies `inodes, `used, `A, `fr
      ensures Kept(old(St()), old(A), old(fr), St(), A, fr) && Took(old(A), old(used), A, used, {Addr(i, [k])})
      ensures SlotReady(old(A), St(), A, fr, Addr(i, [k]), bid, true)
      ensures bcac == old(bcac) && Moved(old(St()), St(), {})
    {
      hide Inv, Routed, Kept, Moved, Took, Free;
      ghost var a := Addr(i, [k]);
      RootOf(St(), A, fr, i, k);
      bid := FillInodeSlot(i, k);
      TookNew(old(A), old(used), a, bid);
      assert bid !in old(used) by { FreeUnused(old(used), bid); }
      GraftReady(old(St()), old(A), {}, a, bid);
      GraftMoved(old(St()), old(A), a, bid);
    }

    // The part of inode_index_lookup that reads, or fills, slot k of the inode.
    method InodeSlot(i: nat, k: nat, write: bool) returns (bid: nat, new_: bool)
      requires Valid() && fr == {} && i in inodes && k < NSLOTS
      requires Addr(i, [k]) in A || (write && Free(used) != {})
      modifies `pdWb, `inodes, `used, `A, `fr
      ensures Kept(old(St()), old(A), old(fr), St(), A, fr) && Took(old(A), old(used), A, used, {Addr(i, [k])})
      ensures SlotReady(old(A), St(), A, fr, Addr(i, [k]), bid, new_)
      ensures bcac == old(bcac) && (new_ ==> write) && Moved(old(St()), St(), {}) &&
        (!new_ ==> Harmless(old(St()), St()))
    {
      hide Inv, Routed, Kept, Moved, Took, Free, Harmless;
      RootOf(St(), A, fr, i, k);
      if write && inodes[i].bid[k] == 0 {
        bid := NewInodeSlot(i, k);
        new_ := true;
      } else {
        bid, new_ := inodes[i].bid[k], false;
        TookPresent(A, used, Addr(i, [k]));
        GetRealHashIp(i, k);
        PullReady(old(St()), A, Addr(i, [k]));
        PullHarmless(old(St()), A, Addr(i, [k]));
        PullMoved(old(St()), A, Addr(i, [k]));
      }
    }

    /** get_real_hash_index, for entry j of the cached index block b */
    method GetRealHashIndex(b: nat, j: nat, ghost a: Addr)
      requires Valid() && a in A && A[a] == b && b in bcac && j < INDEX_PER_BLOCK
      requires Child(a, j) in A && Addressed(St(), A, Child(a, j))
      requires Parent(Child(a, j)) == a && !IsRoot(Child(a, j)) && Last(Child(a, j)) == j
      requires EntryBid(bcac[b].data, j) == A[Child(a, j)]
      modifies `pdWb, `bcac
      ensures St() == MaybePulled(old(St()), A, Child(a, j))
    {
      var bid := EntryBid(bcac[b].data, j);
      if bid in pdWb {
        bcac := bcac[b := bcac[b].(data := PutHash(bcac[b].data, j, pdWb[bid].hash), dirty := true)];
        pdWb := pdWb - {bid};
      }
    }

    // Entry j of the cached index block b is empty: a block is allocated for it.
    method FillEntry(b: nat, j: nat, ghost a: Addr) returns (nb: nat)
      requires Valid() && a in A && A[a] == b && b in bcac && j < INDEX_PER_BLOCK && Free(used) != {}
      requires a.iid in inodes && |inodes[a.iid].bid| == |inodes[a.iid].hash| == NSLOTS && ValidPath(Child(a, j).path)
      requires Parent(Child(a, j)) == a && !IsRoot(Child(a, j)) && Last(Child(a, j)) == j
      modifies `bcac, `used, `A, `fr
      ensures nb in Free(old(used)) && DATA_START <= nb < UINT32_SPAN && forall b :: DATA_START <= b < nb ==> b in old(used)
      ensures St() == Grafted(old(St()), old(A), Child(a, j), nb)
      ensures A == old(A)[Child(a, j) := nb] && fr == GraftedFresh(old(A), old(fr), Child(a, j), nb)
    {
      hide Inv, Routed, Took;
      var r := BlockAlloc();
      nb := r.value;
      used := used + {nb};
      bcac := bcac[b := bcac[b].(data := PutHash(PutBid(bcac[b].data, j, nb), j, cs.hash(Zeros())), dirty := true)];
      A, fr := A[Child(a, j) := nb], fr - {b} + {nb};
    }

    // The empty entry is filled, and ready.
    method NewEntry(b: nat, j: nat, ghost a: Addr) returns (bid: nat)
      requires Valid() && a in A && A[a] == b && b in bcac && !IsLeaf(a) && j < INDEX_PER_BLOCK
      requires a.iid in inodes && bcac[b].refcnt > 0 && (fr == {} || fr == {b}) && Child(a, j) !in A && Free(used) != {}
      modifies `bcac, `used, `A, `fr
      ensures Kept(old(St()), old(A), old(fr), St(), A, fr) && Took(old(A), old(used), A, used, {Child(a, j)})
      ensures SlotReady(old(A), St(), A, fr, Child(a, j), bid, true)
      ensures b in bcac && bcac[b].refcnt > 0 && b !in fr && Extends(old(A), A)
      ensures Moved(old(St()), St(), {})
    {
      hide Inv, Routed, Kept, Moved, Took, Free;
      ghost var c := Child(a, j);
      EntryOf(St(), A, fr, a, j);
      assert b in used by { InUse(St(), A, fr, a); }
      bid := FillEntry(b, j, a);
      TookNew(old(A), old(used), c, bid);
      assert bid !in old(used) by { FreeUnused(old(used), bid); }
      GraftReady(old(St()), old(A), old(fr), c, bid);
      GraftMoved(old(St()), old(A), c, bid);
    }

    // Entry j of the cached and pinned index block b is read, or filled.
    method EntrySlot(b: nat, j: nat, write: bool, ghost a: Addr) returns (bid: nat, new_: bool)
      requires Valid() && a in A && A[a] == b && b in bcac && !IsLeaf(a) && j < INDEX_PER_BLOCK
      requires a.iid in inodes && bcac[b].data == View(St(), A, fr, a) && bcac[b].refcnt > 0
      requires fr == {} || (fr == {b} && write)
      requires Child(a, j) in A || (write && Free(used) != {})
      modifies `pdWb, `bcac, `used, `A, `fr
      ensures Kept(old(St()), old(A), old(fr), St(), A, fr) && Took(old(A), old(used), A, used, {Child(a, j)})
      ensures SlotReady(old(A), St(), A, fr, Child(a, j), bid, new_)
      ensures b in bcac && bcac[b].refcnt > 0 && b !in fr && (new_ ==> write) && Extends(old(A), A)
      ensures Moved(old(St()), St(), {}) && (!new_ ==> Harmless(old(St()), St()))
    {
      hide Inv, Routed, Kept, Moved, Took, Free, Harmless;
      ghost var c := Child(a, j);
      EntryOf(St(), A, fr, a, j);
      if fr == {b} {
        ParentIsFresh(St(), A, fr, a, c);
      }
      if write && EntryBid(bcac[b].data, j) == 0 {
        bid := NewEntry(b, j, a);
        new_ := true;
      } else {
        bid, new_ := EntryBid(bcac[b].data, j), false;
        TookPresent(A, used, c);
        GetRealHashIndex(b, j, a);
        PullReady(old(St()), A, c);
        PullHarmless(old(St()), A, c);
        PullMoved(old(St()), A, c);
      }
    }

    // The part of index_lookup_one_level after the block has been obtained.
    method LookupLoaded(b: nat, j: nat, write: bool, ghost a: Addr) returns (bid: nat, hash: Hash, new_: bool)
      requires Valid() && a in A && A[a] == b && b in bcac && !IsLeaf(a) && j < INDEX_PER_BLOCK
      requires a.iid in inodes && bcac[b].data == View(St(), A, fr, a) && bcac[b].refcnt > 0
      requires fr == {} || (fr == {b} && write)
      requires Child(a, j) in A || (write && Free(used) != {})
      modifies `pdWb, `bcac, `used, `A, `fr
      ensures Kept(old(St()), old(A), old(fr), St(), A, fr) && Took(old(A), old(used), A, used, {Child(a, j)})
      ensures SlotReady(old(A), St(), A, fr, Child(a, j), bid, new_) && (new_ ==> write)
      ensures hash == SlotHash(St(), A, fr, Child(a, j)) && Taken(old(St()), St(), {}, b, -1)
      ensures !new_ ==> Harmless(old(St()), St())
    {
      hide Inv, Routed, Kept, Moved, Taken, Took, Free, Harmless;
      bid, new_ := EntrySlot(b, j, write, a);
      hash := EntryHash(bcac[b].data, j);
      EntryOf(St(), A, fr, a, j);
      ghost var s2 := St();
      Return(b);
      if !new_ { HarmlessTrans(old(St()), s2, St()); }
      MovedTaken(old(St()), s2, St(), {}, {}, {}, b, -1);
      ReadyReturned(old(A), s2, A, fr, Child(a, j), bid, new_, St());
      ViewsKept(s2, St(), A, fr);
      KeptTrans(old(St()), old(A), old(fr), s2, A, fr, St(), A, fr);
    }

    /** index_lookup_one_level: entry j of index block b, which is loaded if it is not cached. */
    method IndexLookupOneLevel(b: nat, j: nat, route: Route, key: KeyIv, exp: Option<Hash>, write: bool, ghost a: Addr)
      returns (ok: bool, bid: nat, hash: Hash, new_: bool)
      requires Valid() && a in A && A[a] == b && !IsLeaf(a) && j < INDEX_PER_BLOCK
      requires a.iid in inodes && key == inodes[a.iid].key
      requires fr == {} || (fr == {b} && write)
      requires b in fr ==> exp.None?
      requires b !in fr && b !in bcac ==> b !in pdWb && Addressed(St(), A, a) && exp == Some(SlotHash(St(), A, fr, a))
      requires Child(a, j) in A || (write && Free(used) != {})
      modifies `disk, `pdWb, `bcac, `used, `A, `fr
      ensures ok && Kept(old(St()), old(A), old(fr), St(), A, fr) && Took(old(A), old(used), A, used, {Child(a, j)})
      ensures SlotReady(old(A), St(), A, fr, Child(a, j), bid, new_) && (new_ ==> write)
      ensures hash == SlotHash(St(), A, fr, Child(a, j))
      ensures Moved(old(St()), St(), if old(b in bcac) then {} else {(b, route)})
      ensures !new_ ==> Harmless(old(St()), St())
    {
      hide Inv, Routed, Kept, Moved, Taken, Took, Free, Harmless;
      ok := Bget(b, route, key, exp, a);
      ghost var s1 := St();
      GotData(old(St()), s1, A, fr, a);
      ViewsKept(old(St()), s1, A, fr);
      bid, hash, new_ := LookupLoaded(b, j, write, a);
      if !new_ { HarmlessTrans(old(St()), s1, St()); }
      TakenReturned(old(St()), s1, St(), if old(b in bcac) then {} else {(b, route)}, b);
      KeptTrans(old(St()), old(A), old(fr), s1, old(A), old(fr), St(), A, fr);
    }

    // One level of inode_index_lookup: from the index block at c to its entry j.
    method Deeper(i: nat, b: nat, tmpnew: bool, h: Hash, d: nat, j: nat, hashidx: Route, write: bool, ghost c: Addr,
                  ghost s0: State, ghost A0: Tree, ghost left: Route, ghost goal: Addr)
      returns (bid: nat, hash: Hash, new_: bool, hx: Route)
      requires Reached(s0, A0, St(), A, fr, c, b, tmpnew, h) && (tmpnew ==> write) &&
        Handing(s0, St(), A, c, left, hashidx)
      requires !IsLeaf(c) && c.iid == i && j < INDEX_PER_BLOCK && d == |c.path| < 4
      requires if write then Room(A0, s0.used, Way(goal)) && Way(Child(c, j)) <= Way(goal) else Child(c, j) in A
      requires Took(A0, s0.used, A, used, Way(c))
      modifies `disk, `pdWb, `bcac, `used, `A, `fr
      ensures Reached(s0, A0, St(), A, fr, Child(c, j), bid, new_, hash) && (new_ ==> write)
      ensures hx == hashidx[d := HashIdx(b, j)] && Handing(s0, St(), A, Child(c, j), left, hx)
      ensures Took(A0, s0.used, A, used, Way(Child(c, j))) && Extends(old(A), A)
    {
      hide Inv, Routed, Kept, Moved, RoundPairs, Took, Room, Way, Free, Idle, Harmless;
      ghost var s1, A1, f1 := St(), A, fr;
      var ok;
      WayStep(c, j);
      if write { RoomNext(A0, s0.used, A, used, Way(c), Child(c, j), Way(goal)); }
      ok, bid, hash, new_ := IndexLookupOneLevel(b, j, hashidx, inodes[i].key, if tmpnew then None else Some(h), write, c);
      hx := hashidx[d := HashIdx(b, j)];
      MovedWiden(s1, St(), if b in s1.bcac then {} else {(b, hashidx)}, {(b, hashidx)});
      KeptTrans(s0, A0, {}, s1, A1, f1, St(), A, fr);
      KeptGrows(s1, A1, f1, St(), A, fr);
      KeptGrows(s0, A0, {}, s1, A1, f1);
      StillIdle(s1, A1, St(), A, Child(c, j), new_);
      IdleTrans(s0, A0, s1, A1, St(), A);
      HandingStep(s0, s1, St(), A1, A, c, j, left, hashidx);
      TookTrans(A0, s0.used, A1, s1.used, A, used, Way(c), {Child(c, j)});
    }

    // The first level of inode_index_lookup: slot k of the inode.
    method FromInode(i: nat, k: nat, write: bool, hashidx: Route) returns (bid: nat, hash: Hash, new_: bool, hx: Route)
      requires Valid() && fr == {} && i in inodes && k < NSLOTS && |hashidx| == 4
      requires Addr(i, [k]) in A || (write && Free(used) != {})
      modifies `pdWb, `inodes, `used, `A, `fr
      ensures Reached(old(St()), old(A), St(), A, fr, Addr(i, [k]), bid, new_, hash) && (new_ ==> write)
      ensures hx == hashidx[0 := HashIdx(i, k)] && Handing(old(St()), St(), A, Addr(i, [k]), hashidx, hx)
      ensures Took(old(A), old(used), A, used, Way(Addr(i, [k]))) && Extends(old(A), A)
    {
      hide Inv, Routed, Kept, Moved, Took, Way, Free, Idle, Harmless;
      hx := hashidx[0 := HashIdx(i, k)];
      WayStarts(i, k);
      bid, new_ := InodeSlot(i, k, write);
      RootOf(St(), A, fr, i, k);
      hash := inodes[i].hash[k];
      KeptGrows(old(St()), old(A), {}, St(), A, fr);
      StillIdle(old(St()), old(A), St(), A, Addr(i, [k]), new_);
      HandingStarts(old(St()), St(), A, Addr(i, [k]), hashidx, hx);
    }

    // What a lookup along path p needs, and what it has done in the end.
    ghost predicate CanLookup(i: nat, p: seq<nat>, write: bool, hashidx: Route)
      reads this
    {
      Valid() && fr == {} && i in inodes && LeafPath(p) &&
      (if write then Room(A, used, Way(Addr(i, p))) else Addr(i, p) in A) &&
      |hashidx| == 4 && forall m :: |p| <= m < 4 ==> hashidx[m] == HashIdx(0, 0)
    }

    ghost predicate LookedUp(s0: State, A0: Tree, i: nat, p: seq<nat>, write: bool, left: Route, bid: nat,
                             hash: Hash, new_: bool, hx: Route)
      requires |p| > 0 && |left| == 4
      reads this
    {
      (new_ ==> write) && Reached(s0, A0, St(), A, fr, Addr(i, p), bid, new_, hash) && Took(A0, s0.used, A, used, Way(Addr(i, p))) &&
      Extends(A0, A) &&
      HasPrefixes(A, Addr(i, p)) && hx == TrueRoute(A, Addr(i, p)) &&
      Moved(s0, St(), RoundPairs(A, Addr(i, p), left, |p|))
    }

    // bidx < NDIRECT
    method LookupDirect(i: nat, k: nat, write: bool, hashidx: Route)
      returns (bid: nat, hash: Hash, new_: bool, hx: Route)
      requires CanLookup(i, [k], write, hashidx)
      modifies `pdWb, `inodes, `used, `A, `fr
      ensures LookedUp(old(St()), old(A), i, [k], write, hashidx, bid, hash, new_, hx)
    {
      hide Inv, Routed, Kept, Moved, RoundPairs, Handing, Took, Room, Free;
      WayStarts(i, k);
      if write { RoomFirst(A, used, Addr(i, [k]), Way(Addr(i, [k]))); }
      bid, hash, new_, hx := FromInode(i, k, write, hashidx);
      HandingDone(old(St()), St(), A, Addr(i, [k]), hashidx, hx);
    }

    // One index block
    method LookupSingle(i: nat, j: nat, write: bool, hashidx: Route)
      returns (bid: nat, hash: Hash, new_: bool, hx: Route)
      requires CanLookup(i, [NDIRECT, j], write, hashidx)
      modifies `disk, `pdWb, `bcac, `inodes, `used, `A, `fr
      ensures LookedUp(old(St()), old(A), i, [NDIRECT, j], write, hashidx, bid, hash, new_, hx)
    {
      hide Inv, Routed, Kept, Moved, RoundPairs, Handing, Took, Room, Way, Free, Reached;
      ghost var s0, A0, a0 := St(), A, Addr(i, [NDIRECT]);
      ghost var goal := Addr(i, [NDIRECT, j]);
      OnTheWay(s0, A0, i, [NDIRECT, j]);
      if write { RoomFirst(A0, s0.used, a0, Way(goal)); }
      bid, hash, new_, hx := FromInode(i, NDIRECT, write, hashidx);
      bid, hash, new_, hx := Deeper(i, bid, new_, hash, 1, j, hx, write, a0, s0, A0, hashidx, goal);
      HandingDone(s0, St(), A, Child(a0, j), hashidx, hx);
    }

    // Two index blocks
    method LookupDouble(i: nat, j: nat, k: nat, write: bool, hashidx: Route)
      returns (bid: nat, hash: Hash, new_: bool, hx: Route)
      requires CanLookup(i, [NDIRECT + 1, j, k], write, hashidx)
      modifies `disk, `pdWb, `bcac, `inodes, `used, `A, `fr
      ensures LookedUp(old(St()), old(A), i, [NDIRECT + 1, j, k], write, hashidx, bid, hash, new_, hx)
    {
      hide Inv, Routed, Kept, Moved, RoundPairs, Handing, Took, Room, Way, Free, Reached;
      ghost var s0, A0, a0 := St(), A, Addr(i, [NDIRECT + 1]);
      ghost var a1 := Child(a0, j);
      ghost var goal := Addr(i, [NDIRECT + 1, j, k]);
      OnTheWay(s0, A0, i, [NDIRECT + 1, j, k]);
      if write { RoomFirst(A0, s0.used, a0, Way(goal)); }
      bid, hash, new_, hx := FromInode(i, NDIRECT + 1, write, hashidx);
      bid, hash, new_, hx := Deeper(i, bid, new_, hash, 1, j, hx, write, a0, s0, A0, hashidx, goal);
      bid, hash, new_, hx := Deeper(i, bid, new_, hash, 2, k, hx, write, a1, s0, A0, hashidx, goal);
      HandingDone(s0, St(), A, Child(a1, k), hashidx, hx);
    }

    // Three index blocks
    method LookupTriple(i: nat, j: nat, k: nat, l: nat, write: bool, hashidx: Route)
      returns (bid: nat, hash: Hash, new_: bool, hx: Route)
      requires CanLookup(i, [NDIRECT + 2, j, k, l], write, hashidx)
      modifies `disk, `pdWb, `bcac, `inodes, `used, `A, `fr
      ensures LookedUp(old(St()), old(A), i, [NDIRECT + 2, j, k, l], write, hashidx, bid, hash, new_, hx)
    {
      hide Inv, Routed, Kept, Moved, RoundPairs, Handing, Took, Room, Way, Free, Reached;
      ghost var s0, A0, a0 := St(), A, Addr(i, [NDIRECT + 2]);
      ghost var a1 := Child(a0, j);
      ghost var a2 := Child(a1, k);
      ghost var goal := Addr(i, [NDIRECT + 2, j, k, l]);
      OnTheWay(s0, A0, i, [NDIRECT + 2, j, k, l]);
      if write { RoomFirst(A0, s0.used, a0, Way(goal)); }
      bid, hash, new_, hx := FromInode(i, NDIRECT + 2, write, hashidx);
      bid, hash, new_, hx := Deeper(i, bid, new_, hash, 1, j, hx, write, a0, s0, A0, hashidx, goal);
      bid, hash, new_, hx := Deeper(i, bid, new_, hash, 2, k, hx, write, a1, s0, A0, hashidx, goal);
      bid, hash, new_, hx := Deeper(i, bid, new_, hash, 3, l, hx, write, a2, s0, A0, hashidx, goal);
      HandingDone(s0, St(), A, Child(a2, l), hashidx, hx);
    }

    /** inode_index_lookup: the block that holds logical block bidx, its route and the hash to
        expect, filling every empty slot on the way if write is set. */
    method InodeIndexLookup(i: nat, bidx: nat, write: bool, hashidx: Route)
      returns (bid: nat, hash: Hash, new_: bool, hx: Route)
      requires bidx < NDIRECT + NINDIRECT1 + NINDIRECT2 + NINDIRECT3 && CanLookup(i, PathOf(bidx), write, hashidx)
      modifies `disk, `pdWb, `bcac, `inodes, `used, `A, `fr
      ensures LookedUp(old(St()), old(A), i, PathOf(bidx), write, hashidx, bid, hash, new_, hx)
    {
      hide Inv, Routed, Kept, Moved, RoundPairs, Handing, CanLookup, LookedUp;
      if bidx < NDIRECT {
        bid, hash, new_, hx := LookupDirect(i, bidx, write, hashidx);
        return;
      }
      var b := bidx - NDIRECT;
      if b < NINDIRECT1 {
        bid, hash, new_, hx := LookupSingle(i, b, write, hashidx);
        return;
      }
      b := b - NINDIRECT1;
      if b < NINDIRECT2 {
        bid, hash, new_, hx := LookupDouble(i, b / INDEX_PER_BLOCK, b % INDEX_PER_BLOCK, write, hashidx);
        return;
      }
      b := b - NINDIRECT2;
      bid, hash, new_, hx := LookupTriple(i, b / INDEX_PER_BLOCK / INDEX_PER_BLOCK,
        b % NINDIRECT2 / INDEX_PER_BLOCK, b % NINDIRECT2 % INDEX_PER_BLOCK, write, hashidx);
    }

    // ---------- inode.c: inode_rw_data ----------

    // One round up to the point where the data block is at hand.
    method Obtain(i: nat, o: nat, write: bool, hashidx: Route) returns (bid: nat, new_: bool, hx: Route)
      requires o < UINT32_SPAN && CanLookup(i, PathOf(o / BLK_SZ), write, hashidx)
      modifies `disk, `pdWb, `bcac, `inodes, `used, `A, `fr
      ensures Valid() && Kept(old(St()), old(A), {}, St(), A, fr) &&
        Took(old(A), old(used), A, used, Way(LeafAt(i, o))) && Extends(old(A), A)
      ensures LeafAt(i, o) in A && A[LeafAt(i, o)] == bid && fr == (if new_ then {bid} else {}) && (new_ ==> write)
      ensures bid in bcac && bcac[bid].refcnt > 0 && i in inodes && bcac[bid].data == View(St(), A, fr, LeafAt(i, o))
      ensures HasPrefixes(A, LeafAt(i, o)) && hx == TrueRoute(A, LeafAt(i, o))
      ensures Taken(old(St()), St(), RoundPairs(A, LeafAt(i, o), hashidx, |PathOf(o / BLK_SZ)| + 1), bid, 1)
      ensures Idle(old(St()), old(A), St(), A)
    {
      hide Inv, Routed, Kept, Moved, Taken, RoundPairs, Harmless;
      ghost var a := LeafAt(i, o);
      LeavesAreLeaves(i, o);
      var hash, ok;
      bid, hash, new_, hx := InodeIndexLookup(i, o / BLK_SZ, write, hashidx);
      ghost var s1 := St();
      ok := Bget(bid, hx, inodes[i].key, if new_ then None else Some(hash), a);
      GotData(s1, St(), A, fr, a);
      ViewsKept(s1, St(), A, fr);
      KeptTrans(old(St()), old(A), {}, s1, A, fr, St(), A, fr);
      if A == old(A) { HarmlessTrans(old(St()), s1, St()); }
      ObtainTaken(old(St()), s1, St(), A, a, hashidx, hx);
    }

    method ReadRound(i: nat, o: nat, r: nat, hashidx: Route) returns (got: Bytes, hx: Route)
      requires o < UINT32_SPAN && CanLookup(i, PathOf(o / BLK_SZ), false, hashidx) && o % BLK_SZ + r <= BLK_SZ
      modifies `disk, `pdWb, `bcac, `inodes, `used, `A, `fr
      ensures Valid() && fr == {} && Kept(old(St()), old(A), {}, St(), A, {}) && used == old(used) && A == old(A)
      ensures LeafAt(i, o) in old(A) && Extends(old(A), A) && LeafAt(i, o) in A
      ensures HasPrefixes(A, LeafAt(i, o)) && hx == TrueRoute(A, LeafAt(i, o))
      ensures got == View(old(St()), old(A), {}, LeafAt(i, o))[o % BLK_SZ..o % BLK_SZ + r]
      ensures Moved(old(St()), St(), RoundPairs(A, LeafAt(i, o), hashidx, |PathOf(o / BLK_SZ)| + 1))
      ensures Harmless(old(St()), St())
    {
      hide Inv, Routed, Moved, Taken, RoundPairs, Took, Way, Free, Harmless;
      WayThere(St(), A, LeafAt(i, o));
      ghost var u, A0 := used, A;
      var bid, new_;
      bid, new_, hx := Obtain(i, o, false, hashidx);
      TookPresentAll(A0, u, A, used, Way(LeafAt(i, o)));
      assert A == A0;
      LeavesAreLeaves(i, o);
      got := bcac[bid].data[o % BLK_SZ..o % BLK_SZ + r];
      ghost var s2 := St();
      Return(bid);
      HarmlessTrans(old(St()), s2, St());
      ViewsKept(s2, St(), A, {});
      KeptTrans(old(St()), old(A), {}, s2, A, {}, St(), A, {});
      TakenReturned(old(St()), s2, St(), RoundPairs(A, LeafAt(i, o), hashidx, |PathOf(o / BLK_SZ)| + 1), bid);
    }

    // After done of n bytes at off have been read; s0 and A0 are the state before the transfer.
    ghost predicate Reading(s0: State, A0: Tree, i: nat, off: nat, n: nat, done: nat, hashidx: Route)
      reads this
    {
      Valid() && fr == {} && Kept(s0, A0, {}, St(), A, {}) && Extends(A0, A) && i in inodes && used == s0.used && A == A0 &&
      Cleared(hashidx, off + done) && Underway(s0, St(), A, i, off / BLK_SZ, EndBlock(off, done), hashidx) &&
      (done < n ==> (off + done) / BLK_SZ == EndBlock(off, done)) && Harmless(s0, St())
    }

    // One round of the loop when reading.
    method ReadStep(i: nat, off: nat, n: nat, done: nat, hashidx: Route, ghost s0: State, ghost A0: Tree)
      returns (bytes: Bytes, hx: Route)
      requires Files(s0, A0) && i in s0.ino && off + n <= s0.ino[i].size && done < n
      requires Reading(s0, A0, i, off, n, done, hashidx)
      modifies `disk, `pdWb, `bcac, `inodes, `used, `A, `fr
      ensures 0 < |bytes| <= n - done && Reading(s0, A0, i, off, n, done + |bytes|, hx)
      ensures bytes == Content(s0, A0, {}, i)[off + done..off + done + |bytes|]
    {
      hide Inv, Routed, Kept, Covered, View, Content, PathOf, Underway, RoundPairs, Moved, Harmless;
      var r := Min(n - done, BLK_SZ - (off + done) % BLK_SZ);
      FileBound(s0, A0, i, off + n);
      CoveredStill(s0, A0, St(), A, i, off + done);
      SliceOfBlock(s0, A0, {}, i, off + done, r);
      ghost var s1, A1 := St(), A;
      bytes, hx := ReadRound(i, off + done, r, hashidx);
      HarmlessTrans(s0, s1, St());
      KeptTrans(s0, A0, {}, s1, A1, {}, St(), A, {});
      ClearedOn(A, i, off + done, off + done + r);
      NextBlock(off, n, done, r);
      LeafIs(i, off + done);
      UnderwayStep(s0, s1, St(), A1, A, i, off / BLK_SZ, EndBlock(off, done), hashidx, hx);
    }

    lemma ReadingStarts(i: nat, off: nat, n: nat)
      requires Files(St(), A) && fr == {} && i in inodes && off <= inodes[i].size
      ensures Reading(St(), A, i, off, n, 0, LeftOver0())
    {
      hide Inv, Routed, Kept, Covered, View, PathOf, Underway, Harmless;
      HarmlessRefl(St());
      KeptRefl(St(), A);
      FileBound(St(), A, i, off);
      UnderwayStarts(St(), A, i, off / BLK_SZ);
    }

    lemma ReadingEnds(s0: State, A0: Tree, i: nat, off: nat, n: nat, done: nat, hashidx: Route)
      requires Reading(s0, A0, i, off, n, done, hashidx)
      ensures Sound(St(), A, {}) && fr == {} && Kept(s0, A0, {}, St(), A, {}) && A == A0 && used == s0.used
      ensures Underway(s0, St(), A, i, off / BLK_SZ, EndBlock(off, done), hashidx) && Harmless(s0, St())
    {
      hide Inv, Routed, Kept, Underway, Harmless;
    }

    lemma NothingRead(i: nat, off: nat)
      requires Files(St(), A) && fr == {} && i in inodes && off <= inodes[i].size
      ensures Transferred(St(), St(), A, i, off, 0)
    {
      hide Inv, Routed, Covered, Underway, Transferred;
      FileBound(St(), A, i, off);
      UnderwayStarts(St(), A, i, off / BLK_SZ);
      UnderwayEnds(St(), St(), A, i, off, 0, LeftOver0());
    }

    /** inode_rw_data, reading: exactly the bytes asked for, up to the end of the file, and
        nothing if the range wraps around; no file changes. */
    method ReadData(i: nat, off: nat, size: nat) returns (got: Bytes)
      requires Files(St(), A) && fr == {} && i in inodes && off <= inodes[i].size && size < UINT32_SPAN
      modifies `disk, `pdWb, `bcac, `inodes, `used, `A, `fr
      ensures SameFiles(old(St()), old(A), St(), A) && fr == {}
      ensures var c := old(Content(St(), A, {}, i));
        got == if off + size >= UINT32_SPAN then [] else c[off..Min(off + size, |c|)]
      ensures Transferred(old(St()), St(), A, i, off, |got|) && used == old(used) && A == old(A)
      ensures Harmless(old(St()), St())
      ensures old(AllRouted(St(), A)) && Straight(off, |got|) ==> AllRouted(St(), A)
      ensures old(InFiles(St(), A)) ==> InFiles(St(), A)
    {
      hide Inv, Routed, Kept, Covered, View, Content, PathOf, SameFiles, Underway, AllRouted, InFiles, Transferred,
        Straight, Sound, Cleared, Reading, Harmless;
      ghost var s0, A0 := St(), A;
      HarmlessRefl(s0);
      ghost var c := Content(s0, A0, {}, i);
      got := [];
      KeptRefl(s0, A0);
      KeptFiles(s0, A0, s0, A0);
      FileBound(s0, A0, i, off);
      NothingRead(i, off);
      if (off + size) % UINT32_SPAN <= off {
        return;
      }
      var n := if off + size >= inodes[i].size then inodes[i].size - off else size;
      var done, hashidx := 0, LeftOver0();
      ReadingStarts(i, off, n);
      while done < n
        invariant done <= n && Reading(s0, A0, i, off, n, done, hashidx) && got == c[off..off + done]
      {
        var bytes;
        bytes, hashidx := ReadStep(i, off, n, done, hashidx, s0, A0);
        SliceStep(c, off, done, |bytes|);
        got := got + bytes;
        done := done + |bytes|;
      }
      ReadingEnds(s0, A0, i, off, n, done, hashidx);
      KeptFiles(s0, A0, St(), A);
      UnderwayEnds(s0, St(), A, i, off, done, hashidx);
      StraightRouted(s0, A0, St(), A, i, off, done);
    }

    // The next r bytes of buf are written; s0 and A0 are the state before the transfer.
    method WriteRound(i: nat, off: nat, buf: Bytes, d: nat, r: nat, hashidx: Route, ghost s0: State, ghost A0: Tree)
      returns (hx: Route)
      requires d + r <= |buf| && off + |buf| < UINT32_SPAN && i in s0.ino && (off + d) % BLK_SZ + r <= BLK_SZ
      requires off + d < UINT32_SPAN && CanLookup(i, PathOf((off + d) / BLK_SZ), true, hashidx)
      requires Patched(s0, A0, St(), A, {}, i, off, buf, d)
      modifies `disk, `pdWb, `bcac, `inodes, `used, `A, `fr
      ensures Valid() && fr == {} && Patched(s0, A0, St(), A, {}, i, off, buf, d + r)
      ensures HasPrefixes(A, LeafAt(i, off + d)) && hx == TrueRoute(A, LeafAt(i, off + d))
      ensures Took(old(A), old(used), A, used, Way(LeafAt(i, off + d)))
      ensures Extends(old(A), A) && LeafAt(i, off + d) in A
      ensures Moved(old(St()), St(), RoundPairs(A, LeafAt(i, off + d), hashidx, |PathOf((off + d) / BLK_SZ)| + 1))
    {
      hide Inv, Routed, Patched, Kept, Splice, View, Moved, Taken, RoundPairs, Took, Room, Way, Free;
      var o := off + d;
      ghost var a := LeafAt(i, o);
      var bid, new_;
      bid, new_, hx := Obtain(i, o, true, hashidx);
      ghost var s1, f1 := St(), fr;
      PatchedKept(s0, A0, old(St()), old(A), {}, s1, A, f1, i, off, buf, d);
      StoreBytes(s1, A, f1, i, o, buf[d..d + r]);
      StoreRouted(s1, A, bid, Overwritten(s1, A, f1, i, o, buf[d..d + r]));
      bcac := bcac[bid := bcac[bid].(data := Splice(bcac[bid].data, o % BLK_SZ, buf[d..d + r]), dirty := true)];
      fr := fr - {bid};
      assert fr == {};
      ghost var s2 := St();
      StoreMoved(s1, bid, bcac[bid].data);
      ghost var X := RoundPairs(A, LeafAt(i, off + d), hashidx, |PathOf((off + d) / BLK_SZ)| + 1);
      TakenMoved(old(St()), s1, s2, X, {}, X, bid, 1);
      PatchedStore(s0, A0, s1, A, f1, s2, fr, i, off, buf, d, r);
      Return(bid);
      ViewsKept(s2, St(), A, {});
      PatchedKept(s0, A0, s2, A, {}, St(), A, {}, i, off, buf, d + r);
      TakenReturned(old(St()), s2, St(), X, bid);
    }

    // There was room for the transfer of n bytes at off, and what its first done bytes lacked has
    // been taken.
    ghost predicate Supplied(s0: State, A0: Tree, i: nat, off: nat, n: nat, done: nat)
      requires done <= n && off + n < UINT32_SPAN
      reads this
    {
      EndBlock(off, n) <= MAXBLOCKS && EndBlock(off, done) <= MAXBLOCKS &&
      Room(A0, s0.used, Ways(i, off / BLK_SZ, EndBlock(off, n))) &&
      Took(A0, s0.used, A, used, Ways(i, off / BLK_SZ, EndBlock(off, done)))
    }

    lemma SuppliedParts(s0: State, A0: Tree, i: nat, off: nat, n: nat, done: nat)
      requires done <= n && off + n < UINT32_SPAN && Supplied(s0, A0, i, off, n, done)
      ensures EndBlock(off, n) <= MAXBLOCKS && EndBlock(off, done) <= MAXBLOCKS
      ensures Room(A0, s0.used, Ways(i, off / BLK_SZ, EndBlock(off, n)))
      ensures Took(A0, s0.used, A, used, Ways(i, off / BLK_SZ, EndBlock(off, done)))
    {
    }

    lemma SuppliedNext(s0: State, A0: Tree, i: nat, off: nat, n: nat, done: nat)
      requires done < n && off + n < UINT32_SPAN && Supplied(s0, A0, i, off, n, done) &&
        (off + done) / BLK_SZ == EndBlock(off, done)
      ensures Room(A, used, Way(LeafAt(i, off + done)))
    {
      hide Took, Room, PathOf, Ways, Way;
      LeafIs(i, off + done);
      EndGrows(off, done, n);
      WaysGrow(i, off / BLK_SZ, EndBlock(off, done), EndBlock(off, n));
      WayIn(i, off / BLK_SZ, EndBlock(off, done), EndBlock(off, n));
      RoomLeft(A0, s0.used, A, used, Ways(i, off / BLK_SZ, EndBlock(off, done)), Way(LeafAt(i, off + done)),
        Ways(i, off / BLK_SZ, EndBlock(off, n)));
    }

    lemma SuppliedStep(s0: State, A0: Tree, A1: Tree, u1: set<nat>, i: nat, off: nat, n: nat, done: nat, r: nat)
      requires done < n && r <= n - done && off + n < UINT32_SPAN && EndBlock(off, n) <= MAXBLOCKS &&
        EndBlock(off, done) <= MAXBLOCKS
      requires Room(A0, s0.used, Ways(i, off / BLK_SZ, EndBlock(off, n)))
      requires Took(A0, s0.used, A1, u1, Ways(i, off / BLK_SZ, EndBlock(off, done)))
      requires Took(A1, u1, A, used, Way(LeafAt(i, off + done)))
      requires (off + done) / BLK_SZ == EndBlock(off, done) && EndBlock(off, done + r) == EndBlock(off, done) + 1
      ensures Supplied(s0, A0, i, off, n, done + r)
    {
      hide Took, Room, PathOf, Way;
      LeafIs(i, off + done);
      EndGrows(off, done + r, n);
      TookTrans(A0, s0.used, A1, u1, A, used, Ways(i, off / BLK_SZ, EndBlock(off, done)), Way(LeafAt(i, off + done)));
    }

    // After done bytes of buf have been written at off.
    ghost predicate Writing(s0: State, A0: Tree, i: nat, off: nat, buf: Bytes, done: nat, hashidx: Route)
      requires i in s0.ino && done <= |buf| && off + |buf| < UINT32_SPAN
      reads this
    {
      Valid() && fr == {} && Patched(s0, A0, St(), A, {}, i, off, buf, done) && Extends(A0, A) && i in inodes &&
      Supplied(s0, A0, i, off, |buf|, done) &&
      Cleared(hashidx, off + done) && Underway(s0, St(), A, i, off / BLK_SZ, EndBlock(off, done), hashidx) &&
      (done < |buf| ==> (off + done) / BLK_SZ == EndBlock(off, done))
    }

    lemma WritingStarts(i: nat, off: nat, buf: Bytes)
      requires Files(St(), A) && fr == {} && i in inodes && off <= inodes[i].size && off + |buf| < UINT32_MAX
      requires Roomy(St(), A, i, off, |buf|)
      ensures Writing(St(), A, i, off, buf, 0, LeftOver0())
    {
      hide Inv, Routed, Covered, View, PathOf, Patched, Underway, Took, Room;
      FileBound(St(), A, i, off);
      UnderwayStarts(St(), A, i, off / BLK_SZ);
      PatchedNothing(St(), A, i, off, buf);
      EndGrows(off, 0, |buf|);
      TookNothing(A, used);
    }

    // What the next round needs.
    lemma WritingNext(s0: State, A0: Tree, i: nat, off: nat, buf: Bytes, done: nat, hashidx: Route)
      requires i in s0.ino && done < |buf| && off + |buf| < UINT32_SPAN && Writing(s0, A0, i, off, buf, done, hashidx)
      ensures (off + done) / BLK_SZ < MAXBLOCKS && CanLookup(i, PathOf((off + done) / BLK_SZ), true, hashidx)
      ensures Patched(s0, A0, St(), A, {}, i, off, buf, done) && Extends(A0, A)
      ensures Supplied(s0, A0, i, off, |buf|, done) && (off + done) / BLK_SZ == EndBlock(off, done)
      ensures Underway(s0, St(), A, i, off / BLK_SZ, EndBlock(off, done), hashidx)
    {
      hide Inv, Routed, View, PathOf, Patched, Underway, Took, Room, Way, Ways, Supplied;
      SuppliedNext(s0, A0, i, off, |buf|, done);
      LeavesAreLeaves(i, off + done);
    }

    lemma WritingAgain(s0: State, A0: Tree, i: nat, off: nat, buf: Bytes, done: nat, hashidx: Route)
      requires i in s0.ino && done <= |buf| && off + |buf| < UINT32_SPAN
      requires Valid() && fr == {} && Patched(s0, A0, St(), A, {}, i, off, buf, done) &&
        Supplied(s0, A0, i, off, |buf|, done)
      requires Cleared(hashidx, off + done) && Underway(s0, St(), A, i, off / BLK_SZ, EndBlock(off, done), hashidx)
      requires done < |buf| ==> (off + done) / BLK_SZ == EndBlock(off, done)
      ensures Writing(s0, A0, i, off, buf, done, hashidx)
    {
      hide Inv, Routed, View, PathOf, Underway, Supplied;
      PatchedInodes(s0, A0, St(), A, i, off, buf, done);
    }

    // The round has been done: A1 and s1 are from before it.
    lemma WritingStep(s0: State, A0: Tree, s1: State, A1: Tree, i: nat, off: nat, buf: Bytes, done: nat, r: nat,
                      left: Route, hx: Route)
      requires i in s0.ino && done < |buf| && off + |buf| < UINT32_SPAN &&
        r == Min(|buf| - done, BLK_SZ - (off + done) % BLK_SZ)
      requires EndBlock(off, |buf|) <= MAXBLOCKS && EndBlock(off, done) <= MAXBLOCKS &&
        (off + done) / BLK_SZ == EndBlock(off, done)
      requires Room(A0, s0.used, Ways(i, off / BLK_SZ, EndBlock(off, |buf|)))
      requires Took(A0, s0.used, A1, s1.used, Ways(i, off / BLK_SZ, EndBlock(off, done)))
      requires Took(A1, s1.used, A, used, Way(LeafAt(i, off + done)))
      requires Underway(s0, s1, A1, i, off / BLK_SZ, EndBlock(off, done), left) && Extends(A1, A) &&
        LeafAt(i, off + done) in A
      requires HasPrefixes(A, LeafAt(i, off + done)) && hx == TrueRoute(A, LeafAt(i, off + done)) && |left| == 4
      requires Moved(s1, St(), RoundPairs(A, LeafAt(i, off + done), left, |PathOf((off + done) / BLK_SZ)| + 1))
      requires Valid() && fr == {} && r <= |buf| - done && Patched(s0, A0, St(), A, {}, i, off, buf, done + r)
      ensures Writing(s0, A0, i, off, buf, done + r, hx)
    {
      hide Writing, Inv, Routed, View, PathOf, Patched, Underway, RoundPairs, Moved, Took, Room, Way, Ways, Supplied,
        Cleared;
      RoundFits(off + done, |buf| - done, r);
      ClearedOn(A, i, off + done, off + done + r);
      NextBlock(off, |buf|, done, r);
      LeafIs(i, off + done);
      SuppliedStep(s0, A0, A1, s1.used, i, off, |buf|, done, r);
      UnderwayStep(s0, s1, St(), A1, A, i, off / BLK_SZ, EndBlock(off, done), left, hx);
      WritingAgain(s0, A0, i, off, buf, done + r, hx);
    }

    // One round of the loop when writing.
    method WriteStep(i: nat, off: nat, buf: Bytes, done: nat, hashidx: Route, ghost s0: State, ghost A0: Tree)
      returns (r: nat, hx: Route)
      requires i in s0.ino && done < |buf| && off + |buf| < UINT32_SPAN && Writing(s0, A0, i, off, buf, done, hashidx)
      modifies `disk, `pdWb, `bcac, `inodes, `used, `A, `fr
      ensures 0 < r <= |buf| - done && Writing(s0, A0, i, off, buf, done + r, hx)
    {
      hide Writing, Inv, Routed, View, PathOf, Patched, Underway, RoundPairs, Moved, Took, Room, Way, Ways, Supplied,
        Cleared, EndBlock;
      ghost var s1, A1 := St(), A;
      r := Min(|buf| - done, BLK_SZ - (off + done) % BLK_SZ);
      RoundFits(off + done, |buf| - done, r);
      WritingNext(s0, A0, i, off, buf, done, hashidx);
      SuppliedParts(s0, A0, i, off, |buf|, done);
      hx := WriteRound(i, off, buf, done, r, hashidx, s0, A0);
      WritingStep(s0, A0, s1, A1, i, off, buf, done, r, hashidx, hx);
    }

    lemma WritingEnds(s0: State, A0: Tree, i: nat, off: nat, buf: Bytes, hashidx: Route)
      requires i in s0.ino && off + |buf| < UINT32_SPAN && Writing(s0, A0, i, off, buf, |buf|, hashidx)
      ensures Sound(St(), A, {}) && fr == {} && Patched(s0, A0, St(), A, {}, i, off, buf, |buf|) && Extends(A0, A)
      ensures i in inodes && inodes[i].size == s0.ino[i].size && forall j :: j in s0.ino ==> j in inodes
      ensures Transferred(s0, St(), A, i, off, |buf|) && TookAll(s0, A0, St(), A, i, off, |buf|)
    {
      hide Inv, Routed, View, PathOf, Underway, Took, Room, Ways;
      PatchedInodes(s0, A0, St(), A, i, off, buf, |buf|);
      EndGrows(off, |buf|, |buf|);
      UnderwayEnds(s0, St(), A, i, off, |buf|, hashidx);
    }

    lemma NothingWritten(i: nat, off: nat)
      requires Files(St(), A) && fr == {} && i in inodes && off <= inodes[i].size
      ensures TookAll(St(), A, St(), A, i, off, 0) && OneFileChanged(St(), A, St(), A, i)
    {
      hide Inv, Routed, Covered, Took;
      FileBound(St(), A, i, off);
      TookNothing(A, used);
    }

    /** inode_rw_data, writing: the file holds buf at off and everything else as before, or
        nothing has changed if the range would reach the largest offset. */
    method WriteData(i: nat, off: nat, buf: Bytes) returns (done: nat)
      requires Files(St(), A) && fr == {} && i in inodes && off <= inodes[i].size && |buf| < UINT32_SPAN
      requires off + |buf| < UINT32_MAX ==> Roomy(St(), A, i, off, |buf|)
      modifies `disk, `pdWb, `bcac, `inodes, `used, `A, `fr
      ensures fr == {} && OneFileChanged(old(St()), old(A), St(), A, i)
      ensures done == if off + |buf| >= UINT32_MAX then 0 else |buf|
      ensures Content(St(), A, {}, i) == Written(old(Content(St(), A, {}, i)), off, buf[..done])
      ensures Transferred(old(St()), St(), A, i, off, done) && TookAll(old(St()), old(A), St(), A, i, off, done)
      ensures old(AllRouted(St(), A)) && Straight(off, done) ==> AllRouted(St(), A)
      ensures old(InFiles(St(), A)) ==> InFiles(St(), A)
    {
      hide Writing, Inv, Routed, Kept, Covered, View, Content, PathOf, Patched, AllRouted, InFiles, Transferred,
        Took, Room, Ways, Straight, Roomy,
        TookAll, OneFileChanged, Written;
      ghost var s0, A0 := St(), A;
      done := 0;
      NothingRead(i, off);
      NothingWritten(i, off);
      var sum := (off + |buf|) % UINT32_SPAN;
      if sum <= off || sum >= UINT32_MAX {
        WrittenNothing(Content(s0, A0, {}, i), off);
        return;
      }
      var hashidx := LeftOver0();
      WritingStarts(i, off, buf);
      while done < |buf|
        invariant done <= |buf| && Writing(s0, A0, i, off, buf, done, hashidx)
      {
        var r;
        r, hashidx := WriteStep(i, off, buf, done, hashidx, s0, A0);
        done := done + r;
      }
      ghost var s3 := St();
      WritingEnds(s0, A0, i, off, buf, hashidx);
      WriteFinished(s0, A0, s3, A, i, off, buf);
      assert buf[..done] == buf;
      StraightRouted(s0, A0, s3, A, i, off, done);
      if off + done > inodes[i].size {
        inodes := inodes[i := inodes[i].(size := off + done)];
      }
      ResizedSame(s3, i);
      ghost var z := NewSize(s0.ino[i].size, off + |buf|);
      assert St() == Resized(s3, i, z);
      TransferredResized(s0, s3, A, i, off, done, z);
      TookResized(s0, A0, s3, A, i, off, done, z);
      SameRoutes(s3, Resized(s3, i, z), A);
    }

    /** The end of inode_new_get: a fresh inode of the given type is set up, with an empty file. */
    method NewInode(i: nat, tp: nat, key: KeyIv)
      requires Files(St(), A) && fr == {} && i !in inodes
      modifies `inodes
      ensures Files(St(), A) && inodes.Keys == old(inodes.Keys) + {i} && inodes[i].key == key && inodes[i].tp == tp
      ensures inodes[i].size == 0 && Content(St(), A, {}, i) == []
      ensures forall j :: j in old(inodes) ==>
        j in inodes && inodes[j].tp == old(inodes)[j].tp && inodes[j].key == old(inodes)[j].key &&
        Content(St(), A, {}, j) == old(Content(St(), A, {}, j))
      ensures old(AllRouted(St(), A)) ==> AllRouted(St(), A)
      ensures old(InFiles(St(), A)) ==> InFiles(St(), A)
    {
      hide Inv, Routed, Content, AllRouted, InFiles;
      var ip := Inode(tp, 0, seq(NSLOTS, _ => 0), seq(NSLOTS, _ => seq(32, _ => 0)), key);
      BornKeeps(St(), A, i, ip);
      forall j | j in inodes
        ensures Covered(A, j, inodes[j].size) && Content(Born(St(), i, ip), A, {}, j) == Content(St(), A, {}, j)
      {
        BornFile(St(), A, i, ip, j);
      }
      SameRoutes(St(), Born(St(), i, ip), A);
      inodes := inodes[i := ip];
      assert St() == Born(old(St()), i, ip);
    }

    // ---------- block.c: block_exit ----------

    /** cache_exit on the block cache: every block is written back, held or not. */
    method CacheExit()
      requires Valid() && fr == {}
      modifies `disk, `bcac, `pdWb
      ensures bcac == map[] && Valid() && SameViews(old(St()), St(), A, {}) && Left(St()) == old(Left(St()))
      ensures Harmless(old(St()), St())
    {
      hide Inv, Routed, Left, Harmless;
      HarmlessRefl(St());
      while bcac != map[]
        invariant Valid() && SameViews(old(St()), St(), A, {}) && Left(St()) == old(Left(St()))
        invariant Harmless(old(St()), St())
        decreases |bcac|
      {
        var b :| b in bcac;
        ghost var s1 := St();
        EvictKeeps(s1, A, {}, b);
        EvictRouted(s1, A, b);
        LeftStays(s1, b);
        EvictHarmless(s1, b);
        HarmlessTrans(old(St()), s1, WrittenBack(s1, b));
        BcacheCbWrite(b);
        SameViewsTrans(old(St()), s1, St(), A, {});
      }
    }

    // The index blocks that a pending entry would be written through.
    static method PassedBlocks(r: Route) returns (p: set<nat>)
      requires |r| == 4
      ensures p == Passed(r)
    {
      p := {};
      var i := 3;
      while i > 0 && r[i].id == 0
        invariant Deepest(r) <= i <= 3 && forall m :: i < m < 4 ==> r[m].id == 0
      {
        i := i - 1;
      }
      while i > 0
        invariant 0 <= i <= Deepest(r)
        invariant forall b :: b in p <==> exists m :: i < m <= Deepest(r) && r[m].id == b
      {
        p := p + {r[i].id};
        i := i - 1;
      }
    }

    // The first loop: all blocks that some pending block will be written through.
    method DuplicateBlocks() returns (dup: set<nat>)
      requires Wide(pdWb)
      ensures forall b :: b in dup <==> exists q :: q in pdWb && b in Passed(pdWb[q].route)
    {
      dup := {};
      var rest := pdWb.Keys;
      while rest != {}
        invariant rest <= pdWb.Keys
        invariant forall b :: b in dup <==> exists q :: q in pdWb && q !in rest && b in Passed(pdWb[q].route)
      {
        hide Passed;
        var q :| q in rest;
        rest := rest - {q};
        var p := PassedBlocks(pdWb[q].route);
        dup := dup + p;
      }
    }

    /** Deduplication: a block that another pending block will be written through is dropped. */
    method Deduplicate()
      requires Wide(pdWb)
      modifies `pdWb
      ensures pdWb == Deduplicated(old(pdWb))
    {
      hide Passed;
      var dup := DuplicateBlocks();
      ghost var all := dup;
      while dup != {}
        invariant dup <= all && pdWb == (old(pdWb) - (all - dup))
      {
        var b :| b in dup;
        dup := dup - {b};
        pdWb := pdWb - {b};
      }
    }

    // One pending entry is written through, from the block above it up to the inode.
    method Cascade(node: Pending)
      requires Usable(St(), node.route)
      modifies `disk, `inodes
      ensures St() == Flushed(old(St()), node)
    {
      hide Through;
      var r := node.route;
      var dip := inodes[r[0].id];
      var hash := node.hash;
      var i := 3;
      while i > 0 && r[i].id == 0
        invariant Deepest(r) <= i <= 3
      {
        i := i - 1;
      }
      while i > 0
        invariant 0 <= i <= Deepest(r) && inodes == old(inodes) && Usable(St(), r)
        invariant Through(St(), r, i, hash) == Flushed(old(St()), node)
      {
        hide PutHash;
        ThroughStep(St(), r, i, hash);
        var data := if r[i].id in disk then disk[r[i].id] else Zeros();
        data := PutHash(cs.dec(dip.key, data), r[i].idx, hash);
        hash := cs.hash(data);
        disk := disk[r[i].id := cs.enc(dip.key, data)];
        i := i - 1;
      }
      ThroughEnd(St(), r, hash);
      inodes := inodes[r[0].id := dip.(hash := dip.hash[r[0].idx := hash])];
    }

    // The entries in the order of the map's iterator.
    method FirstPending() returns (id: nat)
      requires pdWb != map[]
      ensures id in pdWb && forall b :: b in pdWb ==> id <= b
    {
      LeastPending(pdWb);
      id :| id in pdWb && forall b :: b in pdWb ==> id <= b;
    }

    // The rest of block_exit: deduplication, and one pending entry after the other.
    method FlushPending(ghost L: set<Addr>, ghost G: set<Addr>)
      requires Skeleton(St(), A) && AllSensible(St(), A, Left(St()))
      modifies `disk, `pdWb, `inodes
      ensures pdWb == map[] && Steady(old(St()), St(), A, old(Left(St())))
      ensures old(Wide(pdWb)) && St() == FlushedAll(old(St().(pd := Deduplicated(pdWb))))
      ensures old(Wide(pdWb) && FlushInv(St().(pd := Deduplicated(pdWb)), A, L, G)) ==> FlushInv(St(), A, L, G)
    {
      hide FlushInv, Deduplicated, Left, Steady, AllSensible, Skeleton, Flushed, Usable;
      ghost var s1, R := St(), Left(St());
      SteadyStarts(s1, A);
      Deduplicate();
      ghost var s2 := St();
      ghost var guided := FlushInv(s2, A, L, G);
      while pdWb != map[]
        invariant Steady(s1, St(), A, R) && (guided ==> FlushInv(St(), A, L, G)) && FlushedAll(St()) == FlushedAll(s2)
        decreases |pdWb|
      {
        var id := FirstPending();
        var node := pdWb[id];
        SteadyStep(s1, St(), A, R, id);
        if guided { GuidedStep(St(), A, id, L, G); }
        FlushedFirst(St(), id);
        pdWb := pdWb - {id};
        Cascade(node);
      }
    }

    /** block_exit, whatever routes the waiting blocks carry, as long as they are routes inside a
        file.  Afterwards nothing is cached or pending, and apart from hashes nothing has changed.  A
        slot that no kept route names is right exactly if it was up to date.  If all kept routes are
        true, every slot is right, except exactly for the blocks that have been dropped with no kept
        block below them and whose slot was not up to date before.  State m lies between the exit of
        the cache and the flush. */
    method BlockExit() returns (ghost m: State)
      requires Valid() && fr == {} && AllSensible(St(), A, Left(St()))
      modifies `disk, `bcac, `pdWb, `inodes
      ensures bcac == map[] && pdWb == map[] && ViewsButHashes(old(St()), St(), A) && old(Full(Left(St())))
      ensures Emptied(old(St()), m, A) && St() == FlushedAll(m.(pd := Deduplicated(m.pd)))
      ensures forall a :: a in A && Unnamed(old(Left(St())), A, a) ==> (Settled(St(), A, a) <==> old(UpToDate(St(), A, a)))
      ensures Harmless(old(St()), St()) && (old(Quiet(St())) ==> forall a :: a in A ==> Settled(St(), A, a))
      ensures Guided(old(Left(St())), A) ==>
        forall a :: a in A ==> (Settled(St(), A, a) <==> a !in Lost(old(Left(St())), A) || old(UpToDate(St(), A, a)))
      ensures (forall a :: a in A ==> Settled(St(), A, a)) ==>
        Valid() && (old(Files(St(), A)) ==> SameFiles(old(St()), A, St(), A))
    {
      hide Inv, Routed, Left, Lost, Guided, FlushInv, OnlyHashes, Settled, UpToDate, Deduplicated, Files, SameFiles,
        SameData, SameViews,
        AllSensible, Steady, Unnamed, ViewsButHashes, Skeleton, Full, FlushedAll, Harmless, Quiet;
      ghost var s0, R := St(), Left(St());
      SensibleFull(s0, A, R);
      CacheExit();
      ghost var s1 := St();
      m := s1;
      StillAllSensible(s0, s1, A, R);
      ExitUpToDate(s0, s1, A);
      ExitSkeleton(s1, A);
      ghost var L := Lost(R, A);
      ghost var G := set x | x in L && Settled(s1, A, x);
      if Guided(R, A) { FlushStarts(s1, A); }
      FlushPending(L, G);
      if Guided(R, A) { FlushEnds(St(), A, L, G); }
      SteadyEnds(s1, St(), A, R);
      FlushedViews(s0, s1, St(), A);
      FlushedSound(s0, St(), A);
      QuietFlush(s0, s1, St(), A);
    }
  }

  // If no block was allocated for c, the step has done no harm.
  lemma StillIdle(s: State, A: Tree, t: State, A': Tree, c: Addr, new_: bool)
    requires c in A' && (new_ <==> c !in A) && (!new_ ==> Harmless(s, t))
    ensures Idle(s, A, t, A')
  {
  }

  // In a quiet state every slot is up to date, and the flush has nothing to do.
  lemma QuietFlush(s: State, m: State, t: State, A: Tree)
    requires Sound(s, A, {}) && Emptied(s, m, A) && Harmless(s, m) && t == FlushedAll(m.(pd := Deduplicated(m.pd)))
    requires Full(Left(s)) && forall a :: a in A && Unnamed(Left(s), A, a) ==> (Settled(t, A, a) <==> UpToDate(s, A, a))
    ensures Harmless(s, t) && (Quiet(s) ==> forall a :: a in A ==> Settled(t, A, a))
  {
    hide Inv, Routed, Settled, UpToDate, Hits, FlushedAll;
    if Quiet(s) {
      assert m.pd == map[] && Deduplicated(m.pd) == map[] && m.(pd := map[]) == m;
      NothingWaits(m);
      assert Left(s) == map[];
      forall a | a in A
        ensures Settled(t, A, a)
      {
        assert Unnamed(Left(s), A, a);
        QuietUpToDate(s, A, a);
      }
    }
  }

  lemma NothingWaits(s: State)
    requires s.pd == map[]
    ensures FlushedAll(s) == s
  {
  }

  lemma QuietUpToDate(s: State, A: Tree, a: Addr)
    requires Inv(s, A, {}) && Quiet(s) && a in A
    ensures UpToDate(s, A, a)
  {
    assert Good(s, A, {}, a);
  }

  // With every slot right, the flushed tree is sound and the files are the same.
  lemma FlushedSound(s: State, t: State, A: Tree)
    requires Sound(s, A, {}) && ViewsButHashes(s, t, A) && Skeleton(t, A) && t.pd == map[]
    ensures (forall a :: a in A ==> Settled(t, A, a)) ==> Sound(t, A, {}) && (Files(s, A) ==> SameFiles(s, A, t, A))
  {
    hide Inv, Routed, Settled, Skeleton, SameData, SameFiles, Covered, ViewsButHashes;
    EmptyBcac(t, A);
    ButHashesData(s, t, A);
    ViewsHead(s, t, A);
    if forall a :: a in A ==> Settled(t, A, a) {
      SettledInv(t, A);
      FlushedRoutes(s, t, A);
      if Files(s, A) { FlushedFiles(s, t, A); }
    }
  }

  lemma ViewsHead(s: State, t: State, A: Tree)
    requires ViewsButHashes(s, t, A)
    ensures t.cs == s.cs
  {
  }

  // Routes stay sensible while the inodes stay the same.
  lemma StillAllSensible(s: State, t: State, A: Tree, R: RouteMap)
    requires AllSensible(s, A, R) && t.ino == s.ino
    ensures AllSensible(t, A, R)
  {
    forall b | b in R
      ensures Sensible(t, A, R[b])
    {
      assert Sensible(s, A, R[b]);
    }
  }

  lemma ExitSkeleton(s: State, A: Tree)
    requires Inv(s, A, {}) && s.bcac == map[]
    ensures Skeleton(s, A)
  {
    InvSkeleton(s, A);
  }

  lemma SteadyEnds(s1: State, s: State, A: Tree, R: RouteMap)
    requires Steady(s1, s, A, R)
    ensures Full(R) && Skeleton(s, A) && s.bcac == map[] && OnlyHashes(s1, s, A)
    ensures forall x :: x in A && Unnamed(R, A, x) ==> (Settled(s, A, x) <==> Settled(s1, A, x))
  {
  }

  // The blocks on the way to a data block, for each depth of the tree.
  lemma OnTheWay(s: State, A: Tree, i: nat, p: seq<nat>)
    requires Routed(s, A) && 2 <= |p| <= 4
    ensures Child(Addr(i, [p[0]]), p[1]) == Addr(i, [p[0], p[1]])
    ensures |p| == 2 ==> Addr(i, p) == Addr(i, [p[0], p[1]])
    ensures |p| > 2 ==> Child(Addr(i, [p[0], p[1]]), p[2]) == Addr(i, [p[0], p[1], p[2]])
    ensures |p| == 3 ==> Addr(i, p) == Addr(i, [p[0], p[1], p[2]])
    ensures |p| > 3 ==> Child(Addr(i, [p[0], p[1], p[2]]), p[3]) == Addr(i, p)
    ensures Addr(i, p) in A ==>
      Addr(i, [p[0]]) in A && (|p| > 2 ==> Addr(i, [p[0], p[1]]) in A) && (|p| > 3 ==> Addr(i, [p[0], p[1], p[2]]) in A)
    ensures Addr(i, [p[0]]) in Way(Addr(i, p)) && Way(Addr(i, [p[0], p[1]])) <= Way(Addr(i, p))
    ensures |p| > 2 ==> Way(Addr(i, [p[0], p[1], p[2]])) <= Way(Addr(i, p))
  {
    var a := Addr(i, p);
    WayPrefix(a, 1);
    WayPrefix(a, 2);
    if |p| > 2 { WayPrefix(a, 3); }
    hide Way;
    assert p[..1] == [p[0]] && p[..2] == [p[0], p[1]];
    if |p| > 2 { assert p[..3] == [p[0], p[1], p[2]]; }
    if |p| > 3 { assert p == [p[0], p[1], p[2], p[3]]; }
    if a in A {
      assert RouteOk(s, A, a);
    }
  }

  lemma EndGrows(off: nat, m: nat, n: nat)
    requires m <= n && off + n < UINT32_SPAN
    ensures off / BLK_SZ <= EndBlock(off, m) <= EndBlock(off, n) <= MAXBLOCKS
    ensures m < n && (off + m) / BLK_SZ == EndBlock(off, m) ==> EndBlock(off, m) < EndBlock(off, n)
  {
    if n > 0 { OffsetsFit(off + n - 1); }
    OffsetsFit(off);
  }

  /** There are enough free blocks for what the tree lacks of n bytes at off. */
  ghost predicate Roomy(s: State, A: Tree, i: nat, off: nat, n: nat)
    requires off + n < UINT32_SPAN
  {
    EndGrows(off, 0, n);
    Room(A, s.used, Ways(i, off / BLK_SZ, EndBlock(off, n)))
  }

  /** Exactly what the tree lacked of n bytes at off has been allocated. */
  ghost predicate TookAll(s: State, A: Tree, t: State, A': Tree, i: nat, off: nat, n: nat) {
    off / BLK_SZ <= EndBlock(off, n) <= MAXBLOCKS && Took(A, s.used, A', t.used, Ways(i, off / BLK_SZ, EndBlock(off, n)))
  }

  lemma TookResized(s: State, A: Tree, t: State, A': Tree, i: nat, off: nat, n: nat, z: nat)
    requires TookAll(s, A, t, A', i, off, n) && i in t.ino
    ensures TookAll(s, A, Resized(t, i, z), A', i, off, n)
  {
  }

  // The way to a block of the tree belongs to the tree.
  lemma WayThere(s: State, A: Tree, a: Addr)
    requires Routed(s, A) && a in A
    ensures Way(a) <= A.Keys
  {
    assert RouteOk(s, A, a);
    forall x | x in Way(a)
      ensures x in A
    {
      var d :| 0 < d <= |a.path| && x == Addr(a.iid, a.path[..d]);
      if d == |a.path| { assert a.path[..d] == a.path; }
    }
  }

  lemma LeafIs(i: nat, o: nat)
    requires o < UINT32_SPAN
    ensures o / BLK_SZ < MAXBLOCKS && LeafAt(i, o) == Leaf(i, o / BLK_SZ)
  {
    OffsetsFit(o);
  }

  lemma FileBound(s: State, A: Tree, i: nat, off: nat)
    requires Files(s, A) && i in s.ino && off <= s.ino[i].size
    ensures off < UINT32_SPAN && off / BLK_SZ < MAXBLOCKS
  {
    OffsetsFit(off);
  }

  lemma InvNumbered(s: State, A: Tree)
    requires Inv(s, A, {})
    ensures Numbered(A)
  {
    hide Linked, Hashed;
    forall a | a in A
      ensures A[a] != 0 && ValidPath(a.path)
    {
      assert Good(s, A, {}, a);
    }
  }

  /** With true routes on all pending and dirty blocks, the flush leaves nothing behind. */
  lemma FlushableExit(s: State, A: Tree)
    requires Sound(s, A, {}) && Flushable(s, A)
    ensures Guided(Left(s), A) && Lost(Left(s), A) == {}
  {
    hide Inv, Routed, Flushable, Guided, Left, Lost;
    InvNumbered(s, A);
    TrueGuided(s, A);
  }

  lemma WiderStates(s: State, A: Tree, t: State, A': Tree)
    requires Inv(s, A, {}) && Inv(t, A', {}) && Extends(A, A') && forall i :: i in s.ino ==> i in t.ino
    ensures Wider(s, A, t, A') && forall i :: i in t.ino ==> |t.ino[i].hash| == NSLOTS
  {
    hide Good;
  }

  // What a transfer keeps of the routes.
  lemma StraightRouted(s: State, A: Tree, t: State, A': Tree, i: nat, off: nat, n: nat)
    requires Sound(s, A, {}) && Sound(t, A', {}) && Extends(A, A') && Transferred(s, t, A', i, off, n)
    requires i in t.ino && forall j :: j in s.ino ==> j in t.ino
    ensures AllRouted(s, A) && Straight(off, n) ==> AllRouted(t, A')
    ensures InFiles(s, A) ==> InFiles(t, A')
  {
    hide AllRouted, InFiles, Transferred, Routed, Inv, Wider;
    InvNumbered(t, A');
    WiderStates(s, A, t, A');
    if AllRouted(s, A) && Straight(off, n) {
      TransferRouted(s, A, t, A', i, off, n);
    }
    if InFiles(s, A) {
      TransferInFiles(s, A, t, A', i, off, n);
    }
  }

  // New inodes and sizes do not matter.
  lemma SameRoutes(s: State, t: State, A: Tree)
    requires Inv(s, A, {}) && t.bcac == s.bcac && t.pd == s.pd
    requires forall i :: i in s.ino ==> i in t.ino && |t.ino[i].hash| == |s.ino[i].hash|
    ensures AllRouted(s, A) ==> AllRouted(t, A)
    ensures InFiles(s, A) ==> InFiles(t, A)
  {
    hide AllRouted, InFiles, Inv;
    SameCaches(s, t, A);
    SameInFiles(s, t, A);
  }

  lemma InUse(s: State, A: Tree, fr: set<nat>, a: Addr)
    requires Inv(s, A, fr) && a in A
    ensures A[a] in s.used
  {
  }

  // A block that has not been written has no children.
  lemma ParentIsFresh(s: State, A: Tree, fr: set<nat>, a: Addr, c: Addr)
    requires Inv(s, A, fr) && a in A && A[a] in fr && |c.path| > 1 && Parent(c) == a
    ensures c !in A
  {
    if c in A {
      ParentIsOld(s, A, fr, c);
    }
  }

  lemma Subset(r: set<nat>, s: set<nat>)
    requires r <= s
    ensures |r| <= |s|
  {
    assert s == r + (s - r);
  }
}
