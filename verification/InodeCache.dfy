/** The inode cache on top of the block cache.  A cached inode points into the block it was read
    from, so that block has to stay cached for as long as the inode does. */
module InodeCaches {
  import opened Crypto
  import opened Layout
  import opened Merkle

  // An inode block, as the inodes in it.
  type InodeBlock = b: seq<Inode> | |b| == INODE_PER_BLOCK witness seq(INODE_PER_BLOCK, _ => Inode(0, 0, [], [], NOKEY))

  const NOKEY := KeyIv([], [])

  datatype CachedInode = CachedInode(ip: Inode, dirty: bool, refcnt: nat)

  datatype CachedBlock = CachedBlock(data: InodeBlock, dirty: bool, refcnt: nat)

  function SlotOf(iid: nat): (k: nat)
    ensures k < INODE_PER_BLOCK
  {
    iid % INODE_PER_BLOCK
  }

  /** Inodes lie in their blocks in the order of their numbers. */
  lemma SlotPlace(iid: nat)
    ensures INODE_PER_BLOCK * (Iid2Bid(iid) - INODE_START) + SlotOf(iid) == iid
  {
  }

  // Two inodes in the same place of the same block are the same inode.
  lemma SlotUnique(x: nat, y: nat)
    requires Iid2Bid(x) == Iid2Bid(y) && SlotOf(x) == SlotOf(y)
    ensures x == y
  {
  }

  type Icache = map<nat, CachedInode>

  type Bcache = map<nat, CachedBlock>

  type Disk = map<nat, InodeBlock>

  function Blank(): InodeBlock { seq(INODE_PER_BLOCK, _ => Inode(0, 0, [], [], NOKEY)) }

  /** The cached inodes that lie in block bid. */
  ghost function Residents(ic: Icache, bid: nat): set<nat> {
    set i | i in ic && Iid2Bid(i) == bid
  }

  lemma ResidentsGain(ic: Icache, iid: nat, c: CachedInode, bid: nat)
    requires iid !in ic
    ensures |Residents(ic[iid := c], bid)| == |Residents(ic, bid)| + if Iid2Bid(iid) == bid then 1 else 0
  {
    assert Residents(ic[iid := c], bid) == Residents(ic, bid) + if Iid2Bid(iid) == bid then {iid} else {};
  }

  lemma ResidentsLose(ic: Icache, iid: nat, bid: nat)
    requires iid in ic
    ensures |Residents(ic - {iid}, bid)| == |Residents(ic, bid)| - if Iid2Bid(iid) == bid then 1 else 0
  {
    assert Residents(ic, bid) == Residents(ic - {iid}, bid) + if Iid2Bid(iid) == bid then {iid} else {};
  }

  lemma ResidentsSame(ic: Icache, iid: nat, c: CachedInode, bid: nat)
    requires iid in ic
    ensures Residents(ic[iid := c], bid) == Residents(ic, bid)
  {
  }

  ghost function DiskBlock(d: Disk, bid: nat): InodeBlock { if bid in d then d[bid] else Blank() }

  ghost function BlockView(bc: Bcache, d: Disk, bid: nat): InodeBlock {
    if bid in bc then bc[bid].data else DiskBlock(d, bid)
  }

  /** The current inode iid, wherever it is. */
  ghost function InodeView(ic: Icache, bc: Bcache, d: Disk, iid: nat): Inode {
    if iid in ic then ic[iid].ip else BlockView(bc, d, Iid2Bid(iid))[SlotOf(iid)]
  }

  // The block of a cached inode is cached, and holds the inode unless that has been changed.
  ghost predicate Backed(ic: Icache, bc: Bcache, iid: nat)
    requires iid in ic
  {
    Iid2Bid(iid) in bc && (!ic[iid].dirty ==> bc[Iid2Bid(iid)].data[SlotOf(iid)] == ic[iid].ip)
  }

  // A block is held once for each of its inodes that is cached, and by the callers under way.
  ghost predicate Counted(ic: Icache, bc: Bcache, d: Disk, bid: nat, held: multiset<nat>)
    requires bid in bc
  {
    bc[bid].refcnt == |Residents(ic, bid)| + held[bid] && (!bc[bid].dirty ==> bc[bid].data == DiskBlock(d, bid))
  }

  /** What holds between operations, when held is empty. */
  ghost predicate PinnedIn(ic: Icache, bc: Bcache, d: Disk, held: multiset<nat>) {
    (forall i :: i in ic ==> Backed(ic, bc, i)) && forall b :: b in bc ==> Counted(ic, bc, d, b, held)
  }

  /** The block that holds a cached inode cannot be evicted. */
  lemma ResidentPins(ic: Icache, bc: Bcache, d: Disk, held: multiset<nat>, iid: nat)
    requires PinnedIn(ic, bc, d, held) && iid in ic
    ensures Iid2Bid(iid) in bc && bc[Iid2Bid(iid)].refcnt > 0
  {
    assert Backed(ic, bc, iid) && Counted(ic, bc, d, Iid2Bid(iid), held);
    assert iid in Residents(ic, Iid2Bid(iid));
  }

  /** A block of which no inode is cached, and which nobody else holds, can be. */
  lemma Unpinned(ic: Icache, bc: Bcache, d: Disk, bid: nat)
    requires PinnedIn(ic, bc, d, multiset{}) && bid in bc
    ensures bc[bid].refcnt == 0 <==> forall i :: i in ic ==> Iid2Bid(i) != bid
  {
    assert Counted(ic, bc, d, bid, multiset{});
    if i :| i in ic && Iid2Bid(i) == bid {
      assert i in Residents(ic, bid);
    } else {
      assert Residents(ic, bid) == {};
    }
  }

  // ---------- steps ----------

  ghost function InodeOut(ic: Icache, bc: Bcache, iid: nat): Bcache
    requires iid in ic && Iid2Bid(iid) in bc && bc[Iid2Bid(iid)].refcnt > 0
  {
    var c, b := ic[iid], bc[Iid2Bid(iid)];
    bc[Iid2Bid(iid) := CachedBlock(if c.dirty then b.data[SlotOf(iid) := c.ip] else b.data, b.dirty || c.dirty, b.refcnt - 1)]
  }

  lemma InodeOutView(ic: Icache, bc: Bcache, d: Disk, held: multiset<nat>, iid: nat, x: nat)
    requires PinnedIn(ic, bc, d, held) && iid in ic
    ensures Iid2Bid(iid) in bc && bc[Iid2Bid(iid)].refcnt > 0
    ensures InodeView(ic - {iid}, InodeOut(ic, bc, iid), d, x) == InodeView(ic, bc, d, x)
  {
    ResidentPins(ic, bc, d, held, iid);
    assert Backed(ic, bc, iid);
    if x != iid && Iid2Bid(x) == Iid2Bid(iid) && SlotOf(x) == SlotOf(iid) { SlotUnique(x, iid); }
  }

  lemma InodeOutPinned(ic: Icache, bc: Bcache, d: Disk, held: multiset<nat>, iid: nat)
    requires PinnedIn(ic, bc, d, held) && iid in ic
    ensures Iid2Bid(iid) in bc && bc[Iid2Bid(iid)].refcnt > 0
    ensures PinnedIn(ic - {iid}, InodeOut(ic, bc, iid), d, held)
  {
    ResidentPins(ic, bc, d, held, iid);
    var ic', bc' := ic - {iid}, InodeOut(ic, bc, iid);
    forall i | i in ic'
      ensures Backed(ic', bc', i)
    {
      assert Backed(ic, bc, i);
      if Iid2Bid(i) == Iid2Bid(iid) && SlotOf(i) == SlotOf(iid) { SlotUnique(i, iid); }
    }
    forall b | b in bc'
      ensures Counted(ic', bc', d, b, held)
    {
      assert Counted(ic, bc, d, b, held);
      ResidentsLose(ic, iid, b);
    }
  }

  ghost function BlockOut(bc: Bcache, d: Disk, bid: nat): Disk
    requires bid in bc
  {
    if bc[bid].dirty then d[bid := bc[bid].data] else d
  }

  lemma BlockOutKeeps(ic: Icache, bc: Bcache, d: Disk, held: multiset<nat>, bid: nat)
    requires PinnedIn(ic, bc, d, held) && bid in bc && bc[bid].refcnt == 0
    ensures PinnedIn(ic, bc - {bid}, BlockOut(bc, d, bid), held)
    ensures forall x :: InodeView(ic, bc - {bid}, BlockOut(bc, d, bid), x) == InodeView(ic, bc, d, x)
  {
    var bc', d' := bc - {bid}, BlockOut(bc, d, bid);
    assert Counted(ic, bc, d, bid, held);
    forall i | i in ic
      ensures Backed(ic, bc', i)
    {
      assert Backed(ic, bc, i);
      ResidentPins(ic, bc, d, held, i);
    }
    forall b | b in bc'
      ensures Counted(ic, bc', d', b, held)
    {
      assert Counted(ic, bc, d, b, held);
    }
  }

  // A block is brought into the cache, or held once more.
  ghost function BlockIn(bc: Bcache, d: Disk, bid: nat): Bcache {
    if bid in bc then bc[bid := bc[bid].(refcnt := bc[bid].refcnt + 1)]
    else bc[bid := CachedBlock(DiskBlock(d, bid), false, 1)]
  }

  lemma BlockInKeeps(ic: Icache, bc: Bcache, d: Disk, bid: nat)
    requires PinnedIn(ic, bc, d, multiset{})
    ensures PinnedIn(ic, BlockIn(bc, d, bid), d, multiset{bid})
    ensures forall x :: InodeView(ic, BlockIn(bc, d, bid), d, x) == InodeView(ic, bc, d, x)
  {
    var bc' := BlockIn(bc, d, bid);
    forall i | i in ic
      ensures Backed(ic, bc', i)
    {
      assert Backed(ic, bc, i);
    }
    forall b | b in bc'
      ensures Counted(ic, bc', d, b, multiset{bid})
    {
      if b in bc {
        assert Counted(ic, bc, d, b, multiset{});
      } else {
        assert Residents(ic, b) == {} by {
          assert forall i :: i in ic ==> Backed(ic, bc, i);
        }
      }
    }
  }

  // The inode read from the held block is put into the cache, and takes over the hold.
  lemma InodeInKeeps(ic: Icache, bc: Bcache, d: Disk, iid: nat)
    requires PinnedIn(ic, bc, d, multiset{Iid2Bid(iid)}) && iid !in ic && Iid2Bid(iid) in bc
    ensures var ic' := ic[iid := CachedInode(bc[Iid2Bid(iid)].data[SlotOf(iid)], false, 1)];
      PinnedIn(ic', bc, d, multiset{}) && forall x :: InodeView(ic', bc, d, x) == InodeView(ic, bc, d, x)
  {
    var ic' := ic[iid := CachedInode(bc[Iid2Bid(iid)].data[SlotOf(iid)], false, 1)];
    forall i | i in ic'
      ensures Backed(ic', bc, i)
    {
      if i != iid { assert Backed(ic, bc, i); }
    }
    forall b | b in bc
      ensures Counted(ic', bc, d, b, multiset{})
    {
      assert Counted(ic, bc, d, b, multiset{Iid2Bid(iid)});
      ResidentsGain(ic, iid, ic'[iid], b);
    }
  }

  lemma SetView(ic: Icache, bc: Bcache, d: Disk, iid: nat, c: CachedInode, x: nat)
    requires iid in ic
    ensures InodeView(ic[iid := c], bc, d, x) == if x == iid then c.ip else InodeView(ic, bc, d, x)
  {
  }

  // A cached inode changes its reference count, or is changed and marked dirty.
  lemma InodeSetKeeps(ic: Icache, bc: Bcache, d: Disk, iid: nat, c: CachedInode)
    requires PinnedIn(ic, bc, d, multiset{}) && iid in ic && (c.dirty || (c.ip == ic[iid].ip && !ic[iid].dirty))
    ensures PinnedIn(ic[iid := c], bc, d, multiset{})
  {
    var ic' := ic[iid := c];
    forall i | i in ic'
      ensures Backed(ic', bc, i)
    {
      assert Backed(ic, bc, i);
    }
    forall b | b in bc
      ensures Counted(ic', bc, d, b, multiset{})
    {
      assert Counted(ic, bc, d, b, multiset{});
      ResidentsSame(ic, iid, c, b);
    }
  }

  class InodeCache {
    var icac: Icache
    var bcac: Bcache
    var disk: Disk

    ghost predicate Valid()
      reads this
    {
      PinnedIn(icac, bcac, disk, multiset{})
    }

    ghost function Current(iid: nat): Inode
      reads this
    {
      InodeView(icac, bcac, disk, iid)
    }

    constructor (disk: Disk)
      ensures Valid() && forall x :: Current(x) == DiskBlock(disk, Iid2Bid(x))[SlotOf(x)]
    {
      icac, bcac, this.disk := map[], map[], disk;
    }

    /** icache_cb_write: the inode goes into its block, which is always cached, and lets go of it. */
    method IcacheCbWrite(iid: nat)
      requires Valid() && iid in icac
      modifies `icac, `bcac
      ensures Valid() && icac == old(icac) - {iid} && forall x :: Current(x) == old(Current(x))
      ensures bcac.Keys == old(bcac).Keys && forall b :: b in bcac && b != Iid2Bid(iid) ==> bcac[b] == old(bcac)[b]
      ensures Iid2Bid(iid) in bcac &&
        bcac[Iid2Bid(iid)].dirty == (old(bcac)[Iid2Bid(iid)].dirty || old(icac)[iid].dirty)
    {
      forall x
        ensures Iid2Bid(iid) in bcac && bcac[Iid2Bid(iid)].refcnt > 0
        ensures InodeView(icac - {iid}, InodeOut(icac, bcac, iid), disk, x) == Current(x)
      {
        InodeOutView(icac, bcac, disk, multiset{}, iid, x);
      }
      InodeOutPinned(icac, bcac, disk, multiset{}, iid);
      var c, bid := icac[iid], Iid2Bid(iid);
      icac := icac - {iid};
      var bp := bcac[bid];
      if c.dirty {
        bp := bp.(data := bp.data[SlotOf(iid) := c.ip], dirty := true);
      }
      bcac := bcac[bid := bp.(refcnt := bp.refcnt - 1)];
      assert bcac == InodeOut(old(icac), old(bcac), iid);
    }

    // Whatever unpinned inodes the inode cache chooses to evict.
    method EvictInodes()
      requires Valid()
      modifies `icac, `bcac
      ensures Valid() && (forall x :: Current(x) == old(Current(x))) && (forall i :: i in icac ==> i in old(icac))
      ensures forall i :: i in old(icac) && old(icac)[i].refcnt > 0 ==> i in icac
      ensures forall i :: i in icac ==> icac[i] == old(icac)[i]
    {
      var victims: set<nat> := *;
      while victims != {}
        invariant Valid() && forall x :: Current(x) == old(Current(x))
        invariant forall i :: i in icac ==> i in old(icac)
        invariant forall i :: i in old(icac) && old(icac)[i].refcnt > 0 ==> i in icac
        invariant forall i :: i in icac ==> icac[i] == old(icac)[i]
        decreases |victims|
      {
        hide PinnedIn, InodeView;
        var i :| i in victims;
        victims := victims - {i};
        if i in icac && icac[i].refcnt == 0 {
          IcacheCbWrite(i);
        }
      }
    }

    // Whatever unpinned blocks the block cache chooses to evict.
    method EvictBlocks()
      requires Valid()
      modifies `bcac, `disk
      ensures Valid() && forall x :: Current(x) == old(Current(x))
      ensures forall b :: b in old(bcac) && old(bcac)[b].refcnt > 0 ==> b in bcac
    {
      var victims: set<nat> := *;
      while victims != {}
        invariant Valid() && forall x :: Current(x) == old(Current(x))
        invariant forall b :: b in bcac ==> b in old(bcac) && bcac[b] == old(bcac)[b]
        invariant forall b :: b in old(bcac) && old(bcac)[b].refcnt > 0 ==> b in bcac
        decreases |victims|
      {
        hide PinnedIn, InodeView;
        var b :| b in victims;
        victims := victims - {b};
        if b in bcac && bcac[b].refcnt == 0 {
          BlockOutKeeps(icac, bcac, disk, multiset{}, b);
          if bcac[b].dirty {
            disk := disk[b := bcac[b].data];
          }
          bcac := bcac - {b};
        }
      }
    }

    /** iget_from_cache: the inode is held once more, and is the current one.  On a hit nothing else
        happens; otherwise other inodes may leave if nobody holds them, and none of those that stay
        changes. */
    method Iget(iid: nat) returns (ip: Inode)
      requires Valid()
      modifies `icac, `bcac, `disk
      ensures Valid() && ip == old(Current(iid)) && (forall x :: Current(x) == old(Current(x)))
      ensures iid in icac && icac[iid].refcnt == (if iid in old(icac) then old(icac)[iid].refcnt else 0) + 1
      ensures iid in old(icac) ==>
        icac == old(icac)[iid := old(icac)[iid].(refcnt := icac[iid].refcnt)] && bcac == old(bcac) && disk == old(disk)
      ensures forall i :: i in icac && i != iid ==> i in old(icac) && icac[i] == old(icac)[i]
      ensures forall i :: i in old(icac) && old(icac)[i].refcnt > 0 ==> i in icac
    {
      hide PinnedIn, InodeView;
      if iid in icac {
        CachedView(icac, bcac, disk, iid);
        ip := icac[iid].ip;
        TouchKeeps(icac, bcac, disk, iid, 1);
        icac := icac[iid := icac[iid].(refcnt := icac[iid].refcnt + 1)];
        return;
      }
      EvictInodes();
      EvictBlocks();
      var bid := Iid2Bid(iid);
      BlockInKeeps(icac, bcac, disk, bid);
      bcac := if bid in bcac then bcac[bid := bcac[bid].(refcnt := bcac[bid].refcnt + 1)]
              else bcac[bid := CachedBlock(if bid in disk then disk[bid] else Blank(), false, 1)];
      InodeInKeeps(icac, bcac, disk, iid);
      ip := bcac[bid].data[SlotOf(iid)];
      icac := icac[iid := CachedInode(ip, false, 1)];
      CachedView(icac, bcac, disk, iid);
    }

    /** inode_return */
    method Return(iid: nat)
      requires Valid() && iid in icac && icac[iid].refcnt > 0
      modifies `icac
      ensures Valid() && forall x :: Current(x) == old(Current(x))
      ensures icac == old(icac)[iid := old(icac)[iid].(refcnt := old(icac)[iid].refcnt - 1)]
    {
      hide PinnedIn, InodeView;
      TouchKeeps(icac, bcac, disk, iid, -1);
      icac := icac[iid := icac[iid].(refcnt := icac[iid].refcnt - 1)];
    }

    /** The holder of an inode changes it and calls inode_make_dirty. */
    method Update(iid: nat, ip: Inode)
      requires Valid() && iid in icac && icac[iid].refcnt > 0
      modifies `icac
      ensures Valid() && forall x :: Current(x) == if x == iid then ip else old(Current(x))
      ensures icac == old(icac)[iid := CachedInode(ip, true, old(icac)[iid].refcnt)]
    {
      hide PinnedIn, InodeView;
      var c := CachedInode(ip, true, icac[iid].refcnt);
      InodeSetKeeps(icac, bcac, disk, iid, c);
      icac := icac[iid := c];
      forall x: nat
        ensures Current(x) == if x == iid then ip else old(Current(x))
      {
        SetView(old(icac), bcac, disk, iid, c, x);
      }
    }

    /** cache_exit on the inode cache: every inode is in its block, and no block is held. */
    method Exit()
      requires Valid()
      modifies `icac, `bcac
      ensures Valid() && icac == map[] && (forall b :: b in bcac ==> bcac[b].refcnt == 0)
      ensures forall x :: BlockView(bcac, disk, Iid2Bid(x))[SlotOf(x)] == old(Current(x))
    {
      while icac != map[]
        invariant Valid() && forall x :: Current(x) == old(Current(x))
        decreases |icac|
      {
        hide PinnedIn, InodeView;
        var i :| i in icac;
        IcacheCbWrite(i);
      }
      forall b | b in bcac
        ensures bcac[b].refcnt == 0
      {
        Unpinned(icac, bcac, disk, b);
      }
      assert forall x :: Current(x) == BlockView(bcac, disk, Iid2Bid(x))[SlotOf(x)];
    }
  }

  lemma CachedView(ic: Icache, bc: Bcache, d: Disk, iid: nat)
    requires iid in ic
    ensures InodeView(ic, bc, d, iid) == ic[iid].ip
  {
  }

  lemma TouchKeeps(ic: Icache, bc: Bcache, d: Disk, iid: nat, n: int)
    requires PinnedIn(ic, bc, d, multiset{}) && iid in ic && ic[iid].refcnt + n >= 0
    ensures PinnedIn(ic[iid := ic[iid].(refcnt := ic[iid].refcnt + n)], bc, d, multiset{})
    ensures forall x :: InodeView(ic[iid := ic[iid].(refcnt := ic[iid].refcnt + n)], bc, d, x) == InodeView(ic, bc, d, x)
  {
    var c := ic[iid].(refcnt := ic[iid].refcnt + n);
    InodeSetKeeps(ic, bc, d, iid, c);
    forall x
      ensures InodeView(ic[iid := c], bc, d, x) == InodeView(ic, bc, d, x)
    {
      SetView(ic, bc, d, iid, c, x);
    }
  }
}
