/** On-disk layout: addresses of the metadata zones and the radices of the index tree. */
module Layout {
  const BLK_SZ := 4096
  const INDEX_ENTRY_SZ := 36
  const INDEX_PER_BLOCK := 113
  const NDIRECT := 10
  const NINDIRECT1 := INDEX_PER_BLOCK
  const NINDIRECT2 := 12769
  const NINDIRECT3 := 1442897
  const NSLOTS := NDIRECT + 3

  const UINT32_MAX := 0xffff_ffff
  const UINT32_SPAN := 0x1_0000_0000

  // sizeof(superblock_t): 12 bytes of header and 64 bytes of keys and hash per metadata block
  const INODE_BITMAP_CNT := 1
  const INODE_SZ := 512
  const INODE_PER_BLOCK := BLK_SZ / INODE_SZ
  const INODE_CNT := 8 * INODE_BITMAP_CNT * INODE_SZ
  const BITMAP_CNT := 512
  const SB_KEY_CNT := INODE_BITMAP_CNT + INODE_CNT + BITMAP_CNT
  const SUPERBLOCK_SZ := 12 + 64 * SB_KEY_CNT
  const SUPERBLOCK_CNT := SUPERBLOCK_SZ / BLK_SZ + 1
  const INODE_BITMAP_START := SUPERBLOCK_CNT
  const INODE_START := INODE_BITMAP_START + INODE_BITMAP_CNT
  const BITMAP_START := INODE_START + INODE_CNT
  const DATA_START := BITMAP_START + BITMAP_CNT

  function Iid2Bid(iid: nat): nat { INODE_START + iid / INODE_PER_BLOCK }

  function Did2Bid(did: nat): nat { did + DATA_START }

  /** Inodes fill the inode blocks without gaps, in order of their numbers. */
  lemma InodePlace(iid: nat)
    ensures BLK_SZ * Iid2Bid(iid) + INODE_SZ * (iid % INODE_PER_BLOCK) == BLK_SZ * INODE_START + INODE_SZ * iid
    ensures iid < INODE_PER_BLOCK * INODE_CNT ==> INODE_START <= Iid2Bid(iid) < BITMAP_START
  {
  }

  // Every metadata block has its own key slot, and no two of them share one.
  lemma KeySlots(bid: nat)
    requires INODE_BITMAP_START <= bid < DATA_START
    ensures 0 <= bid - INODE_BITMAP_START < SB_KEY_CNT
  {
  }

  /** The chain of indices from the inode down to logical block bidx: first the slot of the
      inode, then one entry per index block. */
  function PathOf(bidx: nat): (p: seq<nat>)
    requires bidx < NDIRECT + NINDIRECT1 + NINDIRECT2 + NINDIRECT3
  {
    if bidx < NDIRECT then [bidx]
    else
      var b := bidx - NDIRECT;
      if b < NINDIRECT1 then [NDIRECT, b]
      else
        var b := b - NINDIRECT1;
        if b < NINDIRECT2 then [NDIRECT + 1, b / INDEX_PER_BLOCK, b % INDEX_PER_BLOCK]
        else
          var b := b - NINDIRECT2;
          [NDIRECT + 2, b / INDEX_PER_BLOCK / INDEX_PER_BLOCK,
           (b % NINDIRECT2) / INDEX_PER_BLOCK, b % NINDIRECT2 % INDEX_PER_BLOCK]
  }

  // Number of index blocks between slot k of an inode and the data.
  function LevelOf(k: nat): nat {
    if k < NDIRECT then 0 else k - NDIRECT + 1
  }

  // A path that stays inside the inode and its index blocks.
  predicate ValidPath(p: seq<nat>) {
    |p| > 0 && p[0] < NSLOTS && |p| <= 1 + LevelOf(p[0]) && forall m :: 1 <= m < |p| ==> p[m] < INDEX_PER_BLOCK
  }

  // A path that ends at a data block.
  predicate LeafPath(p: seq<nat>) {
    ValidPath(p) && |p| == 1 + LevelOf(p[0])
  }

  /** The logical block a complete path leads to. */
  function BidxOf(p: seq<nat>): nat
    requires LeafPath(p)
  {
    if |p| == 1 then p[0]
    else if |p| == 2 then NDIRECT + p[1]
    else if |p| == 3 then NDIRECT + NINDIRECT1 + p[1] * INDEX_PER_BLOCK + p[2]
    else NDIRECT + NINDIRECT1 + NINDIRECT2 + p[1] * NINDIRECT2 + p[2] * INDEX_PER_BLOCK + p[3]
  }

  lemma Split2(b: nat)
    requires b < NINDIRECT2
    ensures b / INDEX_PER_BLOCK < INDEX_PER_BLOCK && b % INDEX_PER_BLOCK < INDEX_PER_BLOCK
    ensures b / INDEX_PER_BLOCK * INDEX_PER_BLOCK + b % INDEX_PER_BLOCK == b
  {
  }

  lemma Split3(b: nat)
    requires b < NINDIRECT3
    ensures b / INDEX_PER_BLOCK / INDEX_PER_BLOCK == b / NINDIRECT2 < INDEX_PER_BLOCK
    ensures b / NINDIRECT2 * NINDIRECT2 + b % NINDIRECT2 == b && b % NINDIRECT2 < NINDIRECT2
  {
  }

  /** The decomposition stays in range at every level and recomposes to the block number; the
      literal radices are those of the layout. */
  lemma PathIsExact(bidx: nat)
    requires bidx < NDIRECT + NINDIRECT1 + NINDIRECT2 + NINDIRECT3
    ensures INDEX_PER_BLOCK == BLK_SZ / INDEX_ENTRY_SZ
    ensures NINDIRECT2 == NINDIRECT1 * INDEX_PER_BLOCK && NINDIRECT3 == NINDIRECT2 * INDEX_PER_BLOCK
    ensures LeafPath(PathOf(bidx)) && BidxOf(PathOf(bidx)) == bidx
  {
    var b := bidx - NDIRECT - NINDIRECT1;
    if 0 <= b < NINDIRECT2 {
      Split2(b);
    } else if NINDIRECT2 <= b {
      Split3(b - NINDIRECT2);
      Split2((b - NINDIRECT2) % NINDIRECT2);
    }
  }

  lemma PathInjective(x: nat, y: nat)
    requires x < NDIRECT + NINDIRECT1 + NINDIRECT2 + NINDIRECT3
    requires y < NDIRECT + NINDIRECT1 + NINDIRECT2 + NINDIRECT3
    requires PathOf(x) == PathOf(y)
    ensures x == y
  {
    PathIsExact(x);
    PathIsExact(y);
  }

  // p comes before q in lexicographic order.
  predicate Before(p: seq<nat>, q: seq<nat>) {
    exists m :: 0 <= m < |p| && m < |q| && p[..m] == q[..m] && p[m] < q[m]
  }

  lemma DoubleOrdered(x: nat, y: nat)
    requires NDIRECT + NINDIRECT1 <= x < y < NDIRECT + NINDIRECT1 + NINDIRECT2
    ensures Before(PathOf(x), PathOf(y))
  {
    var p, q := PathOf(x), PathOf(y);
    Digits(x - NDIRECT - NINDIRECT1, y - NDIRECT - NINDIRECT1, INDEX_PER_BLOCK);
    var m := if p[1] != q[1] then 1 else 2;
    assert p[..m] == q[..m] && p[m] < q[m];
  }

  lemma TripleOrdered(x: nat, y: nat)
    requires NDIRECT + NINDIRECT1 + NINDIRECT2 <= x < y < NDIRECT + NINDIRECT1 + NINDIRECT2 + NINDIRECT3
    ensures Before(PathOf(x), PathOf(y))
  {
    var p, q := PathOf(x), PathOf(y);
    var b, c := x - NDIRECT - NINDIRECT1 - NINDIRECT2, y - NDIRECT - NINDIRECT1 - NINDIRECT2;
    Split3(b);
    Split3(c);
    Digits(b, c, NINDIRECT2);
    if b % NINDIRECT2 < c % NINDIRECT2 { Digits(b % NINDIRECT2, c % NINDIRECT2, INDEX_PER_BLOCK); }
    var m := if p[1] != q[1] then 1 else if p[2] != q[2] then 2 else 3;
    assert p[..m] == q[..m] && p[m] < q[m];
  }

  /** The tree holds the blocks of a file in their order. */
  lemma PathOrdered(x: nat, y: nat)
    requires x < y < NDIRECT + NINDIRECT1 + NINDIRECT2 + NINDIRECT3
    ensures Before(PathOf(x), PathOf(y))
  {
    if NDIRECT + NINDIRECT1 <= x && y < NDIRECT + NINDIRECT1 + NINDIRECT2 {
      DoubleOrdered(x, y);
    } else if NDIRECT + NINDIRECT1 + NINDIRECT2 <= x {
      TripleOrdered(x, y);
    } else {
      var p, q := PathOf(x), PathOf(y);
      var m := if p[0] != q[0] then 0 else 1;
      assert p[..m] == q[..m] && p[m] < q[m];
    }
  }

  lemma Digits(b: nat, c: nat, d: nat)
    requires b < c && (d == INDEX_PER_BLOCK || d == NINDIRECT2)
    ensures b / d < c / d || (b / d == c / d && b % d < c % d)
  {
  }

  // Depth never decreases from one block to the next.
  lemma DepthMonotone(x: nat, y: nat)
    requires x <= y < NDIRECT + NINDIRECT1 + NINDIRECT2 + NINDIRECT3
    ensures |PathOf(x)| <= |PathOf(y)|
  {
  }

  // Every 32-bit offset falls into some block of the tree.
  lemma OffsetsFit(off: nat)
    requires off < UINT32_SPAN
    ensures off / BLK_SZ < NDIRECT + NINDIRECT1 + NINDIRECT2 + NINDIRECT3
  {
  }
}
