/** dinode_t: the inodes as bytes in their blocks. */
module Dinodes {
  import opened Layout
  import opened Blocks
  import opened Crypto
  import opened Merkle

  const SIZE_AT := 4
  const BID_AT := 8
  const KEY_AT := BID_AT + 4 * NSLOTS
  const IV_AT := KEY_AT + 16
  const HASH_AT := IV_AT + 16
  const DINODE_SZ := HASH_AT + 32 * NSLOTS

  type Dinode = b: Bytes | |b| == DINODE_SZ witness seq(DINODE_SZ, _ => 0)

  // The fields have the sizes of dinode_t.
  predicate Storable(ip: Inode) {
    ip.tp < 0x10000 && ip.size < UINT32_SPAN && |ip.bid| == |ip.hash| == NSLOTS &&
    |ip.key.key| == |ip.key.iv| == 16 && forall k :: 0 <= k < NSLOTS ==> ip.bid[k] < UINT32_SPAN
  }

  // Byte r of the inode; behind the type there are two bytes of padding, which stay as they were.
  function FieldByte(ip: Inode, r: nat, was: Byte): Byte
    requires Storable(ip) && r < DINODE_SZ
  {
    if r < 2 then Le32(ip.tp)[r]
    else if r < SIZE_AT then was
    else if r < BID_AT then Le32(ip.size)[r - SIZE_AT]
    else if r < KEY_AT then Le32(ip.bid[(r - BID_AT) / 4])[(r - BID_AT) % 4]
    else if r < IV_AT then ip.key.key[r - KEY_AT]
    else if r < HASH_AT then ip.key.iv[r - IV_AT]
    else ip.hash[(r - HASH_AT) / 32][(r - HASH_AT) % 32]
  }

  function PackInode(ip: Inode, was: Dinode): Dinode
    requires Storable(ip)
  {
    seq(DINODE_SZ, r requires 0 <= r < DINODE_SZ => FieldByte(ip, r, was[r]))
  }

  function UnpackInode(x: Dinode): Inode {
    Inode(
      x[0] as int + 256 * x[1] as int,
      UnLe32(x[SIZE_AT..BID_AT]),
      seq(NSLOTS, i requires 0 <= i < NSLOTS => UnLe32(x[BID_AT + 4 * i..BID_AT + 4 * i + 4])),
      seq(NSLOTS, i requires 0 <= i < NSLOTS => x[HASH_AT + 32 * i..HASH_AT + 32 * i + 32]),
      KeyIv(x[IV_AT..HASH_AT], x[KEY_AT..IV_AT]))
  }

  function SlotBytes(b: Block, k: nat): Dinode
    requires k < INODE_PER_BLOCK
  {
    b[INODE_SZ * k..INODE_SZ * k + DINODE_SZ]
  }

  /** The inode in slot k. */
  function ReadInode(b: Block, k: nat): Inode
    requires k < INODE_PER_BLOCK
  {
    UnpackInode(SlotBytes(b, k))
  }

  /** The block after the fields of an inode have been copied into slot k. */
  function PutInode(b: Block, k: nat, ip: Inode): Block
    requires k < INODE_PER_BLOCK && Storable(ip)
  {
    Splice(b, INODE_SZ * k, PackInode(ip, SlotBytes(b, k)))
  }

  lemma HeadBack(ip: Inode, was: Dinode)
    requires Storable(ip)
    ensures var r := UnpackInode(PackInode(ip, was)); r.tp == ip.tp && r.size == ip.size
  {
    var x := PackInode(ip, was);
    assert x[0] == Le32(ip.tp)[0] && x[1] == Le32(ip.tp)[1];
    assert x[SIZE_AT..BID_AT] == Le32(ip.size);
    Le32Inverse(ip.size);
  }

  lemma KeyBack(ip: Inode, was: Dinode)
    requires Storable(ip)
    ensures UnpackInode(PackInode(ip, was)).key == ip.key
  {
    var x := PackInode(ip, was);
    assert x[KEY_AT..IV_AT] == ip.key.key;
    assert x[IV_AT..HASH_AT] == ip.key.iv;
  }

  lemma BidBack(ip: Inode, was: Dinode, i: nat)
    requires Storable(ip) && i < NSLOTS
    ensures UnpackInode(PackInode(ip, was)).bid[i] == ip.bid[i]
  {
    hide Le32, UnLe32, FieldByte, PackInode;
    var x := PackInode(ip, was);
    var y := x[BID_AT + 4 * i..BID_AT + 4 * i + 4];
    forall j | 0 <= j < 4
      ensures y[j] == Le32(ip.bid[i])[j]
    {
      BidByte(ip, was, i, j);
    }
    assert y == Le32(ip.bid[i]);
    Le32Inverse(ip.bid[i]);
  }

  lemma BidByte(ip: Inode, was: Dinode, i: nat, j: nat)
    requires Storable(ip) && i < NSLOTS && j < 4
    ensures PackInode(ip, was)[BID_AT + 4 * i + j] == Le32(ip.bid[i])[j]
  {
    assert (4 * i + j) / 4 == i && (4 * i + j) % 4 == j;
  }

  lemma HashBack(ip: Inode, was: Dinode, i: nat)
    requires Storable(ip) && i < NSLOTS
    ensures UnpackInode(PackInode(ip, was)).hash[i] == ip.hash[i]
  {
    var x := PackInode(ip, was);
    var y := x[HASH_AT + 32 * i..HASH_AT + 32 * i + 32];
    forall j | 0 <= j < 32
      ensures y[j] == ip.hash[i][j]
    {
      assert (32 * i + j) / 32 == i && (32 * i + j) % 32 == j;
    }
    assert y == ip.hash[i];
  }

  lemma UnpackPackInode(ip: Inode, was: Dinode)
    requires Storable(ip)
    ensures UnpackInode(PackInode(ip, was)) == ip
  {
    hide PackInode;
    HeadBack(ip, was);
    KeyBack(ip, was);
    var r := UnpackInode(PackInode(ip, was));
    forall i | 0 <= i < NSLOTS
      ensures r.bid[i] == ip.bid[i] && r.hash[i] == ip.hash[i]
    {
      BidBack(ip, was, i);
      HashBack(ip, was, i);
    }
    assert r.bid == ip.bid && r.hash == ip.hash;
  }

  /** An inode survives being copied into its block, and so do the other inodes of the block. */
  lemma InodeBack(b: Block, k: nat, ip: Inode, j: nat)
    requires k < INODE_PER_BLOCK && j < INODE_PER_BLOCK && Storable(ip)
    ensures ReadInode(PutInode(b, k, ip), j) == if j == k then ip else ReadInode(b, j)
  {
    hide UnpackInode, PackInode;
    UnpackPackInode(ip, SlotBytes(b, k));
    SpliceSlice(b, INODE_SZ * k, PackInode(ip, SlotBytes(b, k)), INODE_SZ * j, INODE_SZ * j + DINODE_SZ);
    if j < k { assert INODE_SZ * j + DINODE_SZ <= INODE_SZ * k; }
    if j > k { assert INODE_SZ * k + DINODE_SZ <= INODE_SZ * j; }
  }

  /** Where the fields of inode k of an inode block are. */
  lemma InodeBytes(b: Block, k: nat)
    requires k < INODE_PER_BLOCK
    ensures var ip, o := ReadInode(b, k), 512 * k;
      ip.tp == b[o] as int + 256 * b[o + 1] as int && ip.size == NumAt(b, o + 4) &&
      |ip.bid| == |ip.hash| == 13 && |ip.key.key| == |ip.key.iv| == 16 &&
      (forall i :: 0 <= i < 13 ==> ip.bid[i] == NumAt(b, o + 8 + 4 * i)) &&
      (forall j :: 0 <= j < 16 ==> ip.key.key[j] == b[o + 60 + j]) &&
      (forall j :: 0 <= j < 16 ==> ip.key.iv[j] == b[o + 76 + j]) &&
      forall i, j :: 0 <= i < 13 && 0 <= j < 32 ==> ip.hash[i][j] == b[o + 92 + 32 * i + j]
  {
    var x, o := SlotBytes(b, k), 512 * k;
    assert forall m :: 0 <= m < DINODE_SZ ==> x[m] == b[o + m];
    UnpackBytes(x);
    hide SlotBytes, UnpackInode;
    forall i | 0 <= i < 13
      ensures NumAt(x, 8 + 4 * i) == NumAt(b, o + 8 + 4 * i)
    {
    }
  }

  lemma UnpackBytes(x: Dinode)
    ensures var ip := UnpackInode(x);
      ip.tp == x[0] as int + 256 * x[1] as int && ip.size == NumAt(x, 4) &&
      |ip.bid| == |ip.hash| == 13 && |ip.key.key| == |ip.key.iv| == 16 &&
      (forall i :: 0 <= i < 13 ==> ip.bid[i] == NumAt(x, 8 + 4 * i)) &&
      (forall j :: 0 <= j < 16 ==> ip.key.key[j] == x[60 + j]) && (forall j :: 0 <= j < 16 ==> ip.key.iv[j] == x[76 + j]) &&
      forall i, j :: 0 <= i < 13 && 0 <= j < 32 ==> ip.hash[i][j] == x[92 + 32 * i + j]
  {
  }

  // The last step of the cascade, on the bytes of the inode block.
  function PutInodeHash(b: Block, k: nat, i: nat, h: Hash): Block
    requires k < INODE_PER_BLOCK && i < NSLOTS
  {
    Splice(b, INODE_SZ * k + HASH_AT + 32 * i, h)
  }

  /** Writing the inode out and changing one hash on disk afterwards gives the same bytes as
      changing the hash first. */
  lemma HashLater(b: Block, k: nat, ip: Inode, i: nat, h: Hash)
    requires k < INODE_PER_BLOCK && i < NSLOTS && Storable(ip)
    ensures PutInodeHash(PutInode(b, k, ip), k, i, h) == PutInode(b, k, ip.(hash := ip.hash[i := h]))
  {
    var jp, was := ip.(hash := ip.hash[i := h]), SlotBytes(b, k);
    var x, y := PutInodeHash(PutInode(b, k, ip), k, i, h), PutInode(b, k, jp);
    forall o | 0 <= o < BLK_SZ
      ensures x[o] == y[o]
    {
      hide Splice, PackInode, FieldByte;
      SpliceAt(PutInode(b, k, ip), INODE_SZ * k + HASH_AT + 32 * i, h, o);
      SpliceAt(b, INODE_SZ * k, PackInode(ip, was), o);
      SpliceAt(b, INODE_SZ * k, PackInode(jp, was), o);
      if INODE_SZ * k <= o < INODE_SZ * k + DINODE_SZ {
        HashByte(ip, i, h, o - INODE_SZ * k, was);
      }
    }
  }

  lemma HashByte(ip: Inode, i: nat, h: Hash, r: nat, was: Dinode)
    requires Storable(ip) && i < NSLOTS && r < DINODE_SZ
    ensures PackInode(ip.(hash := ip.hash[i := h]), was)[r] ==
      if HASH_AT + 32 * i <= r < HASH_AT + 32 * i + 32 then h[r - HASH_AT - 32 * i] else PackInode(ip, was)[r]
  {
    if r >= HASH_AT {
      var q := r - HASH_AT;
      assert q == 32 * (q / 32) + q % 32;
      if q / 32 != i {
        assert q < 32 * i || 32 * i + 32 <= q;
      }
    }
  }
}
