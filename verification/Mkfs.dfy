/** mkfs.c: a new file system as bytes on a disk, and what the first mount finds of it. */
module Formats {
  import opened Layout
  import opened Blocks
  import opened Crypto
  import opened Merkle
  import opened FileBytes
  import opened Bits
  import opened Bitmaps
  import opened BitmapImages
  import opened EnclaveStore
  import opened Sessions
  import opened Dinodes
  import opened Remounts
  import SB = Superblocks

  const INODE_TP_DIR := 0

  // The first block of the inode bitmap: number 0 is taken.
  function RootTaken(): Block { Zeros()[7 := 0x80] }

  // The first inode block: inode 0 has type and size 0, an iv and a key.
  function RootBlock(k: KeyIv): Block
    requires |k.iv| == |k.key| == 16
  {
    Splice(Splice(Zeros(), 76, k.iv), 60, k.key)
  }

  // What is encrypted into metadata block bid.
  function NewBlock(k: KeyIv, bid: nat): Block
    requires |k.iv| == |k.key| == 16
  {
    if bid == INODE_BITMAP_START then RootTaken() else if bid == INODE_START then RootBlock(k) else Zeros()
  }

  /** The root directory of a new file system. */
  function Root(k: KeyIv): Inode {
    Inode(INODE_TP_DIR, 0, seq(NSLOTS, _ => 0), seq(NSLOTS, _ => seq(32, _ => 0)), k)
  }

  /** The store of a new file system: the root directory, and no block in use. */
  ghost function New(cs: Suite, k: KeyIv): State {
    State(cs, map[], map[], map[], map[0 := Root(k)], {})
  }

  // ---------- what the blocks say ----------

  lemma RootNumber(k: nat)
    requires k < BITS_PER_BLOCK
    ensures Taken(WordsOf(RootTaken()), k) <==> k == 0
    ensures !Taken(WordsOf(Zeros()), k)
  {
    hide Taken, WordsOf, Pow2;
    TakenByte(RootTaken(), k);
    TakenByte(Zeros(), k);
    Powers(7 - k % 8);
    assert 8 * (k / 64) + 7 - k % 64 / 8 == 7 <==> k < 8;
  }

  lemma RootRead(k: KeyIv)
    requires |k.iv| == |k.key| == 16
    ensures ReadInode(RootBlock(k), 0) == Root(k)
  {
    hide ReadInode, RootBlock;
    var b, ip, r := RootBlock(k), ReadInode(RootBlock(k), 0), Root(k);
    RootBytes(k);
    InodeBytes(b, 0);
    assert ip.key.key == k.key && ip.key.iv == k.iv;
    forall i | 0 <= i < 13
      ensures ip.bid[i] == 0 && ip.hash[i] == r.hash[i]
    {
      assert ip.bid[i] == NumAt(b, 8 + 4 * i);
    }
    assert ip.bid == r.bid && ip.hash == r.hash;
  }

  lemma RootBytes(k: KeyIv)
    requires |k.iv| == |k.key| == 16
    ensures forall o :: 0 <= o < BLK_SZ ==>
      RootBlock(k)[o] == if 60 <= o < 76 then k.key[o - 60] else if 76 <= o < 92 then k.iv[o - 76] else 0
  {
    forall o | 0 <= o < BLK_SZ
      ensures RootBlock(k)[o] == if 60 <= o < 76 then k.key[o - 60] else if 76 <= o < 92 then k.iv[o - 76] else 0
    {
      SpliceAt(Zeros(), 76, k.iv, o);
      SpliceAt(Splice(Zeros(), 76, k.iv), 60, k.key, o);
    }
  }

  // The metadata blocks are those of a new file system.
  ghost predicate Formatted(cs: Suite, disk: Disk, sb: SB.Superblock, k: KeyIv)
    requires SB.Sized(sb) && |k.iv| == |k.key| == 16
  {
    forall b :: INODE_BITMAP_START <= b < DATA_START ==> SB.MetaPlain(cs, disk, sb, b) == NewBlock(k, b)
  }

  lemma FormattedBits(cs: Suite, disk: Disk, sb: SB.Superblock, k: KeyIv)
    requires SB.Sized(sb) && |k.iv| == |k.key| == 16 && Formatted(cs, disk, sb, k)
    ensures BitmapOn(cs, disk, sb, INODE_BITMAP_START, INODE_BITMAP_CNT, {0})
    ensures BitmapOn(cs, disk, sb, BITMAP_START, BITMAP_CNT, {})
  {
    hide Taken, WordsOf, SB.MetaPlain, RootTaken, RootBlock, Zeros;
    forall j: nat | j < BITS_PER_BLOCK * INODE_BITMAP_CNT
      ensures BitOn(cs, disk, sb, INODE_BITMAP_START, j) <==> j in {0}
    {
      RootNumber(j % BITS_PER_BLOCK);
    }
    forall j: nat | j < BITS_PER_BLOCK * BITMAP_CNT
      ensures BitOn(cs, disk, sb, BITMAP_START, j) <==> j in {}
    {
      RootNumber(j % BITS_PER_BLOCK);
    }
  }

  lemma FormattedTable(cs: Suite, disk: Disk, sb: SB.Superblock, k: KeyIv)
    requires SB.Sized(sb) && |k.iv| == |k.key| == 16 && Formatted(cs, disk, sb, k)
    ensures TableOn(cs, disk, sb, New(cs, k).ino, {0})
  {
    hide SB.MetaPlain, RootBlock, ReadInode;
    RootRead(k);
    InodeZone(0);
  }

  /** The new store lies on the disk. */
  lemma FormattedVolume(cs: Suite, disk: Disk, sb: SB.Superblock, k: KeyIv)
    requires SB.Sized(sb) && |k.iv| == |k.key| == 16 && Formatted(cs, disk, sb, k) && forall b :: b in disk ==> b < DATA_START
    ensures OnVolume(New(cs, k), disk, sb)
  {
    hide BitmapOn, TableOn, Formatted;
    FormattedBits(cs, disk, sb, k);
    FormattedTable(cs, disk, sb, k);
    assert New(cs, k).ino.Keys == {0} && Dids({}) == {};
  }

  lemma NewStore(cs: Suite, k: KeyIv)
    requires Sane(cs) && |k.iv| == |k.key| == 16
    ensures var s := New(cs, k);
      Files(s, map[]) && Whole(s, map[]) && FilesOf(s, map[]) == map[0 := File(INODE_TP_DIR, k, [])] && HeadsFit(s.ino)
  {
  }

  // ---------- making it ----------

  function ZoneBlock(start: nat, first: Block, bid: nat): Block { if bid == start then first else Zeros() }

  // Metadata block bid is on the disk, with plaintext x, and its hash is noted.
  ghost predicate BlockDone(cs: Suite, d: Disk, hs: seq<Hash>, ks: SB.Keys, bid: nat, x: Block)
    requires INODE_BITMAP_START <= bid < DATA_START
  {
    var i := bid - INODE_BITMAP_START;
    bid in d && i < |hs| && d[bid] == cs.enc(SB.NewKey(ks, bid), x) && hs[i] == cs.hash(x)
  }

  // All blocks of a zone are, a first one and zeros behind it.
  ghost predicate ZoneDone(cs: Suite, d: Disk, hs: seq<Hash>, ks: SB.Keys, start: nat, end: nat, first: Block)
    requires INODE_BITMAP_START <= start && end <= DATA_START
  {
    forall b :: start <= b < end ==> BlockDone(cs, d, hs, ks, b, ZoneBlock(start, first, b))
  }

  // Only blocks from start to end are added or changed.
  ghost predicate Beyond(d: Disk, d': Disk, start: nat, end: nat) {
    (forall b :: b in d && !(start <= b < end) ==> b in d' && d'[b] == d[b]) &&
    forall b :: b in d' ==> b in d || start <= b < end
  }

  lemma ZoneStays(cs: Suite, d: Disk, hs: seq<Hash>, d': Disk, hs': seq<Hash>, ks: SB.Keys,
                  start: nat, end: nat, first: Block, from: nat, to: nat)
    requires INODE_BITMAP_START <= start && end <= from && end <= DATA_START
    requires ZoneDone(cs, d, hs, ks, start, end, first) && Beyond(d, d', from, to) && hs <= hs'
    ensures ZoneDone(cs, d', hs', ks, start, end, first)
  {
    hide SB.NewKey, ZoneBlock;
    forall b | start <= b < end
      ensures BlockDone(cs, d', hs', ks, b, ZoneBlock(start, first, b))
    {
      assert BlockDone(cs, d, hs, ks, b, ZoneBlock(start, first, b));
    }
  }

  method FormatZone(cs: Suite, d: Disk, hs: seq<Hash>, ks: SB.Keys, start: nat, end: nat, first: Block)
    returns (d': Disk, hs': seq<Hash>)
    requires INODE_BITMAP_START <= start < end <= DATA_START && |hs| == start - INODE_BITMAP_START
    ensures |hs'| == end - INODE_BITMAP_START && hs <= hs' && Beyond(d, d', start, end)
    ensures ZoneDone(cs, d', hs', ks, start, end, first)
  {
    hide SB.NewKey;
    d', hs' := d, hs;
    var i := start;
    while i < end
      invariant start <= i <= end && |hs'| == i - INODE_BITMAP_START && hs <= hs' && Beyond(d, d', start, i)
      invariant ZoneDone(cs, d', hs', ks, start, i, first)
    {
      var data := ZoneBlock(start, first, i);
      ghost var d1, hs1 := d', hs';
      hs' := hs' + [cs.hash(data)];
      d' := d'[i := cs.enc(SB.NewKey(ks, i), data)];
      ZoneStays(cs, d1, hs1, d', hs', ks, start, i, first, i, i + 1);
      i := i + 1;
    }
  }

  lemma ZoneOf(cs: Suite, d: Disk, hs: seq<Hash>, ks: SB.Keys, k: KeyIv, b: nat)
    requires |k.iv| == |k.key| == 16 && INODE_BITMAP_START <= b < DATA_START
    requires ZoneDone(cs, d, hs, ks, INODE_BITMAP_START, INODE_START, RootTaken())
    requires ZoneDone(cs, d, hs, ks, INODE_START, BITMAP_START, RootBlock(k))
    requires ZoneDone(cs, d, hs, ks, BITMAP_START, DATA_START, Zeros())
    ensures BlockDone(cs, d, hs, ks, b, NewBlock(k, b))
  {
    hide RootTaken, RootBlock, Zeros, BlockDone;
    if b < INODE_START {
      assert ZoneBlock(INODE_BITMAP_START, RootTaken(), b) == NewBlock(k, b);
    } else if b < BITMAP_START {
      assert ZoneBlock(INODE_START, RootBlock(k), b) == NewBlock(k, b);
    } else {
      assert ZoneBlock(BITMAP_START, Zeros(), b) == NewBlock(k, b);
    }
  }

  // The three zones together.
  lemma ZonesDone(cs: Suite, d: Disk, hs: seq<Hash>, ks: SB.Keys, k: KeyIv)
    requires Sane(cs) && |k.iv| == |k.key| == 16 && |hs| == SB_KEY_CNT
    requires ZoneDone(cs, d, hs, ks, INODE_BITMAP_START, INODE_START, RootTaken())
    requires ZoneDone(cs, d, hs, ks, INODE_START, BITMAP_START, RootBlock(k))
    requires ZoneDone(cs, d, hs, ks, BITMAP_START, DATA_START, Zeros())
    ensures var sb := Filled(ks, hs);
      Formatted(cs, d, sb, k) && SB.AllChecked(cs, d, sb, DATA_START) && SB.KeyedUpTo(sb, ks, DATA_START)
  {
    hide RootTaken, RootBlock, Zeros, SB.NewKey, NewBlock, BlockDone, ZoneDone;
    forall b | INODE_BITMAP_START <= b < DATA_START
      ensures BlockDone(cs, d, hs, ks, b, NewBlock(k, b))
    {
      ZoneOf(cs, d, hs, ks, k, b);
    }
    BlocksFormatted(cs, d, hs, ks, k);
  }

  /** main: the disk it writes is what an unmount leaves of a store with nothing but the root
      directory, and the hash is the one to mount it with. */
  method Mkfs(cs: Suite, hashAll: Bytes -> Hash, iv: Bytes, key: Bytes, ks: SB.Keys, k: KeyIv)
    returns (disk: Disk, hash: Hash, ghost sb: SB.Superblock)
    requires Sane(cs) && |k.iv| == |k.key| == 16
    ensures SB.LeftBehind(cs, hashAll, disk, sb, KeyIv(iv, key), hash) && SB.KeyedUpTo(sb, ks, DATA_START)
    ensures sb.maxbid == DATA_START - 1 && OnVolume(New(cs, k), disk, sb)
  {
    hide ZoneDone, SB.Pack, SB.SbBytes, SB.KeyedUpTo, SB.AllChecked, Formatted, OnVolume, RootTaken, RootBlock,
      Zeros, SB.SamePlain;
    var d, hs := map[], [];
    d, hs := FormatZone(cs, d, hs, ks, INODE_BITMAP_START, INODE_START, RootTaken());
    ghost var d1, hs1 := d, hs;
    d, hs := FormatZone(cs, d, hs, ks, INODE_START, BITMAP_START, RootBlock(k));
    ghost var d2, hs2 := d, hs;
    ZoneStays(cs, d1, hs1, d2, hs2, ks, INODE_BITMAP_START, INODE_START, RootTaken(), INODE_START, BITMAP_START);
    d, hs := FormatZone(cs, d, hs, ks, BITMAP_START, DATA_START, Zeros());
    ZoneStays(cs, d2, hs2, d, hs, ks, INODE_BITMAP_START, INODE_START, RootTaken(), BITMAP_START, DATA_START);
    ZoneStays(cs, d2, hs2, d, hs, ks, INODE_START, BITMAP_START, RootBlock(k), BITMAP_START, DATA_START);
    ZonesDone(cs, d, hs, ks, k);
    var s := Filled(ks, hs);
    sb := s;
    var data := SB.Pack(s);
    hash := hashAll(data);
    disk := WriteSuperblock(cs, d, KeyIv(iv, key), data);
    SB.SameMeta(cs, d, disk, sb);
    FormattedStill(cs, d, disk, sb, k);
    FormattedVolume(cs, disk, sb, k);
  }

  // The superblock, before it is encrypted.
  function Filled(ks: SB.Keys, hs: seq<Hash>): (sb: SB.Superblock)
    requires |hs| == SB_KEY_CNT
    ensures SB.Sized(sb)
  {
    SB.Superblock(SB.EFS_MAGIC, DATA_START - 1, 0, seq(SB_KEY_CNT, i requires 0 <= i < SB_KEY_CNT => ks[i].key),
      seq(SB_KEY_CNT, i requires 0 <= i < SB_KEY_CNT => ks[i].iv), hs)
  }

  // The blocks of all three zones have been written, and their hashes noted.
  lemma BlocksFormatted(cs: Suite, d: Disk, hs: seq<Hash>, ks: SB.Keys, k: KeyIv)
    requires Sane(cs) && |k.iv| == |k.key| == 16 && |hs| == SB_KEY_CNT
    requires forall b :: INODE_BITMAP_START <= b < DATA_START ==> BlockDone(cs, d, hs, ks, b, NewBlock(k, b))
    ensures var sb := Filled(ks, hs);
      Formatted(cs, d, sb, k) && SB.AllChecked(cs, d, sb, DATA_START) && SB.KeyedUpTo(sb, ks, DATA_START)
  {
    hide NewBlock;
    var sb := Filled(ks, hs);
    forall b | INODE_BITMAP_START <= b < DATA_START
      ensures SB.KeyOf(sb, b) == SB.NewKey(ks, b) && SB.MetaPlain(cs, d, sb, b) == NewBlock(k, b) &&
        SB.Checked(cs, d, sb, b)
    {
      KeySlots(b);
      assert BlockDone(cs, d, hs, ks, b, NewBlock(k, b));
      Decrypted(cs, SB.NewKey(ks, b), NewBlock(k, b));
    }
  }

  // The blocks of the superblock are encrypted and written in front.
  method WriteSuperblock(cs: Suite, d: Disk, k: KeyIv, data: Bytes) returns (disk: Disk)
    requires Sane(cs) && |data| == SB.SB_BYTES
    ensures SB.SbBytes(cs, disk, k) == data && Beyond(d, disk, 0, SUPERBLOCK_CNT)
    ensures forall b: nat :: SUPERBLOCK_CNT <= b ==> SB.Stored(disk, b) == SB.Stored(d, b)
  {
    hide SB.Piece, SB.SbBytes;
    disk := d;
    var i := 0;
    while i < SUPERBLOCK_CNT
      invariant 0 <= i <= SUPERBLOCK_CNT && Beyond(d, disk, 0, i)
      invariant forall j :: 0 <= j < i ==> cs.dec(k, SB.Stored(disk, j)) == SB.Piece(data, j)
      invariant forall b: nat :: SUPERBLOCK_CNT <= b ==> SB.Stored(disk, b) == SB.Stored(d, b)
    {
      Decrypted(cs, k, SB.Piece(data, i));
      disk := disk[i := cs.enc(k, SB.Piece(data, i))];
      i := i + 1;
    }
    SB.WrittenBytes(cs, disk, k, data);
  }

  lemma FormattedStill(cs: Suite, d: Disk, d': Disk, sb: SB.Superblock, k: KeyIv)
    requires SB.Sized(sb) && |k.iv| == |k.key| == 16 && Formatted(cs, d, sb, k) && SB.SamePlain(cs, d, sb, d', sb)
    ensures Formatted(cs, d', sb, k)
  {
    hide SB.MetaPlain, NewBlock;
  }

  // ---------- the first mount ----------

  /** A new file system can be mounted: the mount finds the root directory, empty, and no block in
      use. */
  method FirstMount(cs: Suite, hashAll: Bytes -> Hash, iv: Bytes, key: Bytes, ks: SB.Keys, k: KeyIv, sb: SB.Superblock)
    returns (v: SB.Volume, m: Enclave)
    requires Sane(cs) && |k.iv| == |k.key| == 16
    ensures fresh(v) && v.cs == cs && v.hashAll == hashAll && SB.Sized(v.sb) && v.sb.maxbid == DATA_START - 1
    ensures fresh(m) && m.cs == cs && m.fr == {} && m.A == map[] && m.used == {}
    ensures Files(m.St(), m.A) && Whole(m.St(), m.A) && FilesOf(m.St(), m.A) == map[0 := File(INODE_TP_DIR, k, [])]
    ensures m.bcac == map[] && m.pdWb == map[] && HeadsFit(m.inodes)
  {
    hide SB.LeftBehind, OnVolume, Files, Whole, FilesOf, SB.Mountable, SB.Unpack, SB.SbBytes, SB.KeyedUpTo;
    ghost var s, t := New(cs, k), sb;
    var disk, hash;
    disk, hash, t := Mkfs(cs, hashAll, iv, key, ks, k);
    v := new SB.Volume(cs, hashAll, disk, sb);
    NewStore(cs, k);
    SB.MountAfterUnmount(cs, hashAll, disk, t, KeyIv(iv, key), hash);
    var r := Mount(v, iv, key, hash, s, map[]);
    m := r.value;
    ZoneSame(s, m.St());
  }
}
