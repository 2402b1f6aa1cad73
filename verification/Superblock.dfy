/** superblock.c: leaving and entering the file system.  On the way out every metadata block gets
    a new key, and its hash is recorded in the superblock, which is itself hashed; on the way in
    all of these hashes are checked. */
module Superblocks {
  import opened Layout
  import opened Blocks
  import opened Crypto

  type Key = k: Bytes | |k| == 16 witness seq(16, _ => 0)

  const EFS_MAGIC := 0x04546530
  const SB_BYTES := BLK_SZ * SUPERBLOCK_CNT
  const KEYS_AT := 10
  const IVS_AT := KEYS_AT + 16 * SB_KEY_CNT
  const HASHES_AT := IVS_AT + 16 * SB_KEY_CNT
  const SB_END := HASHES_AT + 32 * SB_KEY_CNT

  // An iv and a key for every metadata block, as the random generator yields them.
  type Keys = ks: seq<KeyIv> | |ks| == SB_KEY_CNT && forall i :: 0 <= i < SB_KEY_CNT ==> |ks[i].iv| == |ks[i].key| == 16
    witness seq(SB_KEY_CNT, _ => KeyIv(seq(16, _ => 0), seq(16, _ => 0)))

  // superblock_t
  datatype Superblock = Superblock(
    magic: nat,
    maxbid: nat,
    rootinode: nat,
    aesKey: seq<Key>,
    aesIv: seq<Key>,
    hash: seq<Hash>)

  predicate Sized(sb: Superblock) {
    sb.magic < UINT32_SPAN && sb.maxbid < UINT32_SPAN && sb.rootinode < 0x10000 &&
    |sb.aesKey| == |sb.aesIv| == |sb.hash| == SB_KEY_CNT
  }

  // ---------- superblock_t in memory ----------

  function ByteOf(sb: Superblock, i: nat): Byte
    requires Sized(sb)
  {
    if i < 4 then Le32(sb.magic)[i]
    else if i < 8 then Le32(sb.maxbid)[i - 4]
    else if i < KEYS_AT then Le32(sb.rootinode)[i - 8]
    else if i < IVS_AT then sb.aesKey[(i - KEYS_AT) / 16][(i - KEYS_AT) % 16]
    else if i < HASHES_AT then sb.aesIv[(i - IVS_AT) / 16][(i - IVS_AT) % 16]
    else if i < SB_END then sb.hash[(i - HASHES_AT) / 32][(i - HASHES_AT) % 32]
    else 0
  }

  /** The superblock as bytes, padded with zeros to whole blocks. */
  function Pack(sb: Superblock): (b: Bytes)
    requires Sized(sb)
    ensures |b| == SB_BYTES
  {
    seq(SB_BYTES, i requires 0 <= i < SB_BYTES => ByteOf(sb, i))
  }

  /** The superblock that the bytes hold. */
  function Unpack(b: Bytes): (sb: Superblock)
    requires |b| == SB_BYTES
  {
    Superblock(
      UnLe32(b[0..4]), UnLe32(b[4..8]), b[8] as int + 256 * b[9] as int,
      seq(SB_KEY_CNT, i requires 0 <= i < SB_KEY_CNT => seq(16, j requires 0 <= j < 16 => b[KEYS_AT + 16 * i + j])),
      seq(SB_KEY_CNT, i requires 0 <= i < SB_KEY_CNT => seq(16, j requires 0 <= j < 16 => b[IVS_AT + 16 * i + j])),
      seq(SB_KEY_CNT, i requires 0 <= i < SB_KEY_CNT => seq(32, j requires 0 <= j < 32 => b[HASHES_AT + 32 * i + j])))
  }

  lemma Place(i: nat, j: nat, w: nat)
    requires (w == 16 || w == 32) && j < w
    ensures (w * i + j) / w == i && (w * i + j) % w == j
  {
  }

  lemma KeyBack(sb: Superblock, i: nat)
    requires Sized(sb) && i < SB_KEY_CNT
    ensures Unpack(Pack(sb)).aesKey[i] == sb.aesKey[i] && Unpack(Pack(sb)).aesIv[i] == sb.aesIv[i]
  {
    forall j | 0 <= j < 16
      ensures ByteOf(sb, KEYS_AT + 16 * i + j) == sb.aesKey[i][j] && ByteOf(sb, IVS_AT + 16 * i + j) == sb.aesIv[i][j]
    {
      Place(i, j, 16);
    }
  }

  lemma HashBack(sb: Superblock, i: nat)
    requires Sized(sb) && i < SB_KEY_CNT
    ensures Unpack(Pack(sb)).hash[i] == sb.hash[i]
  {
    forall j | 0 <= j < 32
      ensures ByteOf(sb, HASHES_AT + 32 * i + j) == sb.hash[i][j]
    {
      Place(i, j, 32);
    }
  }

  lemma HeaderBack(sb: Superblock)
    requires Sized(sb)
    ensures var t := Unpack(Pack(sb)); t.magic == sb.magic && t.maxbid == sb.maxbid && t.rootinode == sb.rootinode
  {
    var b := Pack(sb);
    assert b[0..4] == Le32(sb.magic) && b[4..8] == Le32(sb.maxbid);
    Le32Inverse(sb.magic);
    Le32Inverse(sb.maxbid);
    assert b[8] == Le32(sb.rootinode)[0] && b[9] == Le32(sb.rootinode)[1];
  }

  /** The superblock survives being laid out in memory; its fields and two bytes of padding fill it,
      and its blocks have room for it. */
  lemma UnpackPack(sb: Superblock)
    requires Sized(sb)
    ensures SB_END + 2 == SUPERBLOCK_SZ <= SB_BYTES
    ensures Unpack(Pack(sb)) == sb
  {
    hide Pack, ByteOf;
    HeaderBack(sb);
    var t := Unpack(Pack(sb));
    forall i | 0 <= i < SB_KEY_CNT
      ensures t.aesKey[i] == sb.aesKey[i] && t.aesIv[i] == sb.aesIv[i] && t.hash[i] == sb.hash[i]
    {
      KeyBack(sb, i);
      HashBack(sb, i);
    }
    assert t.aesKey == sb.aesKey && t.aesIv == sb.aesIv && t.hash == sb.hash;
  }

  /** Where the fields are in the bytes of a superblock. */
  lemma FieldBytes(b: Bytes)
    requires |b| == SB_BYTES
    ensures var sb := Unpack(b);
      sb.magic == NumAt(b, 0) && sb.maxbid == NumAt(b, 4) && sb.rootinode == b[8] as int + 256 * b[9] as int &&
      |sb.aesKey| == |sb.aesIv| == |sb.hash| == SB_KEY_CNT &&
      (forall i, j :: 0 <= i < SB_KEY_CNT && 0 <= j < 16 ==> sb.aesKey[i][j] == b[10 + 16 * i + j]) &&
      (forall i, j :: 0 <= i < SB_KEY_CNT && 0 <= j < 16 ==> sb.aesIv[i][j] == b[10 + 16 * (SB_KEY_CNT + i) + j]) &&
      forall i, j :: 0 <= i < SB_KEY_CNT && 0 <= j < 32 ==> sb.hash[i][j] == b[10 + 32 * SB_KEY_CNT + 32 * i + j]
  {
  }

  /** And where they are put. */
  lemma PackedBytes(sb: Superblock)
    requires Sized(sb)
    ensures var b := Pack(sb);
      NumAt(b, 0) == sb.magic && NumAt(b, 4) == sb.maxbid && b[8] as int + 256 * b[9] as int == sb.rootinode &&
      (forall i, j :: 0 <= i < SB_KEY_CNT && 0 <= j < 16 ==> b[10 + 16 * i + j] == sb.aesKey[i][j]) &&
      (forall i, j :: 0 <= i < SB_KEY_CNT && 0 <= j < 16 ==> b[10 + 16 * (SB_KEY_CNT + i) + j] == sb.aesIv[i][j]) &&
      (forall i, j :: 0 <= i < SB_KEY_CNT && 0 <= j < 32 ==> b[10 + 32 * SB_KEY_CNT + 32 * i + j] == sb.hash[i][j]) &&
      forall k :: 10 + 64 * SB_KEY_CNT <= k < SB_BYTES ==> b[k] == 0
  {
    UnpackPack(sb);
    FieldBytes(Pack(sb));
  }

  // ---------- the metadata blocks ----------

  type Disk = map<nat, Block>

  function Stored(disk: Disk, bid: nat): Block { if bid in disk then disk[bid] else Zeros() }

  function KeyOf(sb: Superblock, bid: nat): KeyIv
    requires Sized(sb) && INODE_BITMAP_START <= bid < DATA_START
  {
    KeySlots(bid);
    KeyIv(sb.aesIv[bid - INODE_BITMAP_START], sb.aesKey[bid - INODE_BITMAP_START])
  }

  function HashOf(sb: Superblock, bid: nat): Hash
    requires Sized(sb) && INODE_BITMAP_START <= bid < DATA_START
  {
    KeySlots(bid);
    sb.hash[bid - INODE_BITMAP_START]
  }

  /** The plaintext of a metadata block. */
  function MetaPlain(cs: Suite, disk: Disk, sb: Superblock, bid: nat): Block
    requires Sized(sb) && INODE_BITMAP_START <= bid < DATA_START
  {
    cs.dec(KeyOf(sb, bid), Stored(disk, bid))
  }

  // The metadata block passes validation.
  predicate Checked(cs: Suite, disk: Disk, sb: Superblock, bid: nat)
    requires Sized(sb) && INODE_BITMAP_START <= bid < DATA_START
  {
    cs.hash(MetaPlain(cs, disk, sb, bid)) == HashOf(sb, bid)
  }

  ghost predicate AllChecked(cs: Suite, disk: Disk, sb: Superblock, upto: nat)
    requires Sized(sb) && upto <= DATA_START
  {
    forall b :: INODE_BITMAP_START <= b < upto ==> Checked(cs, disk, sb, b)
  }

  /** The decrypted superblock blocks, one after the other. */
  function SbBytes(cs: Suite, disk: Disk, k: KeyIv): (b: Bytes)
    ensures |b| == SB_BYTES
  {
    seq(SB_BYTES, i requires 0 <= i < SB_BYTES => cs.dec(k, Stored(disk, i / BLK_SZ))[i % BLK_SZ])
  }

  /** Where the key, the iv and the hash of metadata block bid are: in entry bid - INODE_BITMAP_START of
      the three arrays. */
  lemma KeyBytes(b: Bytes, bid: nat)
    requires |b| == SB_BYTES && INODE_BITMAP_START <= bid < DATA_START
    ensures var sb, i := Unpack(b), bid - INODE_BITMAP_START;
      Sized(sb) && |KeyOf(sb, bid).key| == |KeyOf(sb, bid).iv| == 16 &&
      (forall j :: 0 <= j < 16 ==> KeyOf(sb, bid).key[j] == b[10 + 16 * i + j]) &&
      (forall j :: 0 <= j < 16 ==> KeyOf(sb, bid).iv[j] == b[10 + 16 * (SB_KEY_CNT + i) + j]) &&
      forall j :: 0 <= j < 32 ==> HashOf(sb, bid)[j] == b[10 + 32 * SB_KEY_CNT + 32 * i + j]
  {
    UnpackSized(b);
    KeySlots(bid);
  }

  /** The bytes of the superblock fill its blocks in order. */
  lemma SbBlocks(cs: Suite, disk: Disk, k: KeyIv, i: nat)
    requires i < SUPERBLOCK_CNT
    ensures SbBytes(cs, disk, k)[4096 * i..4096 * i + 4096] == cs.dec(k, Stored(disk, i))
  {
    var b := SbBytes(cs, disk, k)[4096 * i..4096 * i + 4096];
    forall j | 0 <= j < 4096
      ensures b[j] == cs.dec(k, Stored(disk, i))[j]
    {
      assert (4096 * i + j) / BLK_SZ == i && (4096 * i + j) % BLK_SZ == j;
    }
  }

  lemma UnpackSized(b: Bytes)
    requires |b| == SB_BYTES
    ensures Sized(Unpack(b))
  {
  }

  // The same metadata plaintexts, under whatever keys.
  ghost predicate SamePlain(cs: Suite, disk: Disk, sb: Superblock, disk': Disk, sb': Superblock)
    requires Sized(sb) && Sized(sb')
  {
    forall b :: INODE_BITMAP_START <= b < DATA_START ==> MetaPlain(cs, disk', sb', b) == MetaPlain(cs, disk, sb, b)
  }

  function NewKey(ks: Keys, bid: nat): (k: KeyIv)
    requires INODE_BITMAP_START <= bid < DATA_START
    ensures |k.iv| == |k.key| == 16
  {
    KeySlots(bid);
    ks[bid - INODE_BITMAP_START]
  }

  /** The first metadata blocks, up to the given one, have their keys from ks. */
  ghost predicate KeyedUpTo(sb: Superblock, ks: Keys, upto: nat)
    requires Sized(sb) && upto <= DATA_START
  {
    forall b :: INODE_BITMAP_START <= b < upto ==> KeyOf(sb, b) == NewKey(ks, b)
  }

  // ---------- one metadata block gets a new key ----------

  function Rekeyed(sb: Superblock, bid: nat, k: KeyIv, h: Hash): (t: Superblock)
    requires Sized(sb) && INODE_BITMAP_START <= bid < DATA_START && |k.iv| == |k.key| == 16
    ensures Sized(t)
  {
    var i := bid - INODE_BITMAP_START;
    KeySlots(bid);
    sb.(aesIv := sb.aesIv[i := k.iv], aesKey := sb.aesKey[i := k.key], hash := sb.hash[i := h])
  }

  lemma RekeyOne(cs: Suite, disk: Disk, sb: Superblock, bid: nat, k: KeyIv, b: nat)
    requires Sane(cs) && Sized(sb) && INODE_BITMAP_START <= bid < DATA_START && |k.iv| == |k.key| == 16
    requires INODE_BITMAP_START <= b < DATA_START
    ensures var p := MetaPlain(cs, disk, sb, bid);
      var t := Rekeyed(sb, bid, k, cs.hash(p));
      var d := disk[bid := cs.enc(k, p)];
      MetaPlain(cs, d, t, b) == MetaPlain(cs, disk, sb, b) && (b == bid || Checked(cs, disk, sb, b) ==> Checked(cs, d, t, b))
  {
    KeySlots(bid);
    KeySlots(b);
    Decrypted(cs, k, MetaPlain(cs, disk, sb, bid));
  }

  // ---------- what unmounting leaves, and what mounting asks for ----------

  /** The disk after an unmount that returned hash h. */
  ghost predicate LeftBehind(cs: Suite, hashAll: Bytes -> Hash, disk: Disk, sb: Superblock, k: KeyIv, h: Hash) {
    Sized(sb) && sb.magic == EFS_MAGIC && sb.rootinode == 0 && AllChecked(cs, disk, sb, DATA_START) &&
    SbBytes(cs, disk, k) == Pack(sb) && h == hashAll(Pack(sb))
  }

  /** What a mount with expected hash h asks of the disk. */
  ghost predicate Mountable(cs: Suite, hashAll: Bytes -> Hash, disk: Disk, k: KeyIv, h: Hash) {
    UnpackSized(SbBytes(cs, disk, k));
    hashAll(SbBytes(cs, disk, k)) == h && AllChecked(cs, disk, Unpack(SbBytes(cs, disk, k)), DATA_START)
  }

  /** A mount with the hash that the unmount returned succeeds, and finds the same superblock. */
  lemma MountAfterUnmount(cs: Suite, hashAll: Bytes -> Hash, disk: Disk, sb: Superblock, k: KeyIv, h: Hash)
    requires LeftBehind(cs, hashAll, disk, sb, k, h)
    ensures Mountable(cs, hashAll, disk, k, h) && Unpack(SbBytes(cs, disk, k)) == sb
  {
    hide Pack, Unpack, SbBytes, AllChecked;
    UnpackPack(sb);
  }

  // The i-th of the blocks that make up the superblock.
  function Piece(data: Bytes, i: nat): Block
    requires |data| == SB_BYTES && i < SUPERBLOCK_CNT
  {
    data[BLK_SZ * i..BLK_SZ * i + BLK_SZ]
  }

  // The superblock's blocks have been written: they decrypt to the bytes packed.
  lemma WrittenBytes(cs: Suite, disk: Disk, k: KeyIv, data: Bytes)
    requires |data| == SB_BYTES
    requires forall i :: 0 <= i < SUPERBLOCK_CNT ==> cs.dec(k, Stored(disk, i)) == Piece(data, i)
    ensures SbBytes(cs, disk, k) == data
  {
    var b := SbBytes(cs, disk, k);
    forall j | 0 <= j < SB_BYTES
      ensures b[j] == data[j]
    {
      var i := j / BLK_SZ;
      assert 0 <= i < SUPERBLOCK_CNT && j == BLK_SZ * i + j % BLK_SZ;
      assert cs.dec(k, Stored(disk, i)) == Piece(data, i);
    }
  }

  class Volume {
    const cs: Suite
    const hashAll: Bytes -> Hash
    var disk: Disk
    var sb: Superblock

    constructor (cs: Suite, hashAll: Bytes -> Hash, disk: Disk, sb: Superblock)
      ensures this.cs == cs && this.hashAll == hashAll && this.disk == disk && this.sb == sb
    {
      this.cs, this.hashAll, this.disk, this.sb := cs, hashAll, disk, sb;
    }

    // The first loop of sb_exit.
    method RekeyAll(ks: Keys)
      requires Sane(cs) && Sized(sb)
      modifies `disk, `sb
      ensures Sized(sb) && KeyedUpTo(sb, ks, DATA_START)
      ensures Sized(sb) && SamePlain(cs, old(disk), old(sb), disk, sb) && AllChecked(cs, disk, sb, DATA_START)
      ensures sb.magic == old(sb.magic) && sb.maxbid == old(sb.maxbid) && sb.rootinode == old(sb.rootinode)
      ensures forall b: nat :: b < INODE_BITMAP_START || DATA_START <= b ==> Stored(disk, b) == Stored(old(disk), b)
    {
      var bid := INODE_BITMAP_START;
      while bid < DATA_START
        invariant INODE_BITMAP_START <= bid <= DATA_START && Sized(sb) && KeyedUpTo(sb, ks, bid)
        invariant SamePlain(cs, old(disk), old(sb), disk, sb) && AllChecked(cs, disk, sb, bid)
        invariant sb.magic == old(sb.magic) && sb.maxbid == old(sb.maxbid) && sb.rootinode == old(sb.rootinode)
        invariant forall b: nat :: b < INODE_BITMAP_START || DATA_START <= b ==> Stored(disk, b) == Stored(old(disk), b)
      {
        hide KeyOf, HashOf, Rekeyed, MetaPlain, Checked;
        ghost var d, s := disk, sb;
        var data := cs.dec(KeyOf(sb, bid), Stored(disk, bid));
        var k := NewKey(ks, bid);
        sb := Rekeyed(sb, bid, k, cs.hash(data));
        disk := disk[bid := cs.enc(k, data)];
        assert data == MetaPlain(cs, d, s, bid) by { PlainIs(cs, d, s, bid); }
        forall b | INODE_BITMAP_START <= b < DATA_START
          ensures MetaPlain(cs, disk, sb, b) == MetaPlain(cs, d, s, b)
          ensures b == bid || Checked(cs, d, s, b) ==> Checked(cs, disk, sb, b)
        {
          RekeyOne(cs, d, s, bid, k, b);
        }
        RekeyHeader(s, bid, k, cs.hash(data));
        RekeyKeys(s, ks, bid, cs.hash(data));
        bid := bid + 1;
      }
    }

    /** sb_exit: every metadata block keeps its content under its new key from ks, the data blocks
        are not touched, and the hash returned is that of the superblock now on disk. */
    method SbExit(iv: Bytes, key: Bytes, ks: Keys) returns (hash: Hash)
      requires Sane(cs) && Sized(sb)
      modifies `disk, `sb
      ensures Sized(sb) && SamePlain(cs, old(disk), old(sb), disk, sb) && sb.maxbid == old(sb.maxbid)
      ensures LeftBehind(cs, hashAll, disk, sb, KeyIv(iv, key), hash) && KeyedUpTo(sb, ks, DATA_START)
      ensures forall b: nat :: DATA_START <= b ==> Stored(disk, b) == Stored(old(disk), b)
    {
      hide SamePlain, AllChecked, Pack, SbBytes, KeyedUpTo;
      sb := sb.(magic := EFS_MAGIC, rootinode := 0);
      SameKeys(cs, old(disk), old(sb), sb);
      ghost var s1 := sb;
      RekeyAll(ks);
      PlainTrans(cs, old(disk), old(sb), old(disk), s1, disk, sb);
      var data := Pack(sb);
      hash := hashAll(data);
      ghost var d, s2 := disk, sb;
      var k := KeyIv(iv, key);
      var i := 0;
      while i < SUPERBLOCK_CNT
        invariant 0 <= i <= SUPERBLOCK_CNT
        invariant forall j :: 0 <= j < i ==> cs.dec(k, Stored(disk, j)) == Piece(data, j)
        invariant sb == s2 && forall b: nat :: SUPERBLOCK_CNT <= b ==> Stored(disk, b) == Stored(d, b)
      {
        Decrypted(cs, k, Piece(data, i));
        disk := disk[i := cs.enc(k, Piece(data, i))];
        i := i + 1;
      }
      WrittenBytes(cs, disk, k, data);
      SameMeta(cs, d, disk, sb);
      PlainTrans(cs, old(disk), old(sb), d, sb, disk, sb);
    }

    /** sb_init succeeds exactly if the superblock has the expected hash and every metadata block
        has the hash that the superblock gives it. */
    method SbInit(iv: Bytes, key: Bytes, exp: Hash) returns (ok: bool)
      modifies `sb
      ensures ok <==> Mountable(cs, hashAll, disk, KeyIv(iv, key), exp)
      ensures ok ==> sb == Unpack(SbBytes(cs, disk, KeyIv(iv, key)))
    {
      hide Unpack;
      var k := KeyIv(iv, key);
      var data := ReadSuperblock(k);
      UnpackSized(data);
      if hashAll(data) != exp {
        return false;
      }
      sb := Unpack(data);
      var bid := INODE_BITMAP_START;
      while bid < DATA_START
        invariant INODE_BITMAP_START <= bid <= DATA_START && AllChecked(cs, disk, sb, bid)
      {
        var plain := cs.dec(KeyOf(sb, bid), Stored(disk, bid));
        if cs.hash(plain) != HashOf(sb, bid) {
          assert !Checked(cs, disk, sb, bid);
          return false;
        }
        bid := bid + 1;
      }
      ok := true;
    }

    // The first loop of sb_init.
    method ReadSuperblock(k: KeyIv) returns (data: Bytes)
      ensures data == SbBytes(cs, disk, k)
    {
      data := [];
      var i := 0;
      while i < SUPERBLOCK_CNT
        invariant 0 <= i <= SUPERBLOCK_CNT && |data| == BLK_SZ * i
        invariant forall j :: 0 <= j < BLK_SZ * i ==> data[j] == cs.dec(k, Stored(disk, j / BLK_SZ))[j % BLK_SZ]
      {
        data := data + cs.dec(k, Stored(disk, i));
        i := i + 1;
      }
    }
  }

  lemma PlainIs(cs: Suite, disk: Disk, sb: Superblock, bid: nat)
    requires Sized(sb) && INODE_BITMAP_START <= bid < DATA_START
    ensures MetaPlain(cs, disk, sb, bid) == cs.dec(KeyOf(sb, bid), Stored(disk, bid))
  {
  }

  lemma RekeyHeader(sb: Superblock, bid: nat, k: KeyIv, h: Hash)
    requires Sized(sb) && INODE_BITMAP_START <= bid < DATA_START && |k.iv| == |k.key| == 16
    ensures var t := Rekeyed(sb, bid, k, h); t.magic == sb.magic && t.maxbid == sb.maxbid && t.rootinode == sb.rootinode
  {
  }

  lemma RekeyKeys(sb: Superblock, ks: Keys, bid: nat, h: Hash)
    requires Sized(sb) && INODE_BITMAP_START <= bid < DATA_START && KeyedUpTo(sb, ks, bid)
    ensures KeyedUpTo(Rekeyed(sb, bid, NewKey(ks, bid), h), ks, bid + 1)
  {
    hide NewKey;
    KeySlots(bid);
    forall b | INODE_BITMAP_START <= b < bid + 1
      ensures KeyOf(Rekeyed(sb, bid, NewKey(ks, bid), h), b) == NewKey(ks, b)
    {
      KeySlots(b);
      if b < bid { assert KeyOf(sb, b) == NewKey(ks, b); }
    }
  }

  lemma SameKeys(cs: Suite, disk: Disk, sb: Superblock, sb': Superblock)
    requires Sized(sb) && Sized(sb') && sb'.aesKey == sb.aesKey && sb'.aesIv == sb.aesIv
    ensures SamePlain(cs, disk, sb, disk, sb')
  {
  }

  lemma SameMeta(cs: Suite, d: Disk, d': Disk, sb: Superblock)
    requires Sized(sb) && forall b: nat :: SUPERBLOCK_CNT <= b ==> Stored(d', b) == Stored(d, b)
    ensures SamePlain(cs, d, sb, d', sb) && (AllChecked(cs, d, sb, DATA_START) ==> AllChecked(cs, d', sb, DATA_START))
  {
    hide KeyOf, HashOf;
    forall b | INODE_BITMAP_START <= b < DATA_START && Checked(cs, d, sb, b)
      ensures Checked(cs, d', sb, b)
    {
      assert MetaPlain(cs, d', sb, b) == MetaPlain(cs, d, sb, b);
    }
  }

  lemma PlainTrans(cs: Suite, d1: Disk, s1: Superblock, d2: Disk, s2: Superblock, d3: Disk, s3: Superblock)
    requires Sized(s1) && Sized(s2) && Sized(s3) && SamePlain(cs, d1, s1, d2, s2) && SamePlain(cs, d2, s2, d3, s3)
    ensures SamePlain(cs, d1, s1, d3, s3)
  {
  }
}
