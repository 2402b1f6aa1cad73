/** Unmounting and mounting again, down to the bytes on the disk. */
module Remounts {
  import opened Layout
  import opened Blocks
  import opened Crypto
  import opened Merkle
  import opened Routes
  import opened Relations
  import opened FileBytes
  import opened Mending
  import opened Flush
  import opened Cascading
  import opened Rooms
  import opened Bits
  import opened Bitmaps
  import opened BitmapImages
  import opened Misroutes
  import opened EnclaveStore
  import opened Sessions
  import opened Dinodes
  import opened Wrappers
  import SB = Superblocks

  type Disk = map<nat, Block>

  // All inodes fit into the inode blocks.
  ghost predicate TableFits(ino: map<nat, Inode>) {
    forall i :: i in ino ==> i < MAXINODES && Storable(ino[i])
  }

  lemma InodeZone(i: nat)
    requires i < MAXINODES
    ensures INODE_START <= Iid2Bid(i) < BITMAP_START && INODE_BITMAP_START <= Iid2Bid(i) < DATA_START
  {
  }

  // Inode i as it can be read from the disk.
  function InodeOn(cs: Suite, disk: Disk, sb: SB.Superblock, i: nat): Inode
    requires SB.Sized(sb) && i < MAXINODES
  {
    InodeZone(i);
    ReadInode(SB.MetaPlain(cs, disk, sb, Iid2Bid(i)), i % INODE_PER_BLOCK)
  }

  ghost predicate TableOn(cs: Suite, disk: Disk, sb: SB.Superblock, ino: map<nat, Inode>, ids: set<nat>)
    requires SB.Sized(sb)
  {
    forall i :: i in ids && i in ino ==> i < MAXINODES && InodeOn(cs, disk, sb, i) == ino[i]
  }

  // The data zone of a disk.
  function DataZone(disk: Disk): Disk {
    map b | b in disk && b >= DATA_START :: disk[b]
  }

  // The disk with the data zone of another one.
  function WithData(disk: Disk, data: Disk): Disk {
    (map b | b in disk && b < DATA_START :: disk[b]) + DataZone(data)
  }

  // The inode block after one inode has been written out.
  function InodeOut(cs: Suite, disk: Disk, sb: SB.Superblock, i: nat, ip: Inode): Disk
    requires SB.Sized(sb) && i < MAXINODES && Storable(ip)
  {
    InodeZone(i);
    var bid := Iid2Bid(i);
    var k := SB.KeyOf(sb, bid);
    disk[bid := cs.enc(k, PutInode(cs.dec(k, SB.Stored(disk, bid)), i % INODE_PER_BLOCK, ip))]
  }

  lemma InodeOutOn(cs: Suite, disk: Disk, sb: SB.Superblock, i: nat, ip: Inode, j: nat)
    requires Sane(cs) && SB.Sized(sb) && i < MAXINODES && j < MAXINODES && Storable(ip)
    ensures InodeOn(cs, InodeOut(cs, disk, sb, i, ip), sb, j) == if j == i then ip else InodeOn(cs, disk, sb, j)
  {
    hide ReadInode, PutInode, SB.KeyOf;
    InodeZone(i);
    InodeZone(j);
    var bid := Iid2Bid(i);
    var k := SB.KeyOf(sb, bid);
    var b := cs.dec(k, SB.Stored(disk, bid));
    Decrypted(cs, k, PutInode(b, i % INODE_PER_BLOCK, ip));
    if Iid2Bid(j) == bid {
      InodeBack(b, i % INODE_PER_BLOCK, ip, j % INODE_PER_BLOCK);
    }
  }

  lemma InodeOutZone(cs: Suite, disk: Disk, sb: SB.Superblock, i: nat, ip: Inode)
    requires SB.Sized(sb) && i < MAXINODES && Storable(ip)
    ensures forall b: nat :: b < INODE_START || BITMAP_START <= b ==> SB.Stored(InodeOut(cs, disk, sb, i, ip), b) == SB.Stored(disk, b)
  {
    InodeZone(i);
  }

  // ---------- the bitmaps on the disk ----------

  // Bit k of the bitmap that begins at block start.
  function BitOn(cs: Suite, disk: Disk, sb: SB.Superblock, start: nat, k: nat): bool
    requires SB.Sized(sb) && INODE_BITMAP_START <= start && start + k / BITS_PER_BLOCK < DATA_START
  {
    Taken(WordsOf(SB.MetaPlain(cs, disk, sb, start + k / BITS_PER_BLOCK)), k % BITS_PER_BLOCK)
  }

  /** Where bit k of a bitmap is on the disk. */
  lemma BitBytes(cs: Suite, disk: Disk, sb: SB.Superblock, start: nat, k: nat)
    requires SB.Sized(sb) && INODE_BITMAP_START <= start && start + k / 32768 < DATA_START
    ensures var b, j := SB.MetaPlain(cs, disk, sb, start + k / 32768), k % 32768;
      BitOn(cs, disk, sb, start, k) <==> b[8 * (j / 64) + 7 - j % 64 / 8] / Pow2(7 - j % 8) % 2 == 1
  {
    hide Taken, WordsOf, SB.MetaPlain, Pow2;
    TakenByte(SB.MetaPlain(cs, disk, sb, start + k / 32768), k % 32768);
  }

  /** Where inode i is on the disk: its block, and its place there. */
  lemma InodeOnBytes(cs: Suite, disk: Disk, sb: SB.Superblock, i: nat)
    requires SB.Sized(sb) && i < MAXINODES
    ensures INODE_BITMAP_START <= INODE_START + i / 8 < DATA_START
    ensures InodeOn(cs, disk, sb, i) == ReadInode(SB.MetaPlain(cs, disk, sb, INODE_START + i / 8), i % 8)
  {
    InodeZone(i);
  }

  // The bitmap of n blocks from start on takes exactly the numbers of u.
  ghost predicate BitmapOn(cs: Suite, disk: Disk, sb: SB.Superblock, start: nat, n: nat, u: set<nat>)
    requires SB.Sized(sb) && INODE_BITMAP_START <= start && start + n <= DATA_START
  {
    forall k: nat :: k < BITS_PER_BLOCK * n ==> (BitOn(cs, disk, sb, start, k) <==> k in u)
  }

  // The numbers that the data bitmap has for the blocks in use.
  function Dids(used: set<nat>): set<nat> {
    set b | b in used && b >= DATA_START :: b - DATA_START
  }

  // A block of the bitmap has been written.
  lemma ImageOn(cs: Suite, disk: Disk, sb: SB.Superblock, start: nat, b: nat, u: set<nat>, k: nat)
    requires Sane(cs) && SB.Sized(sb) && INODE_BITMAP_START <= start && start + b < DATA_START &&
      k / BITS_PER_BLOCK == b
    requires SB.Stored(disk, start + b) == cs.enc(SB.KeyOf(sb, start + b), BlockOf(Image(u, BITS_PER_BLOCK * b)))
    ensures BitOn(cs, disk, sb, start, k) <==> k in u
  {
    hide BlockOf, WordsOf, Image, Taken, SB.KeyOf, SB.Stored;
    Decrypted(cs, SB.KeyOf(sb, start + b), BlockOf(Image(u, BITS_PER_BLOCK * b)));
    WordsBack(Image(u, BITS_PER_BLOCK * b));
    ImageTaken(u, BITS_PER_BLOCK * b, k % BITS_PER_BLOCK);
  }

  // Other blocks do not matter to a bitmap, or to the inodes.
  lemma BitmapBeside(cs: Suite, disk: Disk, disk': Disk, sb: SB.Superblock, start: nat, n: nat, u: set<nat>)
    requires SB.Sized(sb) && INODE_BITMAP_START <= start && start + n <= DATA_START &&
      BitmapOn(cs, disk, sb, start, n, u)
    requires forall b: nat :: start <= b < start + n ==> SB.Stored(disk', b) == SB.Stored(disk, b)
    ensures BitmapOn(cs, disk', sb, start, n, u)
  {
    hide Taken, WordsOf, SB.KeyOf, SB.Stored;
    forall k: nat | k < BITS_PER_BLOCK * n
      ensures BitOn(cs, disk', sb, start, k) <==> k in u
    {
      assert BitOn(cs, disk, sb, start, k) <==> k in u;
      assert SB.Stored(disk', start + k / BITS_PER_BLOCK) == SB.Stored(disk, start + k / BITS_PER_BLOCK);
    }
  }

  lemma TableBeside(cs: Suite, disk: Disk, disk': Disk, sb: SB.Superblock, ino: map<nat, Inode>, ids: set<nat>)
    requires SB.Sized(sb) && TableOn(cs, disk, sb, ino, ids)
    requires forall b: nat :: INODE_START <= b < BITMAP_START ==> SB.Stored(disk', b) == SB.Stored(disk, b)
    ensures TableOn(cs, disk', sb, ino, ids)
  {
    hide ReadInode, SB.KeyOf, SB.Stored;
    forall i | i in ids && i in ino
      ensures i < MAXINODES && InodeOn(cs, disk', sb, i) == ino[i]
    {
      assert InodeOn(cs, disk, sb, i) == ino[i];
      InodeZone(i);
      assert SB.Stored(disk', Iid2Bid(i)) == SB.Stored(disk, Iid2Bid(i));
    }
  }

  // ---------- the store on another disk ----------

  // The same data blocks.
  ghost predicate SameZone(s: State, t: State) {
    t.cs == s.cs && t.ino == s.ino && t.used == s.used && s.bcac == t.bcac == map[] && s.pd == t.pd == map[] &&
    forall b :: b >= DATA_START ==> OnDisk(t, b) == OnDisk(s, b)
  }

  lemma ZoneView(s: State, t: State, A: Tree, a: Addr)
    requires SameZone(s, t) && a in A && a.iid in s.ino && A[a] >= DATA_START
    ensures View(t, A, {}, a) == View(s, A, {}, a) && Plain(t, a.iid, A[a]) == Plain(s, a.iid, A[a])
  {
  }

  ghost predicate Placed(A: Tree) {
    forall a :: a in A ==> A[a] >= DATA_START
  }

  lemma ZoneSettled(s: State, t: State, A: Tree, a: Addr)
    requires SameZone(s, t) && Placed(A) && a in A
    ensures Settled(t, A, a) <==> Settled(s, A, a)
  {
    if Addressed(s, A, a) {
      ZoneView(s, t, A, a);
      if !IsRoot(a) { ZoneView(s, t, A, Parent(a)); }
    }
  }

  lemma ZoneGood(s: State, t: State, A: Tree, a: Addr)
    requires SameZone(s, t) && Inv(s, A, {}) && a in A
    ensures Good(t, A, {}, a) && a.iid in s.ino && View(t, A, {}, a) == View(s, A, {}, a)
  {
    assert Good(s, A, {}, a);
    ZoneView(s, t, A, a);
    if !IsRoot(a) {
      assert Good(s, A, {}, Parent(a));
      ZoneView(s, t, A, Parent(a));
    }
  }

  lemma ZoneSound(s: State, t: State, A: Tree)
    requires SameZone(s, t) && Sound(s, A, {})
    ensures Sound(t, A, {})
  {
    hide Linked, Hashed;
    forall a | a in A
      ensures Good(t, A, {}, a) && RouteOk(t, A, a)
    {
      ZoneGood(s, t, A, a);
      assert RouteOk(s, A, a);
    }
  }

  lemma ZoneContent(s: State, t: State, A: Tree, i: nat)
    requires SameZone(s, t) && Placed(A) && i in s.ino && Covered(A, i, s.ino[i].size)
    ensures Content(t, A, {}, i) == Content(s, A, {}, i)
  {
    hide View;
    forall o | 0 <= o < s.ino[i].size
      ensures LeafAt(i, o) in A && ByteAt(t, A, {}, i, o) == ByteAt(s, A, {}, i, o)
    {
      assert LeafAt(i, o) in A;
      ZoneView(s, t, A, LeafAt(i, o));
    }
  }

  lemma ZoneFiles(s: State, t: State, A: Tree)
    requires SameZone(s, t) && Placed(A) && Whole(s, A)
    ensures Whole(t, A) && FilesOf(t, A) == FilesOf(s, A) && (Sound(s, A, {}) ==> Files(t, A))
    ensures forall a :: a in A ==> (Settled(t, A, a) <==> Settled(s, A, a))
  {
    hide Inv, Routed, Content, Covered, Settled;
    if Sound(s, A, {}) { ZoneSound(s, t, A); }
    forall i | i in s.ino
      ensures Covered(A, i, t.ino[i].size) && Content(t, A, {}, i) == Content(s, A, {}, i)
    {
      ZoneContent(s, t, A, i);
    }
    forall a | a in A
      ensures Settled(t, A, a) <==> Settled(s, A, a)
    {
      ZoneSettled(s, t, A, a);
    }
  }

  lemma FitsStill(s: State, A: Tree)
    requires Files(s, A) && HeadsFit(s.ino)
    ensures TableFits(s.ino) && Placed(A)
  {
    hide Good, RouteOk;
    forall i | i in s.ino
      ensures Storable(s.ino[i])
    {
      assert Covered(A, i, s.ino[i].size);
      forall k | 0 <= k < NSLOTS
        ensures s.ino[i].bid[k] < UINT32_SPAN
      {
        RootOf(s, A, {}, i, k);
      }
    }
  }

  // Hashes do not matter to what fits.
  lemma FitsAfter(s: State, t: State, A: Tree)
    requires TableFits(s.ino) && ViewsButHashes(s, t, A)
    ensures TableFits(t.ino)
  {
    forall i | i in t.ino
      ensures i < MAXINODES && Storable(t.ino[i])
    {
      assert Storable(s.ino[i]);
    }
  }

  // ---------- leaving ----------

  /** inode_exit: every inode is copied into its block. */
  method WriteTable(v: SB.Volume, ino: map<nat, Inode>)
    requires Sane(v.cs) && SB.Sized(v.sb) && TableFits(ino)
    modifies v`disk
    ensures TableOn(v.cs, v.disk, v.sb, ino, ino.Keys)
    ensures forall b: nat :: b < INODE_START || BITMAP_START <= b ==> SB.Stored(v.disk, b) == SB.Stored(old(v.disk), b)
  {
    hide InodeOn, InodeOut, Storable, SB.Stored;
    var rest := ino.Keys;
    while rest != {}
      invariant rest <= ino.Keys && TableOn(v.cs, v.disk, v.sb, ino, ino.Keys - rest)
      invariant forall b: nat :: b < INODE_START || BITMAP_START <= b ==> SB.Stored(v.disk, b) == SB.Stored(old(v.disk), b)
    {
      var i :| i in rest;
      rest := rest - {i};
      InodeOutZone(v.cs, v.disk, v.sb, i, ino[i]);
      forall j | j in ino && j !in rest
        ensures j < MAXINODES && InodeOn(v.cs, InodeOut(v.cs, v.disk, v.sb, i, ino[i]), v.sb, j) == ino[j]
      {
        InodeOutOn(v.cs, v.disk, v.sb, i, ino[i], j);
      }
      v.disk := InodeOut(v.cs, v.disk, v.sb, i, ino[i]);
    }
  }

  /** bitmap_exit for the bitmap of inodes; the data bitmap's blocks are written when the cache is
      left. */
  method WriteBitmap(v: SB.Volume, start: nat, n: nat, u: set<nat>)
    requires Sane(v.cs) && SB.Sized(v.sb) && INODE_BITMAP_START <= start && start + n <= DATA_START
    modifies v`disk
    ensures BitmapOn(v.cs, v.disk, v.sb, start, n, u)
    ensures forall b: nat :: b < start || start + n <= b ==> SB.Stored(v.disk, b) == SB.Stored(old(v.disk), b)
  {
    hide BlockOf, Image, SB.KeyOf;
    var b := 0;
    while b < n
      invariant 0 <= b <= n
      invariant forall c :: 0 <= c < b ==>
        SB.Stored(v.disk, start + c) == v.cs.enc(SB.KeyOf(v.sb, start + c), BlockOf(Image(u, BITS_PER_BLOCK * c)))
      invariant forall x: nat :: x < start || start + n <= x ==> SB.Stored(v.disk, x) == SB.Stored(old(v.disk), x)
    {
      v.disk := v.disk[start + b := v.cs.enc(SB.KeyOf(v.sb, start + b), BlockOf(Image(u, BITS_PER_BLOCK * b)))];
      b := b + 1;
    }
    forall k: nat | k < BITS_PER_BLOCK * n
      ensures BitOn(v.cs, v.disk, v.sb, start, k) <==> k in u
    {
      ImageOn(v.cs, v.disk, v.sb, start, k / BITS_PER_BLOCK, u, k);
    }
  }

  // What the metadata zone holds of a store.
  ghost predicate MetaOn(s: State, disk: Disk, sb: SB.Superblock)
    requires SB.Sized(sb)
  {
    TableOn(s.cs, disk, sb, s.ino, s.ino.Keys) && BitmapOn(s.cs, disk, sb, INODE_BITMAP_START, INODE_BITMAP_CNT, s.ino.Keys) &&
    BitmapOn(s.cs, disk, sb, BITMAP_START, BITMAP_CNT, Dids(s.used))
  }

  // What the disk holds of a store in which nothing is cached or pending.
  ghost predicate OnVolume(s: State, disk: Disk, sb: SB.Superblock) {
    SB.Sized(sb) && s.bcac == map[] && s.pd == map[] && TableFits(s.ino) && Zoned(s.used) && MetaOn(s, disk, sb) &&
    forall b: nat :: b >= DATA_START ==> SB.Stored(disk, b) == OnDisk(s, b)
  }

  /** What the bits of the two bitmaps on the disk say. */
  lemma NumbersOn(s: State, disk: Disk, sb: SB.Superblock, k: nat)
    requires OnVolume(s, disk, sb)
    ensures k < 32768 ==> (BitOn(s.cs, disk, sb, INODE_BITMAP_START, k) <==> k in s.ino)
    ensures k < CAPACITY ==> (BitOn(s.cs, disk, sb, BITMAP_START, k) <==> DATA_START + k in s.used)
  {
    hide BitOn, TableOn;
    if k < CAPACITY { assert k in Dids(s.used) <==> DATA_START + k in s.used; }
  }

  lemma SameBits(cs: Suite, disk: Disk, sb: SB.Superblock, disk': Disk, sb': SB.Superblock, start: nat, n: nat,
                 u: set<nat>)
    requires SB.Sized(sb) && SB.Sized(sb') && INODE_BITMAP_START <= start && start + n <= DATA_START
    requires BitmapOn(cs, disk, sb, start, n, u) && SB.SamePlain(cs, disk, sb, disk', sb')
    ensures BitmapOn(cs, disk', sb', start, n, u)
  {
    hide Taken, WordsOf, SB.MetaPlain;
    forall k: nat | k < BITS_PER_BLOCK * n
      ensures BitOn(cs, disk', sb', start, k) <==> k in u
    {
      assert BitOn(cs, disk, sb, start, k) <==> k in u;
    }
  }

  lemma SameTable(cs: Suite, disk: Disk, sb: SB.Superblock, disk': Disk, sb': SB.Superblock, ino: map<nat, Inode>,
                  ids: set<nat>)
    requires SB.Sized(sb) && SB.Sized(sb') && TableOn(cs, disk, sb, ino, ids) && SB.SamePlain(cs, disk, sb, disk', sb')
    ensures TableOn(cs, disk', sb', ino, ids)
  {
    hide ReadInode, SB.MetaPlain;
    forall i | i in ids && i in ino
      ensures i < MAXINODES && InodeOn(cs, disk', sb', i) == ino[i]
    {
      assert InodeOn(cs, disk, sb, i) == ino[i];
      InodeZone(i);
    }
  }

  lemma Resealed(s: State, disk: Disk, sb: SB.Superblock, disk': Disk, sb': SB.Superblock)
    requires OnVolume(s, disk, sb) && SB.Sized(sb') && SB.SamePlain(s.cs, disk, sb, disk', sb')
    requires forall b: nat :: b >= DATA_START ==> SB.Stored(disk', b) == SB.Stored(disk, b)
    ensures OnVolume(s, disk', sb')
  {
    hide TableOn, BitmapOn, SB.SamePlain;
    SameTable(s.cs, disk, sb, disk', sb', s.ino, s.ino.Keys);
    SameBits(s.cs, disk, sb, disk', sb', INODE_BITMAP_START, INODE_BITMAP_CNT, s.ino.Keys);
    SameBits(s.cs, disk, sb, disk', sb', BITMAP_START, BITMAP_CNT, Dids(s.used));
  }

  // The metadata of a store goes to the disk.
  method WriteMeta(v: SB.Volume, ino: map<nat, Inode>, used: set<nat>, ghost s: State)
    requires Sane(v.cs) && SB.Sized(v.sb) && TableFits(ino) && s.cs == v.cs && s.ino == ino && s.used == used
    modifies v`disk
    ensures MetaOn(s, v.disk, v.sb)
    ensures forall b: nat :: b >= DATA_START ==> SB.Stored(v.disk, b) == SB.Stored(old(v.disk), b)
  {
    hide TableOn, BitmapOn, TableFits, SB.Stored, Dids;
    WriteTable(v, ino);
    ghost var d1 := v.disk;
    WriteBitmap(v, INODE_BITMAP_START, INODE_BITMAP_CNT, ino.Keys);
    ghost var d2 := v.disk;
    TableBeside(v.cs, d1, d2, v.sb, ino, ino.Keys);
    WriteBitmap(v, BITMAP_START, BITMAP_CNT, Dids(used));
    TableBeside(v.cs, d2, v.disk, v.sb, ino, ino.Keys);
    BitmapBeside(v.cs, d2, v.disk, v.sb, INODE_BITMAP_START, INODE_BITMAP_CNT, ino.Keys);
  }

  /** m' is the highest of m and the blocks in use. */
  ghost predicate Highest(m: nat, used: set<nat>, m': nat) {
    m <= m' && (forall b :: b in used ==> b <= m') && (m' == m || m' in used)
  }

  lemma HighestStep(m: nat, used: set<nat>, m': nat, b: nat)
    requires Highest(m, used, m')
    ensures Highest(m, used + {b}, if m' < b then b else m')
  {
  }

  lemma HighestTrans(m: nat, u: set<nat>, m1: nat, u1: set<nat>, m2: nat)
    requires Highest(m, u, m1) && Highest(m1, u1, m2) && u <= u1
    ensures Highest(m, u1, m2)
  {
  }

  // What dbm_alloc has done to the superblock with each block that it handed out.
  method RaiseMaxbid(v: SB.Volume, used: set<nat>)
    requires SB.Sized(v.sb) && Zoned(used)
    modifies v`sb
    ensures SB.Sized(v.sb) && v.sb == old(v.sb).(maxbid := v.sb.maxbid) && Highest(old(v.sb.maxbid), used, v.sb.maxbid)
  {
    var rest := used;
    var m: nat := v.sb.maxbid;
    while rest != {}
      invariant rest <= used && v.sb == old(v.sb) && m < UINT32_SPAN && Highest(v.sb.maxbid, used - rest, m)
    {
      var b :| b in rest;
      HighestStep(v.sb.maxbid, used - rest, m, b);
      assert used - (rest - {b}) == used - rest + {b};
      rest := rest - {b};
      if m < b {
        m := b;
      }
    }
    v.sb := v.sb.(maxbid := m);
    assert used - rest == used;
  }

  /** efs_exit after the files have been closed.  The program writes the inodes out before
      block_exit, which then changes hashes in their blocks; by HashLater that leaves the same
      bytes.  Its only disk is here that of the store for the data zone and that of the volume for
      the metadata until they are put together. */
  method Unmount(e: Enclave, v: SB.Volume, iv: Bytes, key: Bytes, ks: SB.Keys) returns (hash: Hash)
    requires Files(e.St(), e.A) && e.fr == {} && HeadsFit(e.inodes) && InFiles(e.St(), e.A) && Zoned(e.used)
    requires v.cs == e.cs && SB.Sized(v.sb)
    modifies e`disk, e`bcac, e`pdWb, e`inodes, v`disk, v`sb
    ensures Whole(e.St(), e.A) && FilesOf(e.St(), e.A) == old(FilesOf(e.St(), e.A)) && HeadsFit(e.inodes) && Placed(e.A)
    ensures OnVolume(e.St(), v.disk, v.sb) && SB.LeftBehind(v.cs, v.hashAll, v.disk, v.sb, KeyIv(iv, key), hash)
    ensures SB.KeyedUpTo(v.sb, ks, DATA_START) && Highest(old(v.sb.maxbid), e.used, v.sb.maxbid)
    ensures old(Full(Left(e.St())))
    ensures Guided(old(Left(e.St())), e.A) ==>
      forall a :: a in e.A ==> (Settled(e.St(), e.A, a) <==> a !in Lost(old(Left(e.St())), e.A) || old(UpToDate(e.St(), e.A, a)))
    ensures (forall a :: a in e.A ==> Settled(e.St(), e.A, a)) ==> Files(e.St(), e.A)
    ensures old(Quiet(e.St())) ==> forall a :: a in e.A ==> Settled(e.St(), e.A, a)
  {
    hide Quiet, Harmless, Settled, UpToDate, Guided, Left, Lost, Full, AllSensible, InFiles, Unnamed, ViewsButHashes,
      Files, Whole,
      FilesOf, Placed, Zoned,
      MetaOn, TableFits, SB.LeftBehind, SB.SamePlain, HeadsFit;
    ghost var s := e.St();
    FilesParts(s, e.A);
    SoundSane(s, e.A);
    FitsStill(s, e.A);
    InFilesSensible(s, e.A);
    ghost var m := e.BlockExit();
    FlushedFilesOf(s, e.St(), e.A);
    FitsAfter(s, e.St(), e.A);
    v.disk := WithData(v.disk, e.disk);
    RaiseMaxbid(v, e.used);
    WriteMeta(v, e.inodes, e.used, e.St());
    ghost var d, sb := v.disk, v.sb;
    assert OnVolume(e.St(), d, sb);
    hash := v.SbExit(iv, key, ks);
    Resealed(e.St(), d, sb, v.disk, v.sb);
  }

  lemma SoundSane(s: State, A: Tree)
    requires Sound(s, A, {})
    ensures Sane(s.cs)
  {
    hide Good, Routed;
  }

  // ---------- and entering again ----------

  // The inodes as they are read when they are first needed.
  method ReadTable(v: SB.Volume, ids: set<nat>) returns (ino: map<nat, Inode>)
    requires SB.Sized(v.sb) && forall i :: i in ids ==> i < MAXINODES
    ensures ino == map i | i in ids :: InodeOn(v.cs, v.disk, v.sb, i)
  {
    ino := map[];
    var rest := ids;
    while rest != {}
      invariant rest <= ids && ino == map i | i in ids && i !in rest :: InodeOn(v.cs, v.disk, v.sb, i)
    {
      hide InodeOn;
      var i :| i in rest;
      rest := rest - {i};
      ino := ino[i := InodeOn(v.cs, v.disk, v.sb, i)];
    }
  }

  /** The numbers that a bitmap on the disk takes. */
  function ReadBitmap(cs: Suite, disk: Disk, sb: SB.Superblock, start: nat, n: nat): set<nat>
    requires SB.Sized(sb) && INODE_BITMAP_START <= start && start + n <= DATA_START
  {
    set k: nat | 0 <= k < BITS_PER_BLOCK * n && BitOn(cs, disk, sb, start, k)
  }

  lemma BitmapRead(cs: Suite, disk: Disk, sb: SB.Superblock, start: nat, n: nat, u: set<nat>)
    requires SB.Sized(sb) && INODE_BITMAP_START <= start && start + n <= DATA_START &&
      BitmapOn(cs, disk, sb, start, n, u)
    requires forall k :: k in u ==> k < BITS_PER_BLOCK * n
    ensures ReadBitmap(cs, disk, sb, start, n) == u
  {
    hide BitOn;
  }

  // The blocks in use, as the data bitmap has them.
  function Bids(dids: set<nat>): set<nat> {
    set d | d in dids :: Did2Bid(d)
  }

  lemma DidsBack(used: set<nat>)
    requires Zoned(used)
    ensures Bids(Dids(used)) == used && forall d :: d in Dids(used) ==> d < BITS_PER_BLOCK * BITMAP_CNT
  {
    forall b | b in used
      ensures b in Bids(Dids(used))
    {
      assert b - DATA_START in Dids(used) && Did2Bid(b - DATA_START) == b;
    }
  }

  // What the metadata zone says of a store is that store's metadata.
  lemma MetaRead(s: State, disk: Disk, sb: SB.Superblock)
    requires OnVolume(s, disk, sb)
    ensures ReadBitmap(s.cs, disk, sb, INODE_BITMAP_START, INODE_BITMAP_CNT) == s.ino.Keys
    ensures Bids(ReadBitmap(s.cs, disk, sb, BITMAP_START, BITMAP_CNT)) == s.used
    ensures forall i :: i in s.ino ==> i < MAXINODES && InodeOn(s.cs, disk, sb, i) == s.ino[i]
  {
    hide BitmapOn, BitOn, ReadBitmap, InodeOn, Storable;
    DidsBack(s.used);
    BitmapRead(s.cs, disk, sb, INODE_BITMAP_START, INODE_BITMAP_CNT, s.ino.Keys);
    BitmapRead(s.cs, disk, sb, BITMAP_START, BITMAP_CNT, Dids(s.used));
  }

  /** efs_init: the mount succeeds exactly if the superblock and the metadata have the hashes
      expected.  Of a disk on which a store has been left it finds that store: its inodes, the
      numbers in use and its blocks. */
  method Mount(v: SB.Volume, iv: Bytes, key: Bytes, exp: Hash, ghost s: State, ghost A: Tree)
    returns (m: Option<Enclave>)
    requires Whole(s, A) && Placed(A) && s.cs == v.cs
    requires OnVolume(s, v.disk, SB.Unpack(SB.SbBytes(v.cs, v.disk, KeyIv(iv, key))))
    modifies v`sb
    ensures m.Some? <==> SB.Mountable(v.cs, v.hashAll, v.disk, KeyIv(iv, key), exp)
    ensures m.Some? ==> fresh(m.value) && m.value.fr == {} && m.value.A == A && SameZone(s, m.value.St())
    ensures m.Some? ==> Whole(m.value.St(), A) && FilesOf(m.value.St(), A) == FilesOf(s, A) && (Files(s, A) ==> Files(m.value.St(), A))
    ensures m.Some? ==> forall a :: a in A ==> (Settled(m.value.St(), A, a) <==> Settled(s, A, a))
    ensures m.Some? ==> SB.Sized(v.sb) && OnVolume(s, v.disk, v.sb)
    ensures m.Some? ==> v.sb == SB.Unpack(SB.SbBytes(v.cs, v.disk, KeyIv(iv, key)))
  {
    hide SB.Mountable, SB.Unpack, SB.SbBytes, Storable, InodeOn, Sound, Covered, Content, MetaOn, BitOn, ReadBitmap,
      Settled, Placed, Whole,
      FilesOf, Zoned, TableFits, Bids;
    var ok := v.SbInit(iv, key, exp);
    if !ok {
      return None;
    }
    MetaRead(s, v.disk, v.sb);
    var ids := ReadBitmap(v.cs, v.disk, v.sb, INODE_BITMAP_START, INODE_BITMAP_CNT);
    var used := Bids(ReadBitmap(v.cs, v.disk, v.sb, BITMAP_START, BITMAP_CNT));
    var ino := ReadTable(v, ids);
    assert ino == s.ino;
    ghost var t := State(v.cs, DataZone(v.disk), map[], map[], ino, used);
    assert SameZone(s, t);
    ZoneFiles(s, t, A);
    var e := new Enclave.Mounted(v.cs, DataZone(v.disk), ino, used, A);
    m := Some(e);
  }

  /** A session, unmounted with a hash and mounted with it: the mount succeeds, and the decrypted files
      are those that the operations make.  If all transfers were straight, every slot is right, and
      the next session can begin; it can always do so if every slot is right. */
  method Remount(e: Enclave, v: SB.Volume, ops: seq<Op>, iv: Bytes, key: Bytes, ks: SB.Keys)
    returns (outs: seq<Bytes>, hash: Hash, m: Enclave)
    requires Files(e.St(), e.A) && e.fr == {} && InFiles(e.St(), e.A) && HeadsFit(e.inodes) && Zoned(e.used)
    requires AllFit(ops) && Room(e.A, e.used, Needs(FilesOf(e.St(), e.A), ops))
    requires v.cs == e.cs && SB.Sized(v.sb)
    modifies e`disk, e`pdWb, e`bcac, e`inodes, e`used, e`A, e`fr, v`disk, v`sb
    ensures outs == Outputs(old(FilesOf(e.St(), e.A)), ops) && fresh(m) && m.fr == {}
    ensures Took(old(e.A), old(e.used), m.A, m.used, Needs(old(FilesOf(e.St(), e.A)), ops))
    ensures Whole(m.St(), m.A) && FilesOf(m.St(), m.A) == Replay(old(FilesOf(e.St(), e.A)), ops)
    ensures old(AllRouted(e.St(), e.A)) && AllStraight(ops) ==> forall a :: a in m.A ==> Settled(m.St(), m.A, a)
    ensures old(Quiet(e.St())) && OnlyReads(ops) ==> forall a :: a in m.A ==> Settled(m.St(), m.A, a)
    ensures (forall a :: a in m.A ==> Settled(m.St(), m.A, a)) ==> Files(m.St(), m.A)
    ensures AllRouted(m.St(), m.A) && InFiles(m.St(), m.A) && HeadsFit(m.inodes) && Zoned(m.used) && v.cs == m.cs &&
      SB.Sized(v.sb) && Quiet(m.St())
    ensures Highest(old(v.sb.maxbid), m.used, v.sb.maxbid) && SB.KeyedUpTo(v.sb, ks, DATA_START)
  {
    hide Settled, UpToDate, Guided, Left, Lost, Full, AllRouted, AllStraight, AllFit, InFiles, OnVolume, HeadsFit,
      Quiet, Harmless, OnlyReads, Zoned, Files, Whole, FilesOf,
      Replay, Outputs, Needs, SameZone, Placed, Took, Room, SB.Sized, SB.Mountable, SB.LeftBehind, SB.Unpack, SB.SbBytes,
      Highest, SB.KeyedUpTo;
    FilesParts(e.St(), e.A);
    ghost var s0 := e.St();
    outs := Run(e, ops);
    ghost var s := e.St();
    if OnlyReads(ops) { HarmlessQuiet(s0, s); }
    FilesParts(s, e.A);
    TookZoned(old(e.A), old(e.used), e.A, e.used, Needs(old(FilesOf(e.St(), e.A)), ops));
    if AllRouted(s, e.A) { RoutedExit(s, e.A); }
    hash := Unmount(e, v, iv, key, ks);
    ghost var t := e.St();
    SB.MountAfterUnmount(v.cs, v.hashAll, v.disk, v.sb, KeyIv(iv, key), hash);
    var r := Mount(v, iv, key, hash, t, e.A);
    m := r.value;
    ZoneSame(t, m.St());
    EmptyRouted(m.St(), m.A);
  }

  lemma ZoneSame(s: State, t: State)
    requires SameZone(s, t)
    ensures t.used == s.used && t.cs == s.cs && t.ino == s.ino && t.bcac == map[] && t.pd == map[] && Quiet(t)
  {
  }
}
