/** A file as a flat sequence of bytes, read off the block tree. */
module FileBytes {
  import opened Layout
  import opened Blocks
  import opened Crypto
  import opened Merkle
  import opened MerkleSteps
  import opened MerkleUpdates
  import opened Routes
  import opened Relations

  ghost function LeafAt(i: nat, o: nat): Addr
    requires o < UINT32_SPAN
  {
    Addr(i, PathOf(o / BLK_SZ))
  }

  // Every block below offset n of file i exists.
  ghost predicate Covered(A: Tree, i: nat, n: nat) {
    n <= UINT32_MAX && forall o :: 0 <= o < n ==> LeafAt(i, o) in A
  }

  ghost function ByteAt(s: State, A: Tree, fr: set<nat>, i: nat, o: nat): Byte
    requires i in s.ino && o < UINT32_SPAN && LeafAt(i, o) in A
  {
    View(s, A, fr, LeafAt(i, o))[o % BLK_SZ]
  }

  ghost function Content(s: State, A: Tree, fr: set<nat>, i: nat): (c: Bytes)
    requires i in s.ino && Covered(A, i, s.ino[i].size)
    ensures |c| == s.ino[i].size
  {
    seq(s.ino[i].size, o requires 0 <= o < s.ino[i].size => ByteAt(s, A, fr, i, o))
  }

  /** The file is what its data blocks hold, one after the other. */
  lemma BlocksInOrder(s: State, A: Tree, fr: set<nat>, i: nat, k: nat)
    requires i in s.ino && Covered(A, i, s.ino[i].size) && 4096 * k < s.ino[i].size
    ensures k < NDIRECT + NINDIRECT1 + NINDIRECT2 + NINDIRECT3 && Addr(i, PathOf(k)) in A
    ensures var n := Min(4096, s.ino[i].size - 4096 * k);
      Content(s, A, fr, i)[4096 * k..4096 * k + n] == View(s, A, fr, Addr(i, PathOf(k)))[..n]
  {
    assert LeafAt(i, 4096 * k) in A;
    var n := Min(4096, s.ino[i].size - 4096 * k);
    forall j | 0 <= j < n
      ensures LeafAt(i, 4096 * k + j) == Addr(i, PathOf(k))
      ensures Content(s, A, fr, i)[4096 * k + j] == View(s, A, fr, Addr(i, PathOf(k)))[j]
    {
      assert (4096 * k + j) / BLK_SZ == k && (4096 * k + j) % BLK_SZ == j;
    }
  }

  // No file has a hole.
  ghost predicate Whole(s: State, A: Tree) {
    forall i :: i in s.ino ==> Covered(A, i, s.ino[i].size)
  }

  /** The block tree is sound and no file has a hole. */
  ghost predicate Files(s: State, A: Tree) {
    Sound(s, A, {}) && Whole(s, A)
  }

  // Each round of a transfer finishes a block, or the transfer.
  lemma RoundFits(o: nat, n: nat, r: nat)
    requires n > 0 && r == Min(n, BLK_SZ - o % BLK_SZ)
    ensures 0 < r <= n && o % BLK_SZ + r <= BLK_SZ
  {
  }

  function Min(x: int, y: int): int { if x < y then x else y }

  // The route array holds nothing beyond the depth of offset o.
  ghost predicate Cleared(hx: Route, o: nat) {
    |hx| == 4 && o < UINT32_SPAN && forall m :: |PathOf(o / BLK_SZ)| <= m < 4 ==> hx[m] == HashIdx(0, 0)
  }

  lemma ClearedOn(A: Tree, i: nat, o: nat, o': nat)
    requires o <= o' < UINT32_SPAN && HasPrefixes(A, LeafAt(i, o))
    ensures Cleared(TrueRoute(A, LeafAt(i, o)), o')
  {
    DepthMonotone(o / BLK_SZ, o' / BLK_SZ);
    PathIsExact(o / BLK_SZ);
    PathIsExact(o' / BLK_SZ);
  }

  lemma LeavesAreLeaves(i: nat, o: nat)
    requires o < UINT32_SPAN
    ensures IsLeaf(LeafAt(i, o))
  {
    OffsetsFit(o);
    PathIsExact(o / BLK_SZ);
  }

  // Two offsets lead to the same block only if they lie in the same block of the same file.
  lemma LeafInjective(i: nat, o: nat, i': nat, o': nat)
    requires o < UINT32_SPAN && o' < UINT32_SPAN && LeafAt(i, o) == LeafAt(i', o')
    ensures i == i' && o / BLK_SZ == o' / BLK_SZ
  {
    PathInjective(o / BLK_SZ, o' / BLK_SZ);
  }

  // A run of bytes inside one block, read off that block.
  lemma SliceOfBlock(s: State, A: Tree, fr: set<nat>, i: nat, o: nat, r: nat)
    requires i in s.ino && Covered(A, i, s.ino[i].size) && r > 0 && o + r <= s.ino[i].size && o % BLK_SZ + r <= BLK_SZ
    ensures LeafAt(i, o) in A
    ensures View(s, A, fr, LeafAt(i, o))[o % BLK_SZ..o % BLK_SZ + r] == Content(s, A, fr, i)[o..o + r]
  {
    hide View;
    var c, v := Content(s, A, fr, i), View(s, A, fr, LeafAt(i, o));
    var x, y := c[o..o + r], v[o % BLK_SZ..o % BLK_SZ + r];
    forall k | 0 <= k < r
      ensures x[k] == y[k]
    {
      assert (o + k) / BLK_SZ == o / BLK_SZ && (o + k) % BLK_SZ == o % BLK_SZ + k;
      assert c[o + k] == ByteAt(s, A, fr, i, o + k);
    }
  }

  lemma SliceStep(c: Bytes, off: nat, d: nat, r: nat)
    requires off + d + r <= |c|
    ensures c[off..off + d] + c[off + d..off + d + r] == c[off..off + (d + r)]
  {
  }

  // The files of both states are the same, byte for byte.
  ghost predicate SameFiles(s: State, A: Tree, t: State, A': Tree) {
    Files(s, A) && Files(t, A') && (forall i :: i in s.ino <==> i in t.ino) &&
    forall i :: i in s.ino ==>
      t.ino[i].tp == s.ino[i].tp && t.ino[i].key == s.ino[i].key && Content(t, A', {}, i) == Content(s, A, {}, i)
  }

  // ---------- what keeps the data blocks keeps the files ----------

  lemma KeptByte(s: State, A: Tree, fr: set<nat>, t: State, A': Tree, fr': set<nat>, i: nat, o: nat)
    requires Kept(s, A, fr, t, A', fr') && i in s.ino && o < UINT32_SPAN && LeafAt(i, o) in A
    ensures i in t.ino && LeafAt(i, o) in A' && ByteAt(t, A', fr', i, o) == ByteAt(s, A, fr, i, o)
  {
    LeavesAreLeaves(i, o);
  }

  lemma KeptRefl(s: State, A: Tree)
    ensures Kept(s, A, {}, s, A, {})
  {
  }

  // A block below the end of the file can still be looked up, and still reads the same.
  lemma CoveredStill(s: State, A: Tree, t: State, A': Tree, i: nat, o: nat)
    requires Files(s, A) && Kept(s, A, {}, t, A', {}) && i in s.ino && o < s.ino[i].size
    ensures LeafAt(i, o) in A && LeafAt(i, o) in A' && IsLeaf(LeafAt(i, o)) && i in t.ino
    ensures View(t, A', {}, LeafAt(i, o)) == View(s, A, {}, LeafAt(i, o))
  {
    LeavesAreLeaves(i, o);
  }

  lemma KeptFiles(s: State, A: Tree, t: State, A': Tree)
    requires Files(s, A) && Kept(s, A, {}, t, A', {}) && Sound(t, A', {})
    ensures SameFiles(s, A, t, A')
  {
    forall i | i in s.ino
      ensures i in t.ino && Covered(A', i, t.ino[i].size) && Content(t, A', {}, i) == Content(s, A, {}, i)
    {
      forall o | 0 <= o < s.ino[i].size
        ensures LeafAt(i, o) in A' && ByteAt(t, A', {}, i, o) == ByteAt(s, A, {}, i, o)
      {
        KeptByte(s, A, {}, t, A', {}, i, o);
      }
    }
  }

  // ---------- a write in progress ----------

  // After d bytes of buf have been written to file i at off.
  ghost predicate Patched(s: State, A: Tree, t: State, A': Tree, fr': set<nat>, i: nat, off: nat, buf: Bytes, d: nat)
    requires i in s.ino && d <= |buf| && off + |buf| < UINT32_SPAN
  {
    Extends(A, A') && t.cs == s.cs && (forall j :: j in s.ino <==> j in t.ino) &&
    (forall j :: j in s.ino ==> SameHead(s.ino[j], t.ino[j])) &&
    (forall a :: a in A && a.iid in s.ino && a.iid != i && IsLeaf(a) ==> View(t, A', fr', a) == View(s, A, {}, a)) &&
    (forall o :: 0 <= o < UINT32_SPAN && (o < off || off + d <= o) && LeafAt(i, o) in A ==>
      ByteAt(t, A', fr', i, o) == ByteAt(s, A, {}, i, o)) &&
    (forall o :: off <= o < off + d ==> LeafAt(i, o) in A' && ByteAt(t, A', fr', i, o) == buf[o - off])
  }

  lemma PatchedKept(s: State, A: Tree, t: State, A1: Tree, f1: set<nat>, u: State, A2: Tree, f2: set<nat>,
                    i: nat, off: nat, buf: Bytes, d: nat)
    requires i in s.ino && d <= |buf| && off + |buf| < UINT32_SPAN
    requires Patched(s, A, t, A1, f1, i, off, buf, d) && Kept(t, A1, f1, u, A2, f2)
    ensures Patched(s, A, u, A2, f2, i, off, buf, d)
  {
    forall o | 0 <= o < UINT32_SPAN && LeafAt(i, o) in A1
      ensures LeafAt(i, o) in A2 && ByteAt(u, A2, f2, i, o) == ByteAt(t, A1, f1, i, o)
    {
      KeptByte(t, A1, f1, u, A2, f2, i, o);
    }
  }

  // ---------- storing a run of bytes inside one block ----------

  // What the block of offset at holds after s has been stored there.
  ghost function Overwritten(t: State, A: Tree, fr: set<nat>, i: nat, at: nat, s: Bytes): Block
    requires i in t.ino && at < UINT32_SPAN && LeafAt(i, at) in A && at % BLK_SZ + |s| <= BLK_SZ
  {
    Splice(View(t, A, fr, LeafAt(i, at)), at % BLK_SZ, s)
  }

  // What one byte of the file is after that.
  lemma StoredByte(t: State, A: Tree, fr: set<nat>, u: State, f: set<nat>, i: nat, at: nat, s: Bytes, o: nat)
    requires i in t.ino && i in u.ino && at < UINT32_SPAN && LeafAt(i, at) in A && at % BLK_SZ + |s| <= BLK_SZ
    requires o < UINT32_SPAN && LeafAt(i, o) in A
    requires View(u, A, f, LeafAt(i, o)) ==
      if LeafAt(i, o) == LeafAt(i, at) then Overwritten(t, A, fr, i, at, s) else View(t, A, fr, LeafAt(i, o))
    ensures ByteAt(u, A, f, i, o) == if at <= o < at + |s| then s[o - at] else ByteAt(t, A, fr, i, o)
  {
    hide View, Splice;
    if o / BLK_SZ == at / BLK_SZ {
      SpliceAt(View(t, A, fr, LeafAt(i, at)), at % BLK_SZ, s, o % BLK_SZ);
    } else if LeafAt(i, o) == LeafAt(i, at) {
      LeafInjective(i, o, i, at);
    }
  }

  lemma StoreBytes(t: State, A: Tree, fr: set<nat>, i: nat, at: nat, s: Bytes)
    requires Inv(t, A, fr) && i in t.ino && at < UINT32_SPAN && LeafAt(i, at) in A && A[LeafAt(i, at)] in t.bcac
    requires at % BLK_SZ + |s| <= BLK_SZ
    ensures var u, f := Stored(t, A[LeafAt(i, at)], Overwritten(t, A, fr, i, at, s)), fr - {A[LeafAt(i, at)]};
      Inv(u, A, f) && StoredIn(t, A, fr, u, f, i, at, s)
  {
    hide Inv, View, Splice;
    var a := LeafAt(i, at);
    LeavesAreLeaves(i, at);
    var data := Overwritten(t, A, fr, i, at, s);
    StoreKeeps(t, A, fr, a, data);
    var u, f := Stored(t, A[a], data), fr - {A[a]};
    forall o | 0 <= o < UINT32_SPAN && LeafAt(i, o) in A
      ensures ByteAt(u, A, f, i, o) == if at <= o < at + |s| then s[o - at] else ByteAt(t, A, fr, i, o)
    {
      StoredByte(t, A, fr, u, f, i, at, s, o);
    }
  }

  // Bytes s have been stored in file i at offset at, and nothing else has changed.
  ghost predicate StoredIn(t: State, A: Tree, fr: set<nat>, u: State, f: set<nat>, i: nat, at: nat, s: Bytes)
  {
    i in t.ino && u.ino == t.ino && u.cs == t.cs && u.used == t.used &&
    (forall a :: a in A && a.iid in t.ino && a.iid != i ==> View(u, A, f, a) == View(t, A, fr, a)) &&
    forall o :: 0 <= o < UINT32_SPAN && LeafAt(i, o) in A ==>
      ByteAt(u, A, f, i, o) == if at <= o < at + |s| then s[o - at] else ByteAt(t, A, fr, i, o)
  }

  lemma PatchedNothing(s: State, A: Tree, i: nat, off: nat, buf: Bytes)
    requires i in s.ino && off + |buf| < UINT32_SPAN
    ensures Patched(s, A, s, A, {}, i, off, buf, 0)
  {
  }

  // The next r bytes of buf go into the block of offset off + d.
  lemma PatchedStore(s: State, A: Tree, t: State, A': Tree, fr: set<nat>, u: State, f: set<nat>,
                     i: nat, off: nat, buf: Bytes, d: nat, r: nat)
    requires i in s.ino && d + r <= |buf| && off + |buf| < UINT32_SPAN
    requires Patched(s, A, t, A', fr, i, off, buf, d)
    requires LeafAt(i, off + d) in A' && (off + d) % BLK_SZ + r <= BLK_SZ
    requires StoredIn(t, A', fr, u, f, i, off + d, buf[d..d + r])
    ensures Patched(s, A, u, A', f, i, off, buf, d + r)
  {
    hide ByteAt, View;
    forall o | off + d <= o < off + d + r
      ensures LeafAt(i, o) in A'
    {
      assert o / BLK_SZ == (off + d) / BLK_SZ;
    }
  }

  // ---------- the finished write ----------

  /** c with buf written at off, which may extend it. */
  function Written(c: Bytes, off: nat, buf: Bytes): Bytes
    requires off <= |c|
  {
    c[..off] + buf + (if off + |buf| <= |c| then c[off + |buf|..] else [])
  }

  lemma WrittenNothing(c: Bytes, off: nat)
    requires off <= |c|
    ensures Written(c, off, []) == c
  {
  }

  function NewSize(size: nat, end: nat): nat { if end > size then end else size }

  lemma PatchedByte(s: State, A: Tree, t: State, A': Tree, i: nat, off: nat, buf: Bytes, o: nat)
    requires i in s.ino && Covered(A, i, s.ino[i].size) && off <= s.ino[i].size && off + |buf| < UINT32_MAX
    requires Patched(s, A, t, A', {}, i, off, buf, |buf|) && o < NewSize(s.ino[i].size, off + |buf|)
    ensures i in t.ino && LeafAt(i, o) in A' && ByteAt(t, A', {}, i, o) == Written(Content(s, A, {}, i), off, buf)[o]
  {
    hide View, ByteAt;
    var c := Content(s, A, {}, i);
    WrittenAt(c, off, buf, o);
    if o < s.ino[i].size {
      assert LeafAt(i, o) in A && c[o] == ByteAt(s, A, {}, i, o);
    }
  }

  lemma WrittenAt(c: Bytes, off: nat, buf: Bytes, o: nat)
    requires off <= |c| && o < NewSize(|c|, off + |buf|)
    ensures o < |Written(c, off, buf)| && Written(c, off, buf)[o] == if off <= o < off + |buf| then buf[o - off] else c[o]
  {
  }

  lemma WrittenLength(c: Bytes, off: nat, buf: Bytes)
    requires off <= |c|
    ensures |Written(c, off, buf)| == NewSize(|c|, off + |buf|)
  {
  }

  lemma PatchedSelf(s: State, A: Tree, t: State, A': Tree, i: nat, off: nat, buf: Bytes)
    requires i in s.ino && Covered(A, i, s.ino[i].size) && off <= s.ino[i].size && off + |buf| < UINT32_MAX
    requires Patched(s, A, t, A', {}, i, off, buf, |buf|) && i in t.ino
    ensures var z := NewSize(s.ino[i].size, off + |buf|);
      Covered(A', i, z) && Content(Resized(t, i, z), A', {}, i) == Written(Content(s, A, {}, i), off, buf)
  {
    hide View, Patched, Written;
    var z := NewSize(s.ino[i].size, off + |buf|);
    var w := Written(Content(s, A, {}, i), off, buf);
    WrittenLength(Content(s, A, {}, i), off, buf);
    forall o | 0 <= o < z
      ensures LeafAt(i, o) in A' && ByteAt(t, A', {}, i, o) == w[o]
    {
      PatchedByte(s, A, t, A', i, off, buf, o);
    }
    ResizedContent(t, A', i, z, w);
  }

  lemma ResizedContent(t: State, A: Tree, i: nat, z: nat, w: Bytes)
    requires i in t.ino && |w| == z <= UINT32_MAX
    requires forall o :: 0 <= o < z ==> LeafAt(i, o) in A && ByteAt(t, A, {}, i, o) == w[o]
    ensures Covered(A, i, z) && Content(Resized(t, i, z), A, {}, i) == w
  {
    forall o | 0 <= o < z
      ensures ByteAt(Resized(t, i, z), A, {}, i, o) == w[o]
    {
      assert LeafAt(i, o) in A;
    }
  }

  lemma ResizedSame(t: State, i: nat)
    requires i in t.ino
    ensures Resized(t, i, t.ino[i].size) == t
  {
  }

  lemma PatchedOthers(s: State, A: Tree, t: State, A': Tree, i: nat, off: nat, buf: Bytes, z: nat, j: nat)
    requires i in s.ino && off + |buf| < UINT32_MAX
    requires Patched(s, A, t, A', {}, i, off, buf, |buf|) && j in s.ino && j != i && Covered(A, j, s.ino[j].size)
    ensures i in t.ino && j in t.ino && t.ino[j].size == s.ino[j].size
    ensures Covered(A', j, t.ino[j].size) && Content(Resized(t, i, z), A', {}, j) == Content(s, A, {}, j)
  {
    var u := Resized(t, i, z);
    forall o | 0 <= o < s.ino[j].size
      ensures LeafAt(j, o) in A' && ByteAt(u, A', {}, j, o) == ByteAt(s, A, {}, j, o)
    {
      LeavesAreLeaves(j, o);
      assert LeafAt(j, o) in A;
      assert View(t, A', {}, LeafAt(j, o)) == View(s, A, {}, LeafAt(j, o));
    }
  }

  /** A finished write changes its own range of its own file, and no other file. */
  lemma WriteFinished(s: State, A: Tree, t: State, A': Tree, i: nat, off: nat, buf: Bytes)
    requires Files(s, A) && i in s.ino && off <= s.ino[i].size && off + |buf| < UINT32_MAX
    requires Patched(s, A, t, A', {}, i, off, buf, |buf|) && Sound(t, A', {})
    ensures i in t.ino
    ensures var u := Resized(t, i, NewSize(s.ino[i].size, off + |buf|));
      OneFileChanged(s, A, u, A', i) && Content(u, A', {}, i) == Written(Content(s, A, {}, i), off, buf)
  {
    hide Inv, Routed, Covered, Content, Patched, View;
    PatchedInodes(s, A, t, A', i, off, buf, |buf|);
    var z := NewSize(s.ino[i].size, off + |buf|);
    ResizeKeeps(t, A', {}, i, z);
    ResizeRouted(t, A', i, z);
    PatchedSelf(s, A, t, A', i, off, buf);
    forall j | j in s.ino && j != i
      ensures j in t.ino && t.ino[j].size == s.ino[j].size && Covered(A', j, t.ino[j].size)
      ensures Content(Resized(t, i, z), A', {}, j) == Content(s, A, {}, j)
    {
      PatchedOthers(s, A, t, A', i, off, buf, z, j);
    }
  }

  lemma PatchedInodes(s: State, A: Tree, t: State, A': Tree, i: nat, off: nat, buf: Bytes, d: nat)
    requires i in s.ino && d <= |buf| && off + |buf| < UINT32_SPAN && Patched(s, A, t, A', {}, i, off, buf, d)
    ensures i in t.ino && t.ino[i].size == s.ino[i].size && forall j :: j in s.ino <==> j in t.ino
    ensures forall j :: j in s.ino ==> t.ino[j].tp == s.ino[j].tp && t.ino[j].key == s.ino[j].key
  {
  }

  // All files but i are as they were.
  ghost predicate OneFileChanged(s: State, A: Tree, t: State, A': Tree, i: nat) {
    Files(s, A) && Files(t, A') && (forall j :: j in s.ino <==> j in t.ino) &&
    (forall j :: j in s.ino ==> t.ino[j].tp == s.ino[j].tp && t.ino[j].key == s.ino[j].key) &&
    forall j :: j in s.ino && j != i ==> Content(t, A', {}, j) == Content(s, A, {}, j)
  }

  // ---------- a new inode ----------

  ghost function Born(s: State, i: nat, ip: Inode): State { s.(ino := s.ino[i := ip]) }

  ghost predicate Blank(ip: Inode) {
    ip.size == 0 && |ip.bid| == |ip.hash| == NSLOTS && forall k :: 0 <= k < NSLOTS ==> ip.bid[k] == 0
  }

  lemma BornGood(s: State, A: Tree, i: nat, ip: Inode, x: Addr)
    requires Good(s, A, {}, x) && i !in s.ino && (IsRoot(x) || Good(s, A, {}, Parent(x)))
    ensures Good(Born(s, i, ip), A, {}, x) && View(Born(s, i, ip), A, {}, x) == View(s, A, {}, x)
  {
    var t := Born(s, i, ip);
    assert SlotBid(t, A, {}, x) == SlotBid(s, A, {}, x) && SlotHash(t, A, {}, x) == SlotHash(s, A, {}, x);
  }

  lemma BornKeeps(s: State, A: Tree, i: nat, ip: Inode)
    requires Sound(s, A, {}) && i !in s.ino && Blank(ip)
    ensures Sound(Born(s, i, ip), A, {})
    ensures forall x :: x in A ==> x.iid in s.ino && View(Born(s, i, ip), A, {}, x) == View(s, A, {}, x)
  {
    hide Linked, Hashed;
    var t := Born(s, i, ip);
    forall x | x in A
      ensures Good(t, A, {}, x) && x.iid in s.ino && View(t, A, {}, x) == View(s, A, {}, x) && RouteOk(t, A, x)
    {
      assert Good(s, A, {}, x) && RouteOk(s, A, x);
      if !IsRoot(x) { assert Good(s, A, {}, Parent(x)); }
      BornGood(s, A, i, ip, x);
    }
  }

  lemma BornFile(s: State, A: Tree, i: nat, ip: Inode, j: nat)
    requires Files(s, A) && i !in s.ino && Blank(ip) && j in s.ino
    ensures Covered(A, j, s.ino[j].size) && Content(Born(s, i, ip), A, {}, j) == Content(s, A, {}, j)
  {
    hide Inv, Routed, Linked, Hashed;
    BornKeeps(s, A, i, ip);
    forall o | 0 <= o < s.ino[j].size
      ensures ByteAt(Born(s, i, ip), A, {}, j, o) == ByteAt(s, A, {}, j, o)
    {
      assert LeafAt(j, o) in A;
    }
  }

  // ---------- the flush ----------

  lemma FlushedFiles(s: State, t: State, A: Tree)
    requires Files(s, A) && SameData(s, t, A, {}) && t.cs == s.cs && Sound(t, A, {})
    ensures SameFiles(s, A, t, A)
  {
    hide Inv, Routed;
    assert Kept(s, A, {}, t, A, {});
    KeptFiles(s, A, t, A);
  }
}
