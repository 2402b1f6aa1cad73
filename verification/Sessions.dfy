/** Whole runs of the store: any sequence of creations, writes and reads acts on the files as on a
    map from inode numbers to types, keys and bytes, and the flush at the end of a session leaves these files in
    a tree in which every hash is right. */
module Sessions {
  import opened Layout
  import opened Blocks
  import opened Crypto
  import opened Merkle
  import opened Relations
  import opened FileBytes
  import opened Carrying
  import opened Mending
  import opened Flush
  import opened Cascading
  import opened Misroutes
  import opened Rooms
  import opened StaleRoutes
  import opened EnclaveStore

  datatype Op =
    | Create(iid: nat, tp: nat, key: KeyIv)
    | Write(iid: nat, off: nat, buf: Bytes)
    | Read(iid: nat, off: nat, size: nat)

  // What can be seen of an inode.
  datatype File = File(tp: nat, key: KeyIv, data: Bytes)

  type Flat = map<nat, File>

  /** The files, decrypted, whether or not all hashes are right. */
  ghost function FilesOf(s: State, A: Tree): Flat
    requires Whole(s, A)
  {
    map i | i in s.ino :: FileOf(s, A, i)
  }

  ghost function FileOf(s: State, A: Tree, i: nat): File
    requires Whole(s, A) && i in s.ino
  {
    File(s.ino[i].tp, s.ino[i].key, Content(s, A, {}, i))
  }

  // The part of a buffer that is written: nothing if the range would reach the largest offset.
  function Fitting(off: nat, buf: Bytes): Bytes {
    if off + |buf| >= UINT32_MAX then [] else buf
  }

  // Creations of present inodes, and transfers behind the end of a file, are refused.
  function Effect(f: Flat, op: Op): Flat {
    match op
    case Create(i, tp, key) => if i in f then f else f[i := File(tp, key, [])]
    case Write(i, off, buf) => if i in f && off <= |f[i].data| then Overwritten(f, i, off, Fitting(off, buf)) else f
    case Read(_, _, _) => f
  }

  function Overwritten(f: Flat, i: nat, off: nat, buf: Bytes): Flat
    requires i in f && off <= |f[i].data|
  {
    f[i := f[i].(data := Written(f[i].data, off, buf))]
  }

  function Output(f: Flat, op: Op): Bytes {
    match op
    case Read(i, off, size) =>
      if i in f && off <= |f[i].data| && off + size < UINT32_SPAN then f[i].data[off..Min(off + size, |f[i].data|)] else []
    case _ => []
  }

  /** The files after some operations. */
  function Replay(f: Flat, ops: seq<Op>): Flat {
    if ops == [] then f else Effect(Replay(f, ops[..|ops| - 1]), ops[|ops| - 1])
  }

  // What each operation reads.
  function Outputs(f: Flat, ops: seq<Op>): seq<Bytes> {
    if ops == [] then []
    else Outputs(f, ops[..|ops| - 1]) + [Output(Replay(f, ops[..|ops| - 1]), ops[|ops| - 1])]
  }

  /** The addresses that an operation needs blocks for. */
  ghost function NeedsOf(f: Flat, op: Op): set<Addr> {
    match op
    case Write(i, off, buf) =>
      if i in f && off <= |f[i].data| && off + |buf| < UINT32_MAX then
        EndGrows(off, 0, |buf|);
        Ways(i, off / BLK_SZ, EndBlock(off, |buf|))
      else {}
    case _ => {}
  }

  ghost function Needs(f: Flat, ops: seq<Op>): set<Addr> {
    if ops == [] then {}
    else Needs(f, ops[..|ops| - 1]) + NeedsOf(Replay(f, ops[..|ops| - 1]), ops[|ops| - 1])
  }

  const MAXINODES := INODE_PER_BLOCK * INODE_CNT

  // Inode numbers, types and keys have the sizes that inode blocks give them.
  predicate HeadFits(i: nat, tp: nat, key: KeyIv) {
    i < MAXINODES && tp < 0x10000 && |key.key| == |key.iv| == 16
  }

  ghost predicate HeadsFit(ino: map<nat, Inode>) {
    forall i :: i in ino ==> HeadFits(i, ino[i].tp, ino[i].key)
  }

  // The sizes of buffers are 32-bit numbers.
  predicate Fits(op: Op) {
    match op
    case Create(i, tp, key) => HeadFits(i, tp, key)
    case Write(_, _, buf) => |buf| < UINT32_SPAN
    case Read(_, _, size) => size < UINT32_SPAN
  }

  predicate StraightOp(op: Op) {
    match op
    case Create(_, _, _) => true
    case Write(_, off, buf) => Straight(off, |buf|)
    case Read(_, off, size) => Straight(off, size)
  }

  predicate AllFit(ops: seq<Op>) {
    forall op :: op in ops ==> Fits(op)
  }

  predicate AllStraight(ops: seq<Op>) {
    forall op :: op in ops ==> StraightOp(op)
  }

  predicate OnlyReads(ops: seq<Op>) {
    forall op :: op in ops ==> op.Read?
  }

  lemma StraightLess(off: nat, n: nat, m: nat)
    requires Straight(off, n) && m <= n
    ensures Straight(off, m)
  {
  }

  lemma ReplayNothing(f: Flat, ops: seq<Op>)
    ensures Replay(f, ops[..0]) == f && Outputs(f, ops[..0]) == [] && Needs(f, ops[..0]) == {}
  {
  }

  // One more operation at the end.
  lemma ReplayStep(f: Flat, ops: seq<Op>, k: nat)
    requires k < |ops|
    ensures Replay(f, ops[..k + 1]) == Effect(Replay(f, ops[..k]), ops[k])
    ensures Outputs(f, ops[..k + 1]) == Outputs(f, ops[..k]) + [Output(Replay(f, ops[..k]), ops[k])]
    ensures Needs(f, ops[..k + 1]) == Needs(f, ops[..k]) + NeedsOf(Replay(f, ops[..k]), ops[k])
  {
    assert ops[..k + 1][..k] == ops[..k];
  }

  /** Runs can be put together. */
  lemma {:induction false} ReplayAppend(f: Flat, x: seq<Op>, y: seq<Op>)
    ensures Replay(f, x + y) == Replay(Replay(f, x), y)
    ensures Outputs(f, x + y) == Outputs(f, x) + Outputs(Replay(f, x), y)
    ensures Needs(f, x + y) == Needs(f, x) + Needs(Replay(f, x), y)
  {
    if y == [] {
      assert x + y == x;
    } else {
      var n := |y| - 1;
      ReplayAppend(f, x, y[..n]);
      assert (x + y)[..|x + y| - 1] == x + y[..n];
    }
  }

  lemma OneOp(ops: seq<Op>, k: nat)
    requires k < |ops|
    ensures AllFit(ops) ==> Fits(ops[k])
    ensures AllStraight(ops) ==> StraightOp(ops[k])
    ensures OnlyReads(ops) ==> ops[k].Read?
  {
  }

  lemma {:induction false} NeedsGrow(f: Flat, ops: seq<Op>, k: nat)
    requires k <= |ops|
    ensures Needs(f, ops[..k]) <= Needs(f, ops)
  {
    if k == |ops| {
      assert ops[..k] == ops;
    } else {
      NeedsGrow(f, ops[..|ops| - 1], k);
      assert ops[..|ops| - 1][..k] == ops[..k];
    }
  }

  // ---------- what the store's own contracts mean for the map ----------

  lemma SameFilesOf(s: State, A: Tree, t: State, A': Tree)
    requires SameFiles(s, A, t, A')
    ensures FilesOf(t, A') == FilesOf(s, A) && (HeadsFit(s.ino) ==> HeadsFit(t.ino))
  {
    hide Content, Files;
  }

  lemma OneFileOf(s: State, A: Tree, t: State, A': Tree, i: nat, c: Bytes)
    requires OneFileChanged(s, A, t, A', i) && i in s.ino && Content(t, A', {}, i) == c
    ensures FilesOf(t, A') == FilesOf(s, A)[i := FilesOf(s, A)[i].(data := c)] && (HeadsFit(s.ino) ==> HeadsFit(t.ino))
  {
    hide Content, Files;
  }

  lemma SizesAgree(s: State, A: Tree)
    requires Files(s, A)
    ensures FilesOf(s, A).Keys == s.ino.Keys && forall i :: i in s.ino ==> |FilesOf(s, A)[i].data| == s.ino[i].size
  {
  }

  lemma FilesParts(s: State, A: Tree)
    requires Files(s, A)
    ensures Sound(s, A, {}) && Whole(s, A)
  {
  }

  method Step(e: Enclave, op: Op) returns (out: Bytes)
    requires Files(e.St(), e.A) && e.fr == {} && Fits(op) && Room(e.A, e.used, NeedsOf(FilesOf(e.St(), e.A), op))
    modifies e`disk, e`pdWb, e`bcac, e`inodes, e`used, e`A, e`fr
    ensures Files(e.St(), e.A) && e.fr == {}
    ensures Took(old(e.A), old(e.used), e.A, e.used, NeedsOf(old(FilesOf(e.St(), e.A)), op))
    ensures FilesOf(e.St(), e.A) == Effect(old(FilesOf(e.St(), e.A)), op)
    ensures out == Output(old(FilesOf(e.St(), e.A)), op)
    ensures old(AllRouted(e.St(), e.A)) && StraightOp(op) ==> AllRouted(e.St(), e.A)
    ensures old(HeadsFit(e.inodes)) ==> HeadsFit(e.inodes)
    ensures old(InFiles(e.St(), e.A)) ==> InFiles(e.St(), e.A)
    ensures op.Read? ==> Harmless(old(e.St()), e.St())
  {
    hide AllRouted, InFiles, Straight, Written, Min, Files, FilesOf, HeadsFit, Took, Room, Ways, Harmless;
    HarmlessRefl(e.St());
    TookNothing(e.A, e.used);
    SizesAgree(e.St(), e.A);
    out := [];
    match op
    case Create(i, tp, key) =>
      if i !in e.inodes { Born(e, i, tp, key); }
    case Write(i, off, buf) =>
      if i in e.inodes && off <= e.inodes[i].size { WriteOp(e, i, off, buf); }
    case Read(i, off, size) =>
      if i in e.inodes && off <= e.inodes[i].size { out := ReadOp(e, i, off, size); }
  }

  lemma FilesBound(s: State, A: Tree, i: nat, off: nat)
    requires Files(s, A) && i in s.ino && off <= s.ino[i].size
    ensures off < UINT32_SPAN
  {
    FileBound(s, A, i, off);
  }

  lemma NeedsWrite(f: Flat, i: nat, off: nat, buf: Bytes, done: nat)
    requires i in f && off <= |f[i].data| && off < UINT32_SPAN && done == |Fitting(off, buf)|
    ensures off / BLK_SZ <= EndBlock(off, done) <= MAXBLOCKS
    ensures NeedsOf(f, Write(i, off, buf)) == Ways(i, off / BLK_SZ, EndBlock(off, done))
  {
    EndGrows(off, 0, 0);
    if done > 0 { EndGrows(off, 0, done); }
  }

  method Born(e: Enclave, i: nat, tp: nat, key: KeyIv)
    requires Files(e.St(), e.A) && e.fr == {} && i !in e.inodes
    modifies e`inodes
    ensures Files(e.St(), e.A) && FilesOf(e.St(), e.A) == old(FilesOf(e.St(), e.A))[i := File(tp, key, [])]
    ensures old(AllRouted(e.St(), e.A)) ==> AllRouted(e.St(), e.A)
    ensures HeadFits(i, tp, key) && old(HeadsFit(e.inodes)) ==> HeadsFit(e.inodes)
    ensures old(InFiles(e.St(), e.A)) ==> InFiles(e.St(), e.A)
  {
    hide Content, Files, AllRouted, InFiles;
    e.NewInode(i, tp, key);
  }

  method WriteOp(e: Enclave, i: nat, off: nat, buf: Bytes)
    requires Files(e.St(), e.A) && e.fr == {} && i in e.inodes && off <= e.inodes[i].size && |buf| < UINT32_SPAN
    requires Room(e.A, e.used, NeedsOf(FilesOf(e.St(), e.A), Write(i, off, buf)))
    modifies e`disk, e`pdWb, e`bcac, e`inodes, e`used, e`A, e`fr
    ensures Files(e.St(), e.A) && e.fr == {}
    ensures Took(old(e.A), old(e.used), e.A, e.used, NeedsOf(old(FilesOf(e.St(), e.A)), Write(i, off, buf)))
    ensures FilesOf(e.St(), e.A) == Overwritten(old(FilesOf(e.St(), e.A)), i, off, Fitting(off, buf))
    ensures old(AllRouted(e.St(), e.A)) && Straight(off, |buf|) ==> AllRouted(e.St(), e.A)
    ensures old(HeadsFit(e.inodes)) ==> HeadsFit(e.inodes)
    ensures old(InFiles(e.St(), e.A)) ==> InFiles(e.St(), e.A)
  {
    hide Content, Files, AllRouted, InFiles, Written, Straight, Took, Room, Ways, EndBlock;
    FilesParts(e.St(), e.A);
    SizesAgree(e.St(), e.A);
    FilesBound(e.St(), e.A, i, off);
    NeedsWrite(FilesOf(e.St(), e.A), i, off, buf, |Fitting(off, buf)|);
    ghost var c := FilesOf(e.St(), e.A)[i].data;
    ghost var s, A := e.St(), e.A;
    var done := e.WriteData(i, off, buf);
    if Straight(off, |buf|) { StraightLess(off, |buf|, done); }
    assert buf[..done] == Fitting(off, buf);
    OneFileOf(s, A, e.St(), e.A, i, Written(c, off, Fitting(off, buf)));
  }

  method ReadOp(e: Enclave, i: nat, off: nat, size: nat) returns (out: Bytes)
    requires Files(e.St(), e.A) && e.fr == {} && i in e.inodes && off <= e.inodes[i].size && size < UINT32_SPAN
    modifies e`disk, e`pdWb, e`bcac, e`inodes, e`used, e`A, e`fr
    ensures Files(e.St(), e.A) && e.fr == {} && e.used == old(e.used) && e.A == old(e.A) &&
      FilesOf(e.St(), e.A) == old(FilesOf(e.St(), e.A))
    ensures out == Output(old(FilesOf(e.St(), e.A)), Read(i, off, size)) && Harmless(old(e.St()), e.St())
    ensures old(AllRouted(e.St(), e.A)) && Straight(off, size) ==> AllRouted(e.St(), e.A)
    ensures old(HeadsFit(e.inodes)) ==> HeadsFit(e.inodes)
    ensures old(InFiles(e.St(), e.A)) ==> InFiles(e.St(), e.A)
  {
    hide Content, Files, AllRouted, InFiles, Straight, Harmless;
    ghost var s, A := e.St(), e.A;
    out := e.ReadData(i, off, size);
    if Straight(off, size) { StraightLess(off, size, |out|); }
    SameFilesOf(s, A, e.St(), e.A);
  }

  /** Any sequence of operations acts on the files as on a map from inode numbers to bytes. */
  method Run(e: Enclave, ops: seq<Op>) returns (outs: seq<Bytes>)
    requires Files(e.St(), e.A) && e.fr == {}
    requires AllFit(ops) && Room(e.A, e.used, Needs(FilesOf(e.St(), e.A), ops))
    modifies e`disk, e`pdWb, e`bcac, e`inodes, e`used, e`A, e`fr
    ensures Files(e.St(), e.A) && e.fr == {}
    ensures Took(old(e.A), old(e.used), e.A, e.used, Needs(old(FilesOf(e.St(), e.A)), ops))
    ensures FilesOf(e.St(), e.A) == Replay(old(FilesOf(e.St(), e.A)), ops)
    ensures outs == Outputs(old(FilesOf(e.St(), e.A)), ops)
    ensures old(AllRouted(e.St(), e.A)) && AllStraight(ops) ==> AllRouted(e.St(), e.A)
    ensures old(HeadsFit(e.inodes)) ==> HeadsFit(e.inodes)
    ensures old(InFiles(e.St(), e.A)) ==> InFiles(e.St(), e.A)
    ensures OnlyReads(ops) ==> Harmless(old(e.St()), e.St())
  {
    hide Files, FilesOf, AllRouted, InFiles, AllStraight, OnlyReads, Harmless, StraightOp, Fits, AllFit, Whole,
      Replay, Outputs, Needs,
      Effect, Output, NeedsOf,
      HeadsFit, Took, Room;
    FilesParts(e.St(), e.A);
    ghost var f := FilesOf(e.St(), e.A);
    outs := [];
    var k := 0;
    TookNothing(e.A, e.used);
    ReplayNothing(f, ops);
    HarmlessRefl(e.St());
    while k < |ops|
      invariant 0 <= k <= |ops| && Files(e.St(), e.A) && Whole(e.St(), e.A) && e.fr == {}
      invariant Took(old(e.A), old(e.used), e.A, e.used, Needs(f, ops[..k]))
      invariant FilesOf(e.St(), e.A) == Replay(f, ops[..k]) && outs == Outputs(f, ops[..k])
      invariant old(AllRouted(e.St(), e.A)) && AllStraight(ops) ==> AllRouted(e.St(), e.A)
      invariant old(HeadsFit(e.inodes)) ==> HeadsFit(e.inodes)
      invariant old(InFiles(e.St(), e.A)) ==> InFiles(e.St(), e.A)
      invariant OnlyReads(ops) ==> Harmless(old(e.St()), e.St())
    {
      ghost var s1 := e.St();
      OneOp(ops, k);
      ReplayStep(f, ops, k);
      NeedsGrow(f, ops, k);
      NeedsGrow(f, ops, k + 1);
      RoomLeft(old(e.A), old(e.used), e.A, e.used, Needs(f, ops[..k]), NeedsOf(Replay(f, ops[..k]), ops[k]), Needs(f, ops));
      ghost var A1, u1 := e.A, e.used;
      var out := Step(e, ops[k]);
      if OnlyReads(ops) { HarmlessTrans(old(e.St()), s1, e.St()); }
      FilesParts(e.St(), e.A);
      TookTrans(old(e.A), old(e.used), A1, u1, e.A, e.used, Needs(f, ops[..k]), NeedsOf(Replay(f, ops[..k]), ops[k]));
      outs := outs + [out];
      k := k + 1;
    }
    assert ops[..k] == ops;
  }

  /** A session, from one mount to the next.  The flush at its end keeps the decrypted files, whatever
      the transfers were.  If they were straight, it leaves a tree in which every slot holds the hash
      of its block on disk, and the next session can begin in that state; it can always do so if
      every slot does.  A session of reads, straight or not, after which nothing was waiting before,
      writes nothing at all. */
  method Session(e: Enclave, ops: seq<Op>) returns (outs: seq<Bytes>)
    requires Files(e.St(), e.A) && e.fr == {} && InFiles(e.St(), e.A)
    requires AllFit(ops) && Room(e.A, e.used, Needs(FilesOf(e.St(), e.A), ops))
    modifies e`disk, e`pdWb, e`bcac, e`inodes, e`used, e`A, e`fr
    ensures Took(old(e.A), old(e.used), e.A, e.used, Needs(old(FilesOf(e.St(), e.A)), ops))
    ensures outs == Outputs(old(FilesOf(e.St(), e.A)), ops) && e.fr == {} && e.bcac == map[] && e.pdWb == map[]
    ensures Whole(e.St(), e.A) && FilesOf(e.St(), e.A) == Replay(old(FilesOf(e.St(), e.A)), ops)
    ensures old(AllRouted(e.St(), e.A)) && AllStraight(ops) ==> forall a :: a in e.A ==> Settled(e.St(), e.A, a)
    ensures OnlyReads(ops) ==> Harmless(old(e.St()), e.St())
    ensures OnlyReads(ops) && old(Quiet(e.St())) ==> forall a :: a in e.A ==> Settled(e.St(), e.A, a)
    ensures (forall a :: a in e.A ==> Settled(e.St(), e.A, a)) ==> Files(e.St(), e.A)
    ensures AllRouted(e.St(), e.A) && InFiles(e.St(), e.A) && (old(HeadsFit(e.inodes)) ==> HeadsFit(e.inodes))
  {
    hide Files, FilesOf, AllRouted, InFiles, Replay, Outputs, Needs, Took, Room, Settled, UpToDate, AllStraight,
      Guided, Left, Lost, Full,
      Whole, HeadsFit, AllSensible, ViewsButHashes, Unnamed, OnlyReads, Harmless, Quiet;
    ghost var s0 := e.St();
    outs := Run(e, ops);
    ghost var s := e.St();
    if OnlyReads(ops) { HarmlessQuiet(s0, s); }
    FilesParts(s, e.A);
    InFilesSensible(s, e.A);
    if AllRouted(s, e.A) { RoutedExit(s, e.A); }
    ghost var m := e.BlockExit();
    FlushedFilesOf(s, e.St(), e.A);
    EmptyRouted(e.St(), e.A);
    if OnlyReads(ops) { HarmlessTrans(s0, s, e.St()); }
  }

  lemma HarmlessQuiet(s: State, t: State)
    requires Harmless(s, t)
    ensures Quiet(s) ==> Quiet(t)
  {
  }

  // With all routes true, every slot is right after the flush.
  lemma RoutedExit(s: State, A: Tree)
    requires Sound(s, A, {}) && AllRouted(s, A)
    ensures Full(Left(s)) && Guided(Left(s), A) && Lost(Left(s), A) == {}
  {
    hide Sound, AllRouted, Flushable, Left, Lost;
    RoutedFlushable(s, A);
    FlushableExit(s, A);
  }

  // The flush keeps the decrypted files.
  lemma FlushedFilesOf(s: State, t: State, A: Tree)
    requires Whole(s, A) && ViewsButHashes(s, t, A)
    ensures Whole(t, A) && FilesOf(t, A) == FilesOf(s, A) && (HeadsFit(s.ino) ==> HeadsFit(t.ino))
  {
    hide Covered, Content;
    forall i | i in s.ino
      ensures Covered(A, i, t.ino[i].size) && Content(t, A, {}, i) == Content(s, A, {}, i)
    {
      SameContent(s, t, A, i);
    }
  }

  lemma SameContent(s: State, t: State, A: Tree, i: nat)
    requires ViewsButHashes(s, t, A) && i in s.ino && Covered(A, i, s.ino[i].size)
    ensures i in t.ino && Covered(A, i, t.ino[i].size) && Content(t, A, {}, i) == Content(s, A, {}, i)
  {
    hide View, SameButHashes, ByteAt;
    forall o | 0 <= o < s.ino[i].size
      ensures LeafAt(i, o) in A && ByteAt(t, A, {}, i, o) == ByteAt(s, A, {}, i, o)
    {
      assert LeafAt(i, o) in A;
      SameByte(s, t, A, i, o);
    }
  }

  lemma SameByte(s: State, t: State, A: Tree, i: nat, o: nat)
    requires ViewsButHashes(s, t, A) && i in s.ino && o < UINT32_SPAN && LeafAt(i, o) in A
    ensures ByteAt(t, A, {}, i, o) == ByteAt(s, A, {}, i, o)
  {
    hide View, SameButHashes;
    LeavesAreLeaves(i, o);
  }

  lemma EmptyRouted(s: State, A: Tree)
    requires s.bcac == map[] && s.pd == map[]
    ensures AllRouted(s, A) && InFiles(s, A)
  {
  }

  lemma RoomAtFirst(f: Flat, ops: seq<Op>)
    ensures Room(map[], {}, Needs(f, ops)) <==> |Needs(f, ops)| <= CAPACITY
  {
    AllFree();
    var A: Tree := map[];
    assert Needs(f, ops) - A.Keys == Needs(f, ops);
  }

  /** From an empty store on. */
  method FirstSession(cs: Suite, ops: seq<Op>) returns (e: Enclave, outs: seq<Bytes>)
    requires Sane(cs) && AllFit(ops) && |Needs(map[], ops)| <= CAPACITY
    ensures fresh(e) && Whole(e.St(), e.A) && FilesOf(e.St(), e.A) == Replay(map[], ops) && outs == Outputs(map[], ops)
    ensures AllStraight(ops) ==> Files(e.St(), e.A) && forall a :: a in e.A ==> Settled(e.St(), e.A, a)
  {
    hide Settled, AllStraight;
    e := new Enclave(cs);
    EmptyRouted(e.St(), e.A);
    RoomAtFirst(map[], ops);
    outs := Session(e, ops);
  }
}
